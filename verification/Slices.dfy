/** Sorted string lists and the in-place slice operations that build them. */
module Slices {
  import opened Paths

  // Go's byte-wise string order.
  predicate Le(a: string, b: string) {
    a == "" || (b != "" && (a[0] < b[0] || (a[0] == b[0] && Le(a[1..], b[1..]))))
  }

  predicate Lt(a: string, b: string) {
    Le(a, b) && a != b
  }

  ghost predicate Ascending(s: seq<string>) {
    forall i, j | 0 <= i < j < |s| :: Le(s[i], s[j])
  }

  ghost predicate StrictlyAscending(s: seq<string>) {
    forall i, j | 0 <= i < j < |s| :: Lt(s[i], s[j])
  }

  ghost predicate NoDuplicates(s: seq<string>) {
    forall i, j | 0 <= i < j < |s| :: s[i] != s[j]
  }

  // sort.Strings
  function Insert(x: string, s: seq<string>): seq<string> {
    if s == [] || Le(x, s[0]) then [x] + s else [s[0]] + Insert(x, s[1..])
  }

  function Sorted(s: seq<string>): (r: seq<string>)
    ensures |r| == |s|
  {
    if s == [] then [] else InsertLength(s[0], Sorted(s[1..])); Insert(s[0], Sorted(s[1..]))
  }

  // compactStrings
  function Compacted(s: seq<string>): (r: seq<string>)
    ensures |r| <= |s| && (s != [] ==> r != [] && r[|r| - 1] == s[|s| - 1])
  {
    if s == [] then []
    else
      var r := Compacted(s[..|s| - 1]);
      if r != [] && r[|r| - 1] == s[|s| - 1] then r else r + [s[|s| - 1]]
  }

  // A list sorted and then compacted: how every stale list is published.
  function Canonical(s: seq<string>): seq<string> {
    Compacted(Sorted(s))
  }

  lemma {:induction false} InsertLength(x: string, s: seq<string>)
    ensures |Insert(x, s)| == |s| + 1
  {
    if s != [] && !Le(x, s[0]) { InsertLength(x, s[1..]); }
  }

  // --- the order is total

  lemma {:induction false} LeTotal(a: string, b: string)
    ensures Le(a, b) || Le(b, a)
    ensures Le(a, b) && Le(b, a) ==> a == b
  {
    if a != "" && b != "" {
      LeTotal(a[1..], b[1..]);
      assert a == [a[0]] + a[1..] && b == [b[0]] + b[1..];
    }
  }

  lemma {:induction false} LeTransitive(a: string, b: string, c: string)
    requires Le(a, b) && Le(b, c)
    ensures Le(a, c)
  {
    if a != "" && a[0] == b[0] == c[0] { LeTransitive(a[1..], b[1..], c[1..]); }
  }

  /** The order is that of the first byte that differs; a text comes after what it begins with. */
  lemma {:induction false} LeAtTheFirstDifference(a: string, b: string)
    ensures Le(a, b) <==>
            a <= b || exists i :: 0 <= i < |a| && i < |b| && a[..i] == b[..i] && a[i] < b[i]
  {
    if a != "" && b != "" {
      LeAtTheFirstDifference(a[1..], b[1..]);
      assert a == [a[0]] + a[1..] && b == [b[0]] + b[1..];
      if a[0] < b[0] {
        assert a[..0] == b[..0];
      } else if a[0] == b[0] {
        SameHead(a, b);
      } else {
        assert forall i | 0 < i <= |a| && i <= |b| :: a[..i][0] != b[..i][0];
      }
    }
  }

  lemma SameHead(a: string, b: string)
    requires a != "" && b != "" && a[0] == b[0]
    ensures a <= b <==> a[1..] <= b[1..]
    ensures (exists i :: 0 <= i < |a| && i < |b| && a[..i] == b[..i] && a[i] < b[i]) <==>
            (exists i :: 0 <= i < |a| - 1 && i < |b| - 1 && a[1..][..i] == b[1..][..i] && a[1..][i] < b[1..][i])
  {
    assert a == [a[0]] + a[1..] && b == [b[0]] + b[1..];
    PrefixByHead(a, b);
    if i :| 0 <= i < |a| && i < |b| && a[..i] == b[..i] && a[i] < b[i] {
      assert i > 0;
      assert a[1..][..i - 1] == a[..i][1..] && b[1..][..i - 1] == b[..i][1..];
      assert a[1..][i - 1] < b[1..][i - 1];
    }
    if i :| 0 <= i < |a| - 1 && i < |b| - 1 && a[1..][..i] == b[1..][..i] && a[1..][i] < b[1..][i] {
      assert a[..i + 1] == [a[0]] + a[1..][..i] && b[..i + 1] == [b[0]] + b[1..][..i];
      assert a[i + 1] < b[i + 1];
    }
  }

  // --- sorting and compacting

  lemma {:induction false} InsertAscending(x: string, s: seq<string>)
    requires Ascending(s)
    ensures Ascending(Insert(x, s))
    ensures forall y :: y in Insert(x, s) <==> y == x || y in s
  {
    if s == [] {
    } else if Le(x, s[0]) {
      forall i | 0 <= i < |s| ensures Le(x, s[i]) {
        if i > 0 { LeTransitive(x, s[0], s[i]); }
      }
    } else {
      LeTotal(x, s[0]);
      InsertAscending(x, s[1..]);
      var rest := Insert(x, s[1..]);
      forall y | y in rest ensures Le(s[0], y) { }
      assert s == [s[0]] + s[1..];
    }
  }

  lemma {:induction false} SortedAscending(s: seq<string>)
    ensures Ascending(Sorted(s))
    ensures forall x :: x in Sorted(s) <==> x in s
  {
    if s != [] {
      SortedAscending(s[1..]);
      InsertAscending(s[0], Sorted(s[1..]));
      assert s == [s[0]] + s[1..];
    }
  }

  lemma {:induction false} CompactedElements(s: seq<string>)
    ensures forall x :: x in Compacted(s) <==> x in s
  {
    if s != [] {
      var n := |s| - 1;
      CompactedElements(s[..n]);
      assert s == s[..n] + [s[n]];
    }
  }

  lemma StrictSnoc(r: seq<string>, x: string)
    requires StrictlyAscending(r) && (r != [] ==> Lt(r[|r| - 1], x))
    ensures StrictlyAscending(r + [x])
  {
    forall i | 0 <= i < |r| ensures Lt(r[i], x) {
      if i < |r| - 1 {
        LeTransitive(r[i], r[|r| - 1], x);
        LeTotal(r[|r| - 1], x);
      }
    }
  }

  lemma {:induction false} CompactedStrict(s: seq<string>)
    requires Ascending(s)
    ensures StrictlyAscending(Compacted(s))
  {
    if |s| > 1 {
      var n := |s| - 1;
      CompactedStrict(s[..n]);
      var r := Compacted(s[..n]);
      assert r[|r| - 1] == s[n - 1] && Le(s[n - 1], s[n]);
      if r[|r| - 1] != s[n] { StrictSnoc(r, s[n]); }
    }
  }

  /** The published form keeps the elements, drops repetitions and is strictly sorted. */
  lemma CanonicalIsStrict(s: seq<string>)
    ensures StrictlyAscending(Canonical(s))
    ensures forall x :: x in Canonical(s) <==> x in s
  {
    SortedAscending(s);
    CompactedStrict(Sorted(s));
    CompactedElements(Sorted(s));
  }

  /** A strictly sorted list is determined by its elements. */
  lemma {:induction false} StrictListsAgree(a: seq<string>, b: seq<string>)
    requires StrictlyAscending(a) && StrictlyAscending(b)
    requires forall x :: x in a <==> x in b
    ensures a == b
  {
    if a == [] {
      assert forall i | 0 <= i < |b| :: b[i] in b;
    } else {
      assert a[0] in a && a[0] in b;
      assert b[0] in b && b[0] in a;
      var i :| 0 <= i < |b| && b[i] == a[0];
      var j :| 0 <= j < |a| && a[j] == b[0];
      LeTotal(a[0], b[0]);
      LeTotal(a[0], a[0]);
      LeTotal(b[0], b[0]);
      assert Le(b[0], b[i]) && Le(a[0], a[j]);
      assert a[0] == b[0];
      assert a == [a[0]] + a[1..] && b == [b[0]] + b[1..];
      forall x ensures x in a[1..] <==> x in b[1..] {
        if x in a[1..] { assert x in a && x != a[0]; }
        if x in b[1..] { assert x in b && x != b[0]; }
      }
      StrictListsAgree(a[1..], b[1..]);
    }
  }

  lemma SameElementsSameCanonical(a: seq<string>, b: seq<string>)
    requires forall x :: x in a <==> x in b
    ensures Canonical(a) == Canonical(b)
  {
    CanonicalIsStrict(a);
    CanonicalIsStrict(b);
    StrictListsAgree(Canonical(a), Canonical(b));
  }

  // --- dropping what lies under a removed root

  predicate Gone(removed: set<string>, path: string) {
    exists root | root in removed :: CoversRemoved(root, path)
  }

  function Survivors(s: seq<string>, removed: set<string>): seq<string> {
    if s == [] then []
    else
      var rest := Survivors(s[..|s| - 1], removed);
      if Gone(removed, s[|s| - 1]) then rest else rest + [s[|s| - 1]]
  }

  lemma {:induction false} SurvivorsElements(s: seq<string>, removed: set<string>)
    ensures forall x :: x in Survivors(s, removed) <==> x in s && !Gone(removed, x)
    ensures |Survivors(s, removed)| <= |s|
  {
    if s != [] {
      SurvivorsElements(s[..|s| - 1], removed);
      assert s == s[..|s| - 1] + [s[|s| - 1]];
    }
  }

  /** The survivors stand in the order in which they stood. */
  lemma {:induction false} SurvivorsKeepOrder(s: seq<string>, removed: set<string>) returns (at: seq<nat>)
    ensures |at| == |Survivors(s, removed)|
    ensures forall i | 0 <= i < |at| :: at[i] < |s| && Survivors(s, removed)[i] == s[at[i]]
    ensures forall i, j | 0 <= i < j < |at| :: at[i] < at[j]
  {
    at := [];
    if s != [] {
      var n := |s| - 1;
      at := SurvivorsKeepOrder(s[..n], removed);
      if !Gone(removed, s[n]) { at := at + [n]; }
    }
  }

  lemma {:induction false} SurvivorsKeepStrict(s: seq<string>, removed: set<string>)
    requires StrictlyAscending(s)
    ensures StrictlyAscending(Survivors(s, removed))
  {
    if s != [] {
      var n := |s| - 1;
      SurvivorsKeepStrict(s[..n], removed);
      SurvivorsElements(s[..n], removed);
      var r := Survivors(s[..n], removed);
      if r != [] { assert r[|r| - 1] in r && r[|r| - 1] in s[..n]; }
      if !Gone(removed, s[n]) { StrictSnoc(r, s[n]); }
    }
  }

  lemma {:induction false} SurvivorsNoDuplicates(s: seq<string>, removed: set<string>)
    requires NoDuplicates(s)
    ensures NoDuplicates(Survivors(s, removed))
  {
    if s != [] {
      var n := |s| - 1;
      SurvivorsNoDuplicates(s[..n], removed);
      SurvivorsElements(s[..n], removed);
      var r := Survivors(s[..n], removed);
      forall i | 0 <= i < |r| ensures r[i] != s[n] { assert r[i] in r && r[i] in s[..n]; }
    }
  }

  lemma {:induction false} SurvivorsOfNone(s: seq<string>)
    ensures Survivors(s, {}) == s
  {
    if s != [] {
      SurvivorsOfNone(s[..|s| - 1]);
      assert s == s[..|s| - 1] + [s[|s| - 1]];
    }
  }

  // --- the same operations in place, as the client performs them

  // sort.Strings: a library call, so only its result is modelled.
  method SortStrings(items: array<string>)
    modifies items
    ensures items[..] == Sorted(old(items[..]))
  {
    var result := Sorted(items[..]);
    forall i | 0 <= i < items.Length { items[i] := result[i]; }
    assert items[..] == result;
  }

  // Keeps the first of every run of equal items at the front of the same backing array.
  method CompactStrings(items: array<string>) returns (count: nat)
    modifies items
    ensures count <= items.Length && items[..count] == Compacted(old(items[..]))
  {
    if items.Length == 0 { return 0; }
    ghost var before := items[..];
    count := 1;
    assert before[..1][..0] == [];
    for i := 1 to items.Length
      invariant 1 <= count <= i
      invariant items[..count] == Compacted(before[..i])
      invariant forall k | i <= k < items.Length :: items[k] == before[k]
    {
      CompactedNext(before, i);
      ghost var kept := Compacted(before[..i]);
      assert kept[count - 1] == items[count - 1];
      if items[i] != items[count - 1] {
        items[count] := items[i];
        count := count + 1;
        assert items[..count] == kept + [before[i]];
      }
    }
    assert before[..items.Length] == before;
  }

  lemma CompactedNext(s: seq<string>, i: nat)
    requires 0 < i < |s|
    ensures var r := Compacted(s[..i]);
            r != [] && Compacted(s[..i + 1]) == if r[|r| - 1] == s[i] then r else r + [s[i]]
  {
    assert s[..i + 1][..i] == s[..i];
  }

  lemma SurvivorsNext(s: seq<string>, i: nat, removed: set<string>)
    requires i < |s|
    ensures Survivors(s[..i + 1], removed) == Survivors(s[..i], removed) + if Gone(removed, s[i]) then [] else [s[i]]
  {
    assert s[..i + 1][..i] == s[..i];
  }

  // Keeps the scopes that are not deleted, at the front of the same backing array.
  method DropRemoved(items: array<string>, size: nat, removed: set<string>) returns (count: nat)
    requires size <= items.Length
    modifies items
    ensures count <= size && items[..count] == Survivors(old(items[..size]), removed)
  {
    ghost var before := items[..size];
    count := 0;
    for i := 0 to size
      invariant count <= i
      invariant items[..count] == Survivors(before[..i], removed)
      invariant forall k | i <= k < size :: items[k] == before[k]
    {
      SurvivorsNext(before, i, removed);
      var deleted := UnderRemoved(removed, items[i]);
      if !deleted {
        items[count] := items[i];
        count := count + 1;
        assert items[..count] == Survivors(before[..i], removed) + [before[i]];
      }
    }
    assert before[..size] == before;
  }

  // Walks over the removed roots, in any order, up to the first that covers the path.
  method UnderRemoved(removed: set<string>, path: string) returns (found: bool)
    ensures found == Gone(removed, path)
  {
    var left := removed;
    found := false;
    while left != {} && !found
      invariant left <= removed
      invariant found ==> Gone(removed, path)
      invariant !found ==> forall root | root in removed - left :: !CoversRemoved(root, path)
      decreases left
    {
      var root :| root in left;
      found := CoversRemoved(root, path);
      left := left - {root};
    }
  }
}
