/** The byte-string operations of Go's `strings` and `sort` packages that the client relies on.
    A `string` stands for a Go string; each `char` stands for one byte. */
module Text {

  function Contains(s: string, c: char): bool {
    exists i | 0 <= i < |s| :: s[i] == c
  }

  function Count(s: string, c: char): nat {
    if s == "" then 0 else Count(s[..|s| - 1], c) + if s[|s| - 1] == c then 1 else 0
  }

  // strings.LastIndex for a one-byte needle; -1 when the needle is absent.
  function LastIndex(s: string, c: char): (i: int)
    ensures -1 <= i < |s|
  {
    if s == "" then -1 else if s[|s| - 1] == c then |s| - 1 else LastIndex(s[..|s| - 1], c)
  }

  // strings.TrimSuffix with a slash
  function TrimSlash(s: string): string {
    if s != "" && s[|s| - 1] == '/' then s[..|s| - 1] else s
  }

  // strings.Split at slashes
  function Split(s: string): (parts: seq<string>)
    ensures |parts| > 0
  {
    if s == "" then [""]
    else
      var rest := Split(s[1..]);
      if s[0] == '/' then [""] + rest else [[s[0]] + rest[0]] + rest[1..]
  }

  // The number a string of digits stands for.
  function Decimal(digits: string): nat
    requires forall i | 0 <= i < |digits| :: '0' <= digits[i] <= '9'
  {
    if digits == "" then 0
    else Decimal(digits[..|digits| - 1]) * 10 + (digits[|digits| - 1] as int - '0' as int)
  }

  // Every segment, each preceded by one slash.
  function Slashed(parts: seq<string>): string {
    if parts == [] then "" else "/" + parts[0] + Slashed(parts[1..])
  }

  lemma SlashedCons(part: string, rest: seq<string>)
    ensures Slashed([part] + rest) == "/" + part + Slashed(rest)
  {
    assert ([part] + rest)[1..] == rest;
  }

  // A byte more at the front of the first part.
  lemma Longer(c: char, part: string, tail: string, whole: string)
    requires "/" + part + tail == "/" + whole
    ensures "/" + ([c] + part) + tail == "/" + ([c] + whole)
  {
    assert part + tail == ("/" + part + tail)[1..];
    assert whole == ("/" + whole)[1..];
    assert ([c] + part) + tail == [c] + (part + tail);
  }

  lemma {:induction false} SlashedSplit(s: string)
    ensures Slashed(Split(s)) == "/" + s
  {
    if s == "" {
      SlashedCons("", []);
      assert [""] + [] == [""];
    } else {
      hide Slashed;
      var rest := Split(s[1..]);
      SlashedSplit(s[1..]);
      assert s == [s[0]] + s[1..];
      if s[0] == '/' {
        SlashedCons("", rest);
      } else {
        SlashedCons(rest[0], rest[1..]);
        SlashedCons([s[0]] + rest[0], rest[1..]);
        assert [rest[0]] + rest[1..] == rest;
        Longer(s[0], rest[0], Slashed(rest[1..]), s[1..]);
      }
    }
  }

  lemma {:induction false} SplitParts(s: string)
    ensures forall part | part in Split(s) :: !Contains(part, '/')
    ensures forall part, i | part in Split(s) && 0 <= i < |part| :: part[i] in s
  {
    if s != "" {
      SplitParts(s[1..]);
      var rest := Split(s[1..]);
      if s[0] != '/' {
        var head := [s[0]] + rest[0];
        assert rest[0] in rest;
        assert !Contains(head, '/');
        assert forall i | 0 <= i < |head| :: head[i] in s;
      }
      assert forall part | part in rest[1..] :: part in rest;
    }
  }

  lemma {:induction false} SplitOne(s: string)
    requires !Contains(s, '/')
    ensures Split(s) == [s]
  {
    if s != "" {
      assert s[0] != '/';
      assert !Contains(s[1..], '/') by { assert forall i | 0 <= i < |s| - 1 :: s[1..][i] == s[i + 1]; }
      SplitOne(s[1..]);
      assert [s[0]] + s[1..] == s;
    }
  }

  lemma {:induction false} SplitCons(part: string, rest: string)
    requires !Contains(part, '/')
    ensures Split(part + "/" + rest) == [part] + Split(rest)
  {
    var s := part + "/" + rest;
    if part == "" {
      assert s[1..] == rest;
    } else {
      assert part[0] != '/';
      assert !Contains(part[1..], '/') by { assert forall i | 0 <= i < |part| - 1 :: part[1..][i] == part[i + 1]; }
      SplitCons(part[1..], rest);
      assert s[1..] == part[1..] + "/" + rest;
      assert [part[0]] + part[1..] == part;
    }
  }

  lemma {:induction false} SplitSlashed(parts: seq<string>)
    requires parts != []
    requires forall part | part in parts :: !Contains(part, '/')
    ensures Split(Slashed(parts)[1..]) == parts
  {
    assert parts[0] in parts;
    if |parts| == 1 {
      assert Slashed(parts) == "/" + parts[0] + "";
      assert Slashed(parts)[1..] == parts[0];
      SplitOne(parts[0]);
    } else {
      SplitSlashed(parts[1..]);
      var rest := Slashed(parts[1..])[1..];
      assert Slashed(parts[1..]) == "/" + rest;
      assert Slashed(parts)[1..] == parts[0] + "/" + rest;
      SplitCons(parts[0], rest);
    }
  }

  lemma {:induction false} SlashedSnoc(parts: seq<string>, last: string)
    ensures Slashed(parts + [last]) == Slashed(parts) + "/" + last
  {
    if parts == [] {
      assert [last][1..] == [];
      assert [] + [last] == [last];
    } else {
      SlashedSnoc(parts[1..], last);
      assert (parts + [last])[1..] == parts[1..] + [last];
    }
  }

  lemma {:induction false} CountConcat(a: string, b: string, c: char)
    ensures Count(a + b, c) == Count(a, c) + Count(b, c)
  {
    if b == "" {
      assert a + b == a;
    } else {
      assert (a + b)[..|a + b| - 1] == a + b[..|b| - 1];
      CountConcat(a, b[..|b| - 1], c);
    }
  }

  lemma {:induction false} CountAbsent(s: string, c: char)
    requires !Contains(s, c)
    ensures Count(s, c) == 0
  {
    if s != "" {
      CountAbsent(s[..|s| - 1], c);
    }
  }

  lemma {:induction false} LastIndexAt(a: string, b: string, c: char)
    requires !Contains(b, c)
    ensures LastIndex(a + [c] + b, c) == |a|
  {
    var s := a + [c] + b;
    if b != "" {
      assert s[|s| - 1] == b[|b| - 1];
      assert s[..|s| - 1] == a + [c] + b[..|b| - 1];
      LastIndexAt(a, b[..|b| - 1], c);
    }
  }
}
