/** When two blob pointers name the same slot of a detail tree. The client compares pointers as
    strings, but reads them leniently: array indices may have leading zeros, and a tilde that starts
    no escape stands for itself. */
module BlobPointers {
  import opened Wrappers
  import opened Text
  import opened Documents
  import opened FieldPointers
  import opened Blobs

  // --- decimal digits

  predicate Digits(s: string) {
    s != "" && forall i | 0 <= i < |s| :: '0' <= s[i] <= '9'
  }

  predicate NoLeadingZero(digits: string) {
    |digits| > 1 ==> digits[0] != '0'
  }

  function TrimZeros(digits: string): string {
    if NoLeadingZero(digits) then digits else TrimZeros(digits[1..])
  }

  lemma {:induction false} LeadingZeroIsNothing(s: string)
    requires Digits(s) && s[0] == '0'
    ensures Decimal(s) == Decimal(s[1..])
  {
    if |s| > 1 {
      var init := s[..|s| - 1];
      assert s[1..][..|s| - 2] == init[1..];
      LeadingZeroIsNothing(init);
    }
  }

  lemma {:induction false} TrimmedDigits(s: string)
    requires Digits(s)
    ensures Digits(TrimZeros(s)) && NoLeadingZero(TrimZeros(s)) && Decimal(TrimZeros(s)) == Decimal(s)
  {
    if !NoLeadingZero(s) {
      LeadingZeroIsNothing(s);
      TrimmedDigits(s[1..]);
    }
  }

  lemma {:induction false} DecimalIsPositive(s: string)
    requires Digits(s) && s[0] != '0'
    ensures Decimal(s) >= 1
  {
    if |s| > 1 { DecimalIsPositive(s[..|s| - 1]); }
  }

  function DigitValue(c: char): int {
    c as int - '0' as int
  }

  lemma DecimalSplit(s: string)
    requires Digits(s)
    ensures Decimal(s) == 10 * Decimal(s[..|s| - 1]) + DigitValue(s[|s| - 1])
    ensures 0 <= DigitValue(s[|s| - 1]) < 10
  {
  }

  lemma OneRemainder(x: nat, c: int, y: nat, d: int)
    requires 10 * x + c == 10 * y + d && 0 <= c < 10 && 0 <= d < 10
    ensures x == y && c == d
  {
  }

  lemma SameLastDigit(a: string, b: string)
    requires Digits(a) && Digits(b) && Decimal(a) == Decimal(b)
    ensures a[|a| - 1] == b[|b| - 1] && Decimal(a[..|a| - 1]) == Decimal(b[..|b| - 1])
  {
    hide Decimal;
    DecimalSplit(a);
    DecimalSplit(b);
    OneRemainder(
      Decimal(a[..|a| - 1]), DigitValue(a[|a| - 1]), Decimal(b[..|b| - 1]), DigitValue(b[|b| - 1]));
  }

  /** A number has one notation without leading zeros. */
  lemma {:induction false} OneNotation(a: string, b: string)
    requires Digits(a) && Digits(b) && NoLeadingZero(a) && NoLeadingZero(b)
    requires Decimal(a) == Decimal(b)
    ensures a == b
  {
    hide Decimal;
    var m, n := |a| - 1, |b| - 1;
    SameLastDigit(a, b);
    NothingIsZero();
    if m > 0 { DecimalIsPositive(a[..m]); }
    if n > 0 { DecimalIsPositive(b[..n]); }
    if m > 0 && n > 0 { OneNotation(a[..m], b[..n]); }
    assert a == a[..m] + [a[m]] && b == b[..n] + [b[n]];
  }

  lemma NothingIsZero()
    ensures Decimal("") == 0
  {
  }

  lemma SameNumberSameDigits(a: string, b: string)
    requires Digits(a) && Digits(b)
    ensures Decimal(a) == Decimal(b) <==> TrimZeros(a) == TrimZeros(b)
  {
    TrimmedDigits(a);
    TrimmedDigits(b);
    if Decimal(a) == Decimal(b) { OneNotation(TrimZeros(a), TrimZeros(b)); }
  }

  // --- canonical keys

  function CanonicalKey(at: Json, key: string): string {
    if at.Arr? then TrimZeros(key) else key
  }

  // The place one key leads to.
  function Below(root: Json, key: string): Json
    requires Enter(root, key).Some? && Child(root, Enter(root, key).value).Some?
  {
    Child(root, Enter(root, key).value).value
  }

  function CanonicalKeys(root: Json, keys: seq<string>): (r: seq<string>)
    requires Resolve(root, keys).Some?
    ensures |r| == |keys|
    decreases |keys|
  {
    if keys == [] then [] else [CanonicalKey(root, keys[0])] + CanonicalKeys(Below(root, keys[0]), keys[1..])
  }

  lemma SameEntry(at: Json, a: string, b: string)
    requires Enter(at, a).Some? && Enter(at, b).Some?
    ensures Enter(at, a) == Enter(at, b) <==> CanonicalKey(at, a) == CanonicalKey(at, b)
  {
    if at.Arr? { SameNumberSameDigits(a, b); }
  }

  lemma CanonicalEntry(at: Json, key: string)
    requires Enter(at, key).Some?
    ensures Enter(at, CanonicalKey(at, key)) == Enter(at, key)
  {
    if at.Arr? { TrimmedDigits(key); }
  }

  lemma {:induction false} SameSlots(root: Json, a: seq<string>, b: seq<string>)
    requires Resolve(root, a).Some? && Resolve(root, b).Some?
    ensures Resolve(root, a) == Resolve(root, b) <==> CanonicalKeys(root, a) == CanonicalKeys(root, b)
    decreases |a|
  {
    ResolvedSlotExists(root, a);
    ResolvedSlotExists(root, b);
    if a != [] && b != [] {
      SameEntry(root, a[0], b[0]);
      HeadAndTail(Resolve(root, a).value, Resolve(root, b).value);
      HeadAndTail(CanonicalKeys(root, a), CanonicalKeys(root, b));
      if Enter(root, a[0]) == Enter(root, b[0]) { SameSlots(Below(root, a[0]), a[1..], b[1..]); }
    }
  }

  lemma HeadAndTail<T>(a: seq<T>, b: seq<T>)
    requires a != [] && b != []
    ensures a == b <==> a[0] == b[0] && a[1..] == b[1..]
  {
    assert a == [a[0]] + a[1..] && b == [b[0]] + b[1..];
  }

  lemma {:induction false} CanonicalKeysResolve(root: Json, keys: seq<string>)
    requires Resolve(root, keys).Some?
    ensures Resolve(root, CanonicalKeys(root, keys)) == Resolve(root, keys)
    decreases |keys|
  {
    if keys != [] {
      CanonicalEntry(root, keys[0]);
      CanonicalKeysResolve(Below(root, keys[0]), keys[1..]);
      assert CanonicalKeys(root, keys)[1..] == CanonicalKeys(Below(root, keys[0]), keys[1..]);
    }
  }

  // --- canonical pointers

  function EscapedAll(keys: seq<string>): seq<string> {
    seq(|keys|, i requires 0 <= i < |keys| => Escape(keys[i]))
  }

  function PointerOf(keys: seq<string>): string {
    Slashed(["groups"] + EscapedAll(keys))
  }

  /** The pointer with every part escaped as section 4 of RFC 6901 has it, and no leading zero in an
      array index. */
  function CanonicalPointer(groups: Json, pointer: string): string
    requires PointerSlot(groups, pointer).Some?
  {
    PointerOf(CanonicalKeys(groups, KeysOf(Split(pointer)[2..])))
  }

  lemma SplitPointerOf(keys: seq<string>)
    ensures Split(PointerOf(keys)) == ["", "groups"] + EscapedAll(keys)
    ensures KeysOf(EscapedAll(keys)) == keys
  {
    var path := ["groups"] + EscapedAll(keys);
    forall part | part in path ensures !Contains(part, '/') {
      if part != "groups" {
        var i :| 0 <= i < |keys| && part == Escape(keys[i]);
        EscapeRoundTrip(keys[i]);
      }
    }
    SplitSlashed(path);
    SplitRooted(path);
    assert [""] + path == ["", "groups"] + EscapedAll(keys);
    forall i | 0 <= i < |keys| ensures KeysOf(EscapedAll(keys))[i] == keys[i] { UnescapeEscape(keys[i]); }
  }

  lemma PointersDiffer(a: seq<string>, b: seq<string>)
    ensures PointerOf(a) == PointerOf(b) <==> a == b
  {
    SplitPointerOf(a);
    SplitPointerOf(b);
    assert (["", "groups"] + EscapedAll(a))[2..] == EscapedAll(a);
    assert (["", "groups"] + EscapedAll(b))[2..] == EscapedAll(b);
  }

  /** Two accepted pointers name the same slot exactly when their canonical forms are equal. */
  lemma SameSlotExactly(groups: Json, p: string, q: string)
    requires PointerSlot(groups, p).Some? && PointerSlot(groups, q).Some?
    ensures PointerSlot(groups, p) == PointerSlot(groups, q) <==>
            CanonicalPointer(groups, p) == CanonicalPointer(groups, q)
  {
    var a, b := KeysOf(Split(p)[2..]), KeysOf(Split(q)[2..]);
    SameSlots(groups, a, b);
    PointersDiffer(CanonicalKeys(groups, a), CanonicalKeys(groups, b));
  }

  /** The canonical form of an accepted pointer is itself accepted, and names the same slot. */
  lemma CanonicalNamesTheSlot(groups: Json, pointer: string)
    requires PointerSlot(groups, pointer).Some?
    ensures PointerSlot(groups, CanonicalPointer(groups, pointer)) == PointerSlot(groups, pointer)
  {
    var keys := KeysOf(Split(pointer)[2..]);
    var canonical := CanonicalKeys(groups, keys);
    SplitPointerOf(canonical);
    CanonicalKeysResolve(groups, keys);
    assert (["", "groups"] + EscapedAll(canonical))[2..] == EscapedAll(canonical);
  }

  // --- a slot, written as a pointer

  const DIGITS := "0123456789"

  function DigitsOf(n: nat): string {
    if n < 10 then [DIGITS[n]] else DigitsOf(n / 10) + [DIGITS[n % 10]]
  }

  function SlotKey(slot: Slot): string {
    match slot
    case Key(key) => key
    case Index(index) => DigitsOf(index)
  }

  function SlotKeys(path: seq<Slot>): seq<string> {
    seq(|path|, i requires 0 <= i < |path| => SlotKey(path[i]))
  }

  /** The pointer of a path: keys escaped, indices in decimal. */
  function PathPointer(path: seq<Slot>): string {
    PointerOf(SlotKeys(path))
  }

  lemma DigitIs(d: nat)
    requires d < 10
    ensures '0' <= DIGITS[d] <= '9' && DIGITS[d] as int - '0' as int == d
  {
  }

  /** Decimal notation is read back. */
  lemma {:induction false} DigitsAreRead(n: nat)
    ensures Digits(DigitsOf(n)) && Decimal(DigitsOf(n)) == n
  {
    if n < 10 {
      DigitIs(n);
      assert DigitsOf(n)[..0] == "";
      assert Decimal(DigitsOf(n)) == Decimal("") * 10 + n;
    } else {
      DigitsAreRead(n / 10);
      DigitIs(n % 10);
      var s := DigitsOf(n);
      assert s[..|s| - 1] == DigitsOf(n / 10);
    }
  }

  lemma SlotIsEntered(at: Json, slot: Slot)
    requires Child(at, slot).Some?
    ensures Enter(at, SlotKey(slot)) == Some(slot)
  {
    if slot.Index? { DigitsAreRead(slot.index); }
  }

  lemma {:induction false} PathIsResolved(root: Json, path: seq<Slot>)
    requires At(root, path).Some?
    ensures Resolve(root, SlotKeys(path)) == Some(path)
    decreases |path|
  {
    if path != [] {
      hide SlotKey, Enter;
      SlotIsEntered(root, path[0]);
      PathIsResolved(Child(root, path[0]).value, path[1..]);
      assert SlotKeys(path) == [SlotKey(path[0])] + SlotKeys(path[1..]);
      assert path == [path[0]] + path[1..];
      OneMoreKey(root, SlotKey(path[0]), path[0], SlotKeys(path[1..]), path[1..]);
    }
  }

  lemma OneMoreKey(root: Json, key: string, slot: Slot, keys: seq<string>, path: seq<Slot>)
    requires Enter(root, key) == Some(slot) && Child(root, slot).Some?
    requires Resolve(Child(root, slot).value, keys) == Some(path)
    ensures Resolve(root, [key] + keys) == Some([slot] + path)
  {
    assert ([key] + keys)[1..] == keys;
  }

  /** Round trip: the pointer of any slot at least two levels down names that slot. */
  lemma PathIsNamed(groups: Json, path: seq<Slot>)
    requires |path| >= 2 && At(groups, path).Some?
    ensures PointerSlot(groups, PathPointer(path)) == Some(path)
  {
    hide Split, Resolve, PointerOf;
    SplitPointerOf(SlotKeys(path));
    PathIsResolved(groups, path);
    assert (["", "groups"] + EscapedAll(SlotKeys(path)))[2..] == EscapedAll(SlotKeys(path));
  }

  /** After all writes, the slot at the path a reference points to holds the value fetched for the
      reference, unless a later write went to that slot, above it or below it. */
  lemma PathHoldsItsBlob(
      groups: Json, refs: seq<BlobRef>, fetched: nat -> Result<Json, Error>, k: nat, path: seq<Slot>)
    requires k < |refs| && Substitute(groups, refs, {}, fetched, 0).Ok?
    requires |path| >= 2 && refs[k].pointer == PathPointer(path)
    requires var tree := TreeBefore(groups, refs, fetched, 0, k); tree.Some? && At(tree.value, path).Some?
    ensures fetched(k).Ok?
    ensures ClearOf(Put(TreeBefore(groups, refs, fetched, 0, k).value, path, fetched(k).value),
                    refs, fetched, k + 1, path) ==>
              At(Substitute(groups, refs, {}, fetched, 0).value, path) == Some(fetched(k).value)
  {
    hide PathPointer, ClearOf, Substitute, PointerSlot;
    PathIsNamed(TreeBefore(groups, refs, fetched, 0, k).value, path);
    SubstitutedSlotHolds(groups, refs, {}, fetched, 0, k);
  }

  // --- which pointers are canonical

  /** Something a caller can check part by part: no stray tilde, no leading zero. */
  ghost predicate Plain(pointer: string) {
    forall i | 2 <= i < |Split(pointer)| ::
      WellEscaped(Split(pointer)[i]) && NoLeadingZero(Unescape(Split(pointer)[i]))
  }

  lemma {:induction false} PlainKeysAreCanonical(root: Json, keys: seq<string>)
    requires Resolve(root, keys).Some? && forall i | 0 <= i < |keys| :: NoLeadingZero(keys[i])
    ensures CanonicalKeys(root, keys) == keys
    decreases |keys|
  {
    if keys != [] {
      PlainKeysAreCanonical(Below(root, keys[0]), keys[1..]);
      assert keys == [keys[0]] + keys[1..];
    }
  }

  lemma PlainPartsReturn(pointer: string)
    requires Plain(pointer) && |Split(pointer)| >= 2
    ensures EscapedAll(KeysOf(Split(pointer)[2..])) == Split(pointer)[2..]
  {
    hide Unescape, Escape, WellEscaped;
    var parts := Split(pointer);
    var rest := parts[2..];
    SplitParts(pointer);
    forall i | 0 <= i < |rest| ensures EscapedAll(KeysOf(rest))[i] == rest[i] {
      assert rest[i] == parts[i + 2];
      EscapeUnescape(rest[i]);
    }
  }

  lemma PlainIsCanonical(groups: Json, pointer: string)
    requires PointerSlot(groups, pointer).Some? && Plain(pointer)
    ensures CanonicalPointer(groups, pointer) == pointer
  {
    hide Split, Slashed, Resolve, Unescape, Escape, WellEscaped;
    var rest := Split(pointer)[2..];
    PlainKeysAreCanonical(groups, KeysOf(rest));
    PlainPartsReturn(pointer);
    assert Split(pointer) == [""] + (["groups"] + rest);
    SlashedSplit(pointer);
    SlashedRooted(["groups"] + rest);
    assert pointer == ("/" + pointer)[1..] == ("/" + PointerOf(KeysOf(rest)))[1..] == PointerOf(KeysOf(rest));
  }

  /** Distinct plain pointers name distinct slots: for them the string comparison is enough. */
  lemma PlainPointersDiffer(groups: Json, p: string, q: string)
    requires PointerSlot(groups, p).Some? && PointerSlot(groups, q).Some?
    requires Plain(p) && Plain(q) && p != q
    ensures PointerSlot(groups, p) != PointerSlot(groups, q)
  {
    PlainIsCanonical(groups, p);
    PlainIsCanonical(groups, q);
    SameSlotExactly(groups, p, q);
  }

  // --- pointers that are not plain

  // A runtime group one field of which is an array or an object.
  function Runtime(field: string, at: Json): Json {
    Obj(map["runtime" := Obj(map[field := at])])
  }

  // The pointer /groups/runtime/field/part.
  function RuntimePointer(field: string, part: string): string {
    Slashed(["groups", "runtime", field, part])
  }

  lemma {:induction false} NoTilde(s: string, b: char, c: char)
    requires !Contains(s, '~')
    ensures ReplaceAll(s, '~', b, c) == s
  {
    if |s| >= 2 {
      assert s[0] != '~';
      assert forall i | 0 <= i < |s| - 1 :: s[1..][i] == s[i + 1];
      NoTilde(s[1..], b, c);
      assert s == [s[0]] + s[1..];
    }
  }

  lemma PlainText(s: string)
    requires !Contains(s, '~')
    ensures Unescape(s) == s
  {
    NoTilde(s, '1', '/');
    NoTilde(s, '0', '~');
  }

  lemma RuntimeKeys(field: string, part: string)
    requires !Contains(field, '/') && !Contains(part, '/') && !Contains(field, '~')
    ensures Split(RuntimePointer(field, part)) == ["", "groups", "runtime", field, part]
    ensures KeysOf(Split(RuntimePointer(field, part))[2..]) == ["runtime", field, Unescape(part)]
  {
    var path := ["groups", "runtime", field, part];
    SplitSlashed(path);
    SplitRooted(path);
    assert [""] + path == ["", "groups", "runtime", field, part];
    PlainText("runtime");
    PlainText(field);
  }

  lemma ResolvedCons(root: Json, key: string, rest: seq<string>)
    requires root.Obj? && key in root.fields && Resolve(root.fields[key], rest).Some?
    ensures Resolve(root, [key] + rest) == Some([Key(key)] + Resolve(root.fields[key], rest).value)
  {
    assert ([key] + rest)[1..] == rest;
  }

  lemma ResolvedInRuntime(field: string, at: Json, key: string)
    requires Enter(at, key).Some? && Child(at, Enter(at, key).value).Some?
    ensures Resolve(Runtime(field, at), ["runtime", field, key])
            == Some([Key("runtime"), Key(field), Enter(at, key).value])
  {
    var slot := Enter(at, key).value;
    assert Resolve(at, [key]) == Some([slot]) by {
      assert [key][1..] == [];
      assert Resolve(Child(at, slot).value, []) == Some([]);
      assert [slot] + [] == [slot];
    }
    ResolvedCons(Obj(map[field := at]), field, [key]);
    assert [field] + [key] == [field, key];
    ResolvedCons(Runtime(field, at), "runtime", [field, key]);
    assert ["runtime"] + [field, key] == ["runtime", field, key];
    assert [Key("runtime")] + ([Key(field)] + [slot]) == [Key("runtime"), Key(field), slot];
  }

  lemma RuntimeSlot(field: string, at: Json, part: string, key: string)
    requires !Contains(field, '/') && !Contains(part, '/') && !Contains(field, '~') && key == Unescape(part)
    requires Enter(at, key).Some? && Child(at, Enter(at, key).value).Some?
    ensures PointerSlot(Runtime(field, at), RuntimePointer(field, part))
            == Some([Key("runtime"), Key(field), Enter(at, key).value])
  {
    hide Split, Resolve, KeysOf, Unescape, Enter, Child, RuntimePointer, Runtime;
    RuntimeKeys(field, part);
    ResolvedInRuntime(field, at, key);
    assert PointerSlot(Runtime(field, at), RuntimePointer(field, part))
           == Resolve(Runtime(field, at), KeysOf(Split(RuntimePointer(field, part))[2..]));
  }

  /** An index with a leading zero: /groups/runtime/limits/0 and /groups/runtime/limits/00. */
  lemma LeadingZerosNameOneSlot(value: Json)
    ensures var limits := Runtime("limits", Arr([value]));
            PointerSlot(limits, RuntimePointer("limits", "0")) == PointerSlot(limits, RuntimePointer("limits", "00"))
            == Some([Key("runtime"), Key("limits"), Index(0)])
  {
    hide RuntimePointer, PointerSlot, Runtime, Unescape;
    PlainText("0");
    PlainText("00");
    assert Decimal("0") == Decimal("") * 10 + 0;
    assert "00"[..1] == "0";
    assert PointerIndex("0", 1) == Some(0) && PointerIndex("00", 1) == Some(0);
    RuntimeSlot("limits", Arr([value]), "0", "0");
    RuntimeSlot("limits", Arr([value]), "00", "00");
  }

  /** A tilde that is not escaped: /groups/runtime/repeat/~ and /groups/runtime/repeat/~0. */
  lemma StrayTildesNameOneSlot(value: Json)
    ensures var repeat := Runtime("repeat", Obj(map["~" := value]));
            PointerSlot(repeat, RuntimePointer("repeat", "~")) == PointerSlot(repeat, RuntimePointer("repeat", "~0"))
            == Some([Key("runtime"), Key("repeat"), Key("~")])
  {
    hide RuntimePointer, PointerSlot, Runtime;
    assert Unescape("~") == "~" && Unescape("~0") == "~";
    RuntimeSlot("repeat", Obj(map["~" := value]), "~", "~");
    RuntimeSlot("repeat", Obj(map["~" := value]), "~0", "~");
  }
}
