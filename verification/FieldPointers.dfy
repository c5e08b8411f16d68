/** Field pointers of detail operations: JSON Pointer escapes (section 4 of RFC 6901) done by two
    passes of strings.ReplaceAll, and the fields the accepted pointers name. */
module FieldPointers {
  import opened Wrappers
  import opened Text

  // strings.ReplaceAll of the two bytes a, b by the one byte c
  function ReplaceAll(s: string, a: char, b: char, c: char): string {
    if |s| < 2 then s
    else if s[0] == a && s[1] == b then [c] + ReplaceAll(s[2..], a, b, c)
    else [s[0]] + ReplaceAll(s[1..], a, b, c)
  }

  // The two passes of the client: first ~1 to a slash, then ~0 to a tilde.
  function Unescape(part: string): string {
    ReplaceAll(ReplaceAll(part, '~', '1', '/'), '~', '0', '~')
  }

  predicate WellEscaped(part: string) {
    if part == "" then true
    else if part[0] != '~' then WellEscaped(part[1..])
    else |part| >= 2 && (part[1] == '0' || part[1] == '1') && WellEscaped(part[2..])
  }

  // One pass from left to right, as the standard describes it; a tilde that starts no escape stands
  // for itself.
  function Decode(part: string): string {
    if part == "" then ""
    else if "~0" <= part then "~" + Decode(part[2..])
    else if "~1" <= part then "/" + Decode(part[2..])
    else [part[0]] + Decode(part[1..])
  }

  function Escape(name: string): string {
    if name == "" then ""
    else (if name[0] == '~' then "~0" else if name[0] == '/' then "~1" else [name[0]]) + Escape(name[1..])
  }

  /** The two passes are the one-pass decoder, on every part. */
  lemma {:induction false} TwoPassesAreOne(part: string)
    ensures Unescape(part) == Decode(part)
  {
    if part == "" {
    } else if "~1" <= part {
      TwoPassesAreOne(part[2..]);
      HeadPlain('/', ReplaceAll(part[2..], '~', '1', '/'));
    } else if "~0" <= part {
      TwoPassesAreOne(part[2..]);
      HeadKept(part);
      HeadKept(part[1..]);
      assert part[1..][1..] == part[2..];
      var rest := ReplaceAll(part[2..], '~', '1', '/');
      var once := ['~'] + (['0'] + rest);
      assert ReplaceAll(part, '~', '1', '/') == once;
      assert once[2..] == rest;
    } else {
      TwoPassesAreOne(part[1..]);
      HeadKept(part);
      if part[0] != '~' {
        HeadPlain(part[0], ReplaceAll(part[1..], '~', '1', '/'));
      } else {
        StrayTilde(part);
      }
    }
  }

  // A tilde that starts no escape before the first pass starts none after it.
  lemma StrayTilde(part: string)
    requires part != "" && part[0] == '~' && !("~0" <= part) && !("~1" <= part)
    ensures var rest := ReplaceAll(part[1..], '~', '1', '/');
            ReplaceAll(['~'] + rest, '~', '0', '~') == ['~'] + ReplaceAll(rest, '~', '0', '~')
  {
    var rest := ReplaceAll(part[1..], '~', '1', '/');
    assert (['~'] + rest)[1..] == rest;
    if |part| > 1 {
      assert part[1] != '0' && part[1] != '1';
    }
    assert rest != "" ==> rest[0] != '0';
  }

  lemma HeadKept(s: string)
    requires s != "" && !("~1" <= s)
    ensures ReplaceAll(s, '~', '1', '/') == [s[0]] + ReplaceAll(s[1..], '~', '1', '/')
  {
    if |s| < 2 { assert s == [s[0]] + s[1..]; }
  }

  lemma HeadPlain(c: char, rest: string)
    requires c != '~'
    ensures ReplaceAll([c] + rest, '~', '0', '~') == [c] + ReplaceAll(rest, '~', '0', '~')
  {
    assert ([c] + rest)[1..] == rest;
  }

  /** An escaped name is well escaped, holds no slash, and decodes to the name. */
  lemma {:induction false} EscapeRoundTrip(name: string)
    ensures WellEscaped(Escape(name)) && !Contains(Escape(name), '/')
    ensures Decode(Escape(name)) == name
    ensures name != "" ==> Escape(name) != ""
  {
    if name != "" {
      EscapeRoundTrip(name[1..]);
      var rest := Escape(name[1..]);
      assert name == [name[0]] + name[1..];
      if name[0] == '~' || name[0] == '/' {
        assert Escape(name)[2..] == rest;
      } else {
        assert Escape(name)[1..] == rest;
      }
    }
  }

  /** And every well-escaped part without a slash is the escape of exactly one name. */
  lemma {:induction false} DecodeRoundTrip(part: string)
    requires WellEscaped(part) && !Contains(part, '/')
    ensures Escape(Decode(part)) == part
    ensures part != "" ==> Decode(part) != ""
  {
    if part != "" {
      var taken := if part[0] != '~' then 1 else 2;
      assert part[0] != '/';
      assert !Contains(part[taken..], '/') by {
        assert forall i | 0 <= i < |part| - taken :: part[taken..][i] == part[i + taken];
      }
      DecodeRoundTrip(part[taken..]);
      assert part == part[..taken] + part[taken..];
      assert Decode(part)[1..] == Decode(part[taken..]);
    }
  }

  // --- the pointers

  const GROUP_FIELDS: map<string, set<string>> := map[
    "definition" := {"trigger", "complete_trigger", "script_path", "times", "repeat", "events", "meters", "limits",
                     "in_limits"},
    "parameters" := {"user", "ancestors"},
    "runtime" := {"begun", "calendar_flow_time", "attempt_id", "try_no", "task_id", "submitted_at", "started_at",
                  "ended_at", "aborted_reason", "events", "meters", "repeat", "limits"},
    "artifacts" := {"job_ref", "jobout_ref", "orvix_info_path"},
    "service" := {"status", "status_reason", "halt_causes", "message", "last_checkpoint_at", "restore_summary",
                  "generated_defaults"}]

  // name is "" for a pointer to a whole field.
  datatype Field = Field(group: string, field: string, name: string)

  predicate KnownField(group: string, field: string) {
    group in GROUP_FIELDS && field in GROUP_FIELDS[group]
  }

  // queryFieldPointer
  function FieldPointer(pointer: string): Option<Field> {
    FieldOfParts(Split(pointer))
  }

  function FieldOfParts(parts: seq<string>): Option<Field> {
    if |parts| != 4 && |parts| != 5 then None
    else if parts[0] != "" || parts[1] != "groups" || !KnownField(parts[2], Unescape(parts[3])) then None
    else if parts[3] == "" || !WellEscaped(parts[3]) then None
    else if |parts| == 5 && (parts[4] == "" || !WellEscaped(parts[4])) then None
    else
      var field := Unescape(parts[3]);
      if |parts| == 4 then Some(Field(parts[2], field, ""))
      else if parts[2] != "parameters" || field != "user" then None
      else Some(Field(parts[2], field, Unescape(parts[4])))
  }

  // The loop that asks whether every tilde is followed by 0 or 1.
  method CheckEscapes(part: string) returns (ok: bool)
    ensures ok == WellEscaped(part)
  {
    var i := 0;
    while i < |part|
      invariant i <= |part|
      invariant WellEscaped(part) == WellEscaped(part[i..])
    {
      ghost var rest := part[i..];
      assert rest[0] == part[i] && rest[1..] == part[i + 1..];
      if part[i] == '~' && (i + 1 == |part| || (part[i + 1] != '0' && part[i + 1] != '1')) { return false; }
      if part[i] == '~' {
        assert rest[2..] == part[i + 2..];
        i := i + 1;
      }
      i := i + 1;
    }
    return true;
  }

  method QueryFieldPointer(pointer: string) returns (found: Option<Field>)
    ensures found == FieldPointer(pointer)
  {
    var parts := Split(pointer);
    if (|parts| != 4 && |parts| != 5) || parts[0] != "" || parts[1] != "groups"
       || !KnownField(parts[2], Unescape(parts[3])) {
      return None;
    }
    for k := 3 to |parts|
      invariant forall j | 3 <= j < k :: parts[j] != "" && WellEscaped(parts[j])
    {
      if parts[k] == "" { return None; }
      var ok := CheckEscapes(parts[k]);
      if !ok { return None; }
    }
    var field := Unescape(parts[3]);
    if |parts| == 5 {
      if parts[2] != "parameters" || field != "user" { return None; }
      return Some(Field(parts[2], field, Unescape(parts[4])));
    }
    return Some(Field(parts[2], field, ""));
  }

  // --- which field each accepted pointer names

  predicate Nameable(f: Field) {
    KnownField(f.group, f.field) && (f.name != "" ==> f.group == "parameters" && f.field == "user")
  }

  function PathTo(f: Field): seq<string> {
    ["groups", f.group, Escape(f.field)] + if f.name == "" then [] else [Escape(f.name)]
  }

  function PointerTo(f: Field): string {
    Slashed(PathTo(f))
  }

  lemma GroupsHoldNoSlash(group: string)
    requires group in GROUP_FIELDS
    ensures !Contains(group, '/')
  {
  }

  lemma KnownFieldText(group: string, field: string)
    requires KnownField(group, field)
    ensures field != "" && !Contains(group, '/')
  {
    GroupsHoldNoSlash(group);
  }

  lemma UnescapeEscape(name: string)
    ensures Unescape(Escape(name)) == name && WellEscaped(Escape(name)) && !Contains(Escape(name), '/')
    ensures name != "" ==> Escape(name) != ""
  {
    EscapeRoundTrip(name);
    TwoPassesAreOne(Escape(name));
  }

  lemma EscapeUnescape(part: string)
    requires WellEscaped(part) && !Contains(part, '/')
    ensures Escape(Unescape(part)) == part
    ensures part != "" ==> Unescape(part) != ""
  {
    TwoPassesAreOne(part);
    DecodeRoundTrip(part);
  }

  lemma PathNamesItsField(f: Field)
    requires Nameable(f)
    ensures FieldOfParts([""] + PathTo(f)) == Some(f)
    ensures forall part | part in PathTo(f) :: !Contains(part, '/')
  {
    hide KnownField, Unescape, Escape, WellEscaped;
    KnownFieldText(f.group, f.field);
    UnescapeEscape(f.field);
    UnescapeEscape(f.name);
    var parts := [""] + PathTo(f);
    assert parts[0] == "" && parts[1] == "groups" && parts[2] == f.group && parts[3] == Escape(f.field);
    assert f.name != "" ==> |parts| == 5 && parts[4] == Escape(f.name);
  }

  lemma AcceptedPathIsCanonical(parts: seq<string>, f: Field)
    requires FieldOfParts(parts) == Some(f)
    requires forall part | part in parts :: !Contains(part, '/')
    ensures Nameable(f) && parts == [""] + PathTo(f)
  {
    hide KnownField;
    assert parts[3] in parts;
    EscapeUnescape(parts[3]);
    if |parts| == 5 {
      assert parts[4] in parts;
      EscapeUnescape(parts[4]);
    }
  }

  lemma SlashedRooted(path: seq<string>)
    ensures Slashed([""] + path) == "/" + Slashed(path)
  {
    assert ([""] + path)[1..] == path;
  }

  lemma SplitRooted(path: seq<string>)
    requires path != [] && Split(Slashed(path)[1..]) == path
    ensures Split(Slashed(path)) == [""] + path
  {
  }

  /** Accepted pointers and fields correspond one to one: a pointer names a field exactly when the
      field exists (with a name only for a user parameter) and the pointer is its escaped path.
      In particular every non-empty parameter name, escaped, comes back unchanged. */
  lemma PointersAreFields(pointer: string, f: Field)
    ensures FieldPointer(pointer) == Some(f) <==> Nameable(f) && pointer == PointerTo(f)
  {
    hide KnownField, FieldOfParts;
    if FieldPointer(pointer) == Some(f) {
      SplitParts(pointer);
      AcceptedPathIsCanonical(Split(pointer), f);
      SlashedSplit(pointer);
      SlashedRooted(PathTo(f));
      assert pointer == ("/" + pointer)[1..] == ("/" + PointerTo(f))[1..] == PointerTo(f);
    }
    if Nameable(f) {
      PathNamesItsField(f);
      SplitSlashed(PathTo(f));
      SplitRooted(PathTo(f));
      assert FieldPointer(PointerTo(f)) == Some(f);
    }
  }
}
