/** The hand-written scanner that guards every JSON document, and the grammar it decides: string
    literals of RFC 8259 section 7, as far as quotes, escapes and surrogates go. Each `char` of a
    raw document stands for one byte. */
module Wire {

  function HexValue(c: char): int {
    if '0' <= c <= '9' then c as int - '0' as int
    else if 'a' <= c <= 'f' then c as int - 'a' as int + 10
    else if 'A' <= c <= 'F' then c as int - 'A' as int + 10
    else -1
  }

  predicate FourHex(s: string) {
    |s| == 4 && forall i | 0 <= i < 4 :: HexValue(s[i]) >= 0
  }

  // strconv.ParseUint in base 16 on four bytes
  function CodeUnit(s: string): int
    requires FourHex(s)
  {
    ((HexValue(s[0]) * 16 + HexValue(s[1])) * 16 + HexValue(s[2])) * 16 + HexValue(s[3])
  }

  // --- what four hex digits stand for

  const HEX_LOWER := "0123456789abcdef"
  const HEX_UPPER := "0123456789ABCDEF"

  function HexDigit(d: nat, upper: bool): char
    requires d < 16
  {
    if upper then HEX_UPPER[d] else HEX_LOWER[d]
  }

  // A number in four digits, each in the case asked for.
  function HexText(n: nat, upper: seq<bool>): string
    requires n < 0x10000 && |upper| == 4
  {
    HexOf(n / 16 / 16 / 16, n / 16 / 16 % 16, n / 16 % 16, n % 16, upper)
  }

  function HexOf(a: nat, b: nat, c: nat, d: nat, upper: seq<bool>): string
    requires a < 16 && b < 16 && c < 16 && d < 16 && |upper| == 4
  {
    [HexDigit(a, upper[0]), HexDigit(b, upper[1]), HexDigit(c, upper[2]), HexDigit(d, upper[3])]
  }

  lemma HexOfIsRead(a: nat, b: nat, c: nat, d: nat, upper: seq<bool>)
    requires a < 16 && b < 16 && c < 16 && d < 16 && |upper| == 4
    ensures FourHex(HexOf(a, b, c, d, upper))
    ensures CodeUnit(HexOf(a, b, c, d, upper)) == ((a * 16 + b) * 16 + c) * 16 + d
  {
    hide HexValue, HexDigit;
    HexDigitIsRead(a, upper[0]);
    HexDigitIsRead(b, upper[1]);
    HexDigitIsRead(c, upper[2]);
    HexDigitIsRead(d, upper[3]);
  }

  lemma HexDigitIsRead(d: nat, upper: bool)
    requires d < 16
    ensures HexValue(HexDigit(d, upper)) == d
  {
  }

  /** The digits of either case are all the hex digits there are. */
  lemma HexDigitsAre(c: char) returns (upper: bool)
    requires HexValue(c) >= 0
    ensures HexValue(c) < 16 && c == HexDigit(HexValue(c), upper)
  {
    upper := 'A' <= c <= 'F';
  }

  /** Every number below 0x10000, in four hex digits of either case, is read back. */
  lemma HexIsRead(n: nat, upper: seq<bool>)
    requires n < 0x10000 && |upper| == 4
    ensures FourHex(HexText(n, upper)) && CodeUnit(HexText(n, upper)) == n
  {
    hide HexOf, CodeUnit, FourHex;
    HexOfIsRead(n / 16 / 16 / 16, n / 16 / 16 % 16, n / 16 % 16, n % 16, upper);
  }

  predicate High(n: int) { 0xd800 <= n <= 0xdbff }
  predicate Low(n: int) { 0xdc00 <= n <= 0xdfff }

  // --- the grammar

  datatype Item = Plain(c: char) | Escape(c: char) | Unit(hex: string) | Pair(high: string, low: string)

  datatype Piece = Outside(c: char) | Quoted(items: seq<Item>)

  predicate ValidItem(item: Item) {
    match item
    case Plain(c) => c != '"' && c != '\\'
    case Escape(c) => c != 'u'
    case Unit(hex) => FourHex(hex) && !(0xd800 <= CodeUnit(hex) < 0xe000)
    case Pair(high, low) =>
      && FourHex(high) && FourHex(low)
      && 0xd800 <= CodeUnit(high) < 0xdc00 && 0xdc00 <= CodeUnit(low) < 0xe000
  }

  predicate ValidPiece(piece: Piece) {
    match piece
    case Outside(c) => c != '"'
    case Quoted(items) => forall i | 0 <= i < |items| :: ValidItem(items[i])
  }

  function ItemText(item: Item): string {
    match item
    case Plain(c) => [c]
    case Escape(c) => ['\\', c]
    case Unit(hex) => ['\\', 'u'] + hex
    case Pair(high, low) => ['\\', 'u'] + high + ['\\', 'u'] + low
  }

  function ItemsText(items: seq<Item>): string {
    if items == [] then "" else ItemText(items[0]) + ItemsText(items[1..])
  }

  function PieceText(piece: Piece): string {
    match piece
    case Outside(c) => [c]
    case Quoted(items) => ['"'] + ItemsText(items) + ['"']
  }

  function Text(pieces: seq<Piece>): string {
    if pieces == [] then "" else PieceText(pieces[0]) + Text(pieces[1..])
  }

  ghost predicate ValidItems(items: seq<Item>) {
    forall i | 0 <= i < |items| :: ValidItem(items[i])
  }

  ghost predicate ValidPieces(pieces: seq<Piece>) {
    forall i | 0 <= i < |pieces| :: ValidPiece(pieces[i])
  }

  /** Quotes close, and every \u escape inside a string is four hex digits that are no surrogate,
      or a high surrogate directly followed by an escaped low one. */
  ghost predicate WellFormed(raw: string) {
    exists pieces :: ValidPieces(pieces) && Text(pieces) == raw
  }

  // --- the scanner, on what is left of the document

  // How many bytes the escape at the start of s takes; 0 if it is not acceptable.
  function EscapeLength(s: string): nat
    requires s != "" && s[0] == '\\'
  {
    if |s| < 2 then 0
    else if s[1] != 'u' then 2
    else if |s| < 6 || !FourHex(s[2..6]) || Low(CodeUnit(s[2..6])) then 0
    else if !High(CodeUnit(s[2..6])) then 6
    else if |s| < 12 || s[6] != '\\' || s[7] != 'u' || !FourHex(s[8..12]) || !Low(CodeUnit(s[8..12])) then 0
    else 12
  }

  predicate Scans(s: string, inString: bool)
    decreases |s|
  {
    if s == "" then !inString
    else if s[0] == '"' then Scans(s[1..], !inString)
    else if !inString || s[0] != '\\' then Scans(s[1..], inString)
    else
      var length := EscapeLength(s);
      length > 0 && Scans(s[length..], inString)
  }

  // validWireStrings, with utf8.Valid left to the library.
  method ValidWireStrings(raw: string, utf8Valid: string -> bool) returns (valid: bool)
    ensures valid <==> utf8Valid(raw) && WellFormed(raw)
  {
    ScannerDecidesTheGrammar(raw);
    if !utf8Valid(raw) { return false; }
    var inString := false;
    var i := 0;
    while i < |raw|
      invariant i <= |raw|
      invariant Scans(raw, false) == Scans(raw[i..], inString)
    {
      var rest := raw[i..];
      assert rest[0] == raw[i] && rest[1..] == raw[i + 1..];
      if raw[i] == '"' {
        inString := !inString;
        i := i + 1;
        continue;
      }
      if !inString || raw[i] != '\\' {
        i := i + 1;
        continue;
      }
      i := i + 1;
      if i >= |raw| { return false; }
      if raw[i] != 'u' {
        assert rest[2..] == raw[i + 1..];
        i := i + 1;
        continue;
      }
      if i + 4 >= |raw| { return false; }
      assert raw[i + 1..i + 5] == rest[2..6];
      if !FourHex(raw[i + 1..i + 5]) { return false; }
      var n := CodeUnit(raw[i + 1..i + 5]);
      i := i + 4;
      if Low(n) { return false; }
      if High(n) {
        if i + 6 >= |raw| || raw[i + 1] != '\\' || raw[i + 2] != 'u' { return false; }
        assert raw[i + 3..i + 7] == rest[8..12];
        if !FourHex(raw[i + 3..i + 7]) || !Low(CodeUnit(raw[i + 3..i + 7])) { return false; }
        i := i + 6;
        assert rest[12..] == raw[i + 1..];
      } else {
        assert rest[6..] == raw[i + 1..];
      }
      i := i + 1;
    }
    return !inString;
  }

  // --- the scanner decides the grammar

  lemma FirstEscape(s: string) returns (item: Item)
    requires s != "" && s[0] == '\\' && EscapeLength(s) > 0
    ensures ValidItem(item) && ItemText(item) == s[..EscapeLength(s)]
  {
    if s[1] != 'u' {
      item := Escape(s[1]);
    } else if !High(CodeUnit(s[2..6])) {
      item := Unit(s[2..6]);
    } else {
      item := Pair(s[2..6], s[8..12]);
      assert s[..12] == ['\\', 'u'] + s[2..6] + ['\\', 'u'] + s[8..12];
    }
  }

  lemma FirstItem(s: string) returns (item: Item, length: nat)
    requires Scans(s, true) && s[0] != '"'
    ensures 0 < length <= |s| && Scans(s[length..], true)
    ensures ValidItem(item) && ItemText(item) == s[..length]
  {
    if s[0] == '\\' {
      length := EscapeLength(s);
      item := FirstEscape(s);
    } else {
      item, length := Plain(s[0]), 1;
    }
  }

  lemma ItemsTextCons(item: Item, items: seq<Item>, tail: string)
    ensures ItemsText([item] + items) + tail == ItemText(item) + (ItemsText(items) + tail)
  {
    assert ([item] + items)[1..] == items;
  }

  lemma {:induction false} ScannedInside(s: string) returns (items: seq<Item>, pieces: seq<Piece>)
    requires Scans(s, true)
    ensures ValidItems(items) && ValidPieces(pieces)
    ensures s == ItemsText(items) + (['"'] + Text(pieces))
    decreases |s|
  {
    hide EscapeLength, ItemText, ValidItem;
    if s[0] == '"' {
      items := [];
      pieces := ScannedOutside(s[1..]);
      assert s == [s[0]] + s[1..];
    } else {
      var item, length := FirstItem(s);
      var rest;
      rest, pieces := ScannedInside(s[length..]);
      items := [item] + rest;
      ItemsTextCons(item, rest, ['"'] + Text(pieces));
      assert s == s[..length] + s[length..];
    }
  }

  lemma {:induction false} ScannedOutside(s: string) returns (pieces: seq<Piece>)
    requires Scans(s, false)
    ensures ValidPieces(pieces) && Text(pieces) == s
    decreases |s|
  {
    if s == "" {
      pieces := [];
    } else if s[0] == '"' {
      var items, rest := ScannedInside(s[1..]);
      pieces := [Quoted(items)] + rest;
      assert pieces[1..] == rest;
      assert PieceText(Quoted(items)) + Text(rest) == ['"'] + s[1..];
      assert s == [s[0]] + s[1..];
    } else {
      var rest := ScannedOutside(s[1..]);
      pieces := [Outside(s[0])] + rest;
      assert pieces[1..] == rest;
      assert s == [s[0]] + s[1..];
    }
  }

  lemma ItemScans(item: Item, rest: string)
    requires ValidItem(item)
    ensures Scans(ItemText(item) + rest, true) == Scans(rest, true)
  {
    var s := ItemText(item) + rest;
    assert s[|ItemText(item)|..] == rest;
    match item
    case Plain(c) =>
    case Escape(c) =>
    case Unit(hex) => assert s[2..6] == hex;
    case Pair(high, low) => assert s[2..6] == high && s[8..12] == low;
  }

  lemma {:induction false} ItemsScan(items: seq<Item>, rest: string)
    requires ValidItems(items)
    ensures Scans(ItemsText(items) + ['"'] + rest, true) == Scans(rest, false)
  {
    if items == [] {
      assert (['"'] + rest)[1..] == rest;
      assert ItemsText(items) + ['"'] + rest == ['"'] + rest;
    } else {
      ItemsScan(items[1..], rest);
      ItemScans(items[0], ItemsText(items[1..]) + ['"'] + rest);
      assert ItemsText(items) + ['"'] + rest == ItemText(items[0]) + (ItemsText(items[1..]) + ['"'] + rest);
    }
  }

  lemma PieceScans(piece: Piece, rest: string)
    requires ValidPiece(piece)
    ensures Scans(PieceText(piece) + rest, false) == Scans(rest, false)
  {
    var s := PieceText(piece) + rest;
    match piece
    case Outside(c) =>
      assert s[1..] == rest;
    case Quoted(items) =>
      assert s[1..] == ItemsText(items) + ['"'] + rest;
      ItemsScan(items, rest);
  }

  lemma {:induction false} PiecesScan(pieces: seq<Piece>)
    requires ValidPieces(pieces)
    ensures Scans(Text(pieces), false)
  {
    if pieces != [] {
      PiecesScan(pieces[1..]);
      PieceScans(pieces[0], Text(pieces[1..]));
    }
  }

  /** What the scanner accepts is exactly what the grammar produces. */
  lemma ScannerDecidesTheGrammar(raw: string)
    ensures Scans(raw, false) <==> WellFormed(raw)
  {
    if Scans(raw, false) { var pieces := ScannedOutside(raw); }
    if WellFormed(raw) {
      var pieces :| ValidPieces(pieces) && Text(pieces) == raw;
      PiecesScan(pieces);
    }
  }
}
