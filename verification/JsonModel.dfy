/**
 * JSON texts of the cJSON library: what the printer writes and the parser reads, as functions.
 * A text is the bytes of a C string without its terminating zero; reading past its end reads 0.
 */
module JsonModel {
  import opened Common

  type Text = seq<Byte>

  /** A value. Numbers are kept exactly, as `m` times ten to the `e`; arrays and objects are linked lists of children. */
  datatype Json =
    | Null
    | False
    | True
    | Num(m: int, e: int)
    | Str(text: Text)
    | Arr(items: Items)
    | Obj(members: Members)

  datatype Items = NoItem | Item(first: Json, rest: Items)

  datatype Members = NoMember | Member(name: Text, value: Json, rest: Members)

  /** Bytes of a C string. */
  predicate Plain(s: Text) { forall i :: 0 <= i < |s| ==> s[i] != 0 }

  /** The trees the printer is for: 32-bit integers and strings without zero bytes. */
  predicate Printable(t: Json) {
    match t
    case Num(m, e) => e == 0 && -0x8000_0000 <= m < 0x8000_0000
    case Str(s) => Plain(s)
    case Arr(items) => PrintableItems(items)
    case Obj(members) => PrintableMembers(members)
    case _ => true
  }

  predicate PrintableItems(l: Items) { l.Item? ==> Printable(l.first) && PrintableItems(l.rest) }

  predicate PrintableMembers(l: Members) {
    l.Member? ==> Plain(l.name) && Printable(l.value) && PrintableMembers(l.rest)
  }

  // ---------------------------------------------------------------- characters

  const QUOTE: Byte := 34
  const BACKSLASH: Byte := 92
  const COMMA: Byte := 44
  const COLON: Byte := 58
  const OPEN_ARRAY: Byte := 91
  const CLOSE_ARRAY: Byte := 93
  const OPEN_OBJECT: Byte := 123
  const CLOSE_OBJECT: Byte := 125
  const NEWLINE: Byte := 10
  const TAB: Byte := 9
  const SPACE: Byte := 32
  const NULL_TEXT: Text := [110, 117, 108, 108]
  const FALSE_TEXT: Text := [102, 97, 108, 115, 101]
  const TRUE_TEXT: Text := [116, 114, 117, 101]

  predicate Digit(c: Byte) { 48 <= c <= 57 }

  function Peek(s: Text, k: nat): Byte { if k < |s| then s[k] else 0 }

  function Drop(s: Text, k: nat): Text { if k <= |s| then s[k..] else [] }

  // ---------------------------------------------------------------- printing

  /** The letter after the backslash for a byte with a short escape, or 0. */
  function Short(b: Byte): Byte {
    if b == 34 then 34 else if b == 92 then 92 else if b == 8 then 98 else if b == 12 then 102
    else if b == 10 then 110 else if b == 13 then 114 else if b == 9 then 116 else 0
  }

  function HexDigit(d: nat): Byte
    requires d < 16
  {
    if d < 10 then 48 + d else 87 + d
  }

  function Escape(b: Byte): Text {
    if Short(b) != 0 then [BACKSLASH, Short(b)]
    else if b < 32 then [BACKSLASH, 117, 48, 48, HexDigit(b / 16), HexDigit(b % 16)]
    else [b]
  }

  /** `s` escaped, and then `rest`. */
  function EscapeTo(s: Text, rest: Text): Text {
    if s == [] then rest else Escape(s[0]) + EscapeTo(s[1..], rest)
  }

  function QuoteTo(s: Text, rest: Text): Text { [QUOTE] + EscapeTo(s, [QUOTE] + rest) }

  function DecimalTo(v: nat, rest: Text): Text {
    if v < 10 then [48 + v] + rest else DecimalTo(v / 10, [48 + v % 10] + rest)
  }

  function IntegerTo(v: int, rest: Text): Text { if v < 0 then [45] + DecimalTo(-v, rest) else DecimalTo(v, rest) }

  function TabsTo(n: int, rest: Text): Text
    decreases n
  {
    if n <= 0 then rest else [TAB] + TabsTo(n - 1, rest)
  }

  /** What a formatted text has more than an unformatted one. */
  function Extra(fmt: bool, c: Byte, rest: Text): Text { if fmt then [c] + rest else rest }

  function Indent(fmt: bool, n: int, rest: Text): Text { if fmt then TabsTo(n, rest) else rest }

  /** `print_value` at a depth, formatted or not, followed by `rest`. */
  function PrintTo(t: Json, depth: nat, fmt: bool, rest: Text): Text
    decreases t
  {
    match t
    case Null => NULL_TEXT + rest
    case False => FALSE_TEXT + rest
    case True => TRUE_TEXT + rest
    case Num(m, _) => IntegerTo(m, rest)
    case Str(s) => QuoteTo(s, rest)
    case Arr(items) =>
      if items == NoItem then [OPEN_ARRAY, CLOSE_ARRAY] + rest
      else [OPEN_ARRAY] + ItemsTo(items, depth + 1, fmt, [CLOSE_ARRAY] + rest)
    case Obj(members) =>
      if members == NoMember then [OPEN_OBJECT] + Extra(fmt, NEWLINE, Indent(fmt, depth - 1, [CLOSE_OBJECT] + rest))
      else [OPEN_OBJECT] + Extra(fmt, NEWLINE, MembersTo(members, depth + 1, fmt, Indent(fmt, depth, [CLOSE_OBJECT] + rest)))
  }

  function ItemsTo(l: Items, depth: nat, fmt: bool, rest: Text): Text
    decreases l
  {
    match l
    case NoItem => rest
    case Item(t, more) =>
      PrintTo(t, depth, fmt, if more == NoItem then rest else [COMMA] + Extra(fmt, SPACE, ItemsTo(more, depth, fmt, rest)))
  }

  function MembersTo(l: Members, depth: nat, fmt: bool, rest: Text): Text
    decreases l
  {
    match l
    case NoMember => rest
    case Member(name, t, more) =>
      var after := Extra(fmt, NEWLINE, MembersTo(more, depth, fmt, rest));
      var value := PrintTo(t, depth, fmt, if more == NoMember then after else [COMMA] + after);
      Indent(fmt, depth, QuoteTo(name, [COLON] + Extra(fmt, TAB, value)))
  }

  function Print(t: Json, fmt: bool): Text { PrintTo(t, 0, fmt, []) }

  // ---------------------------------------------------------------- parsing

  /** `skip`: past blanks and control characters. */
  function Skip(s: Text): (r: Text)
    ensures |r| <= |s|
  {
    if s != [] && s[0] != 0 && s[0] <= 32 then Skip(s[1..]) else s
  }

  /** The value of a hexadecimal digit, or 16. */
  function HexValue(c: Byte): nat {
    if 48 <= c <= 57 then c - 48 else if 65 <= c <= 70 then c - 55 else if 97 <= c <= 102 then c - 87 else 16
  }

  /** `parse_hex4`: 0 if any of the four is no digit. */
  function Hex4(s: Text): nat {
    var (a, b, c, d) := (HexValue(Peek(s, 0)), HexValue(Peek(s, 1)), HexValue(Peek(s, 2)), HexValue(Peek(s, 3)));
    if a == 16 || b == 16 || c == 16 || d == 16 then 0 else ((a * 16 + b) * 16 + c) * 16 + d
  }

  function Utf8(u: nat): Text
    requires u < 0x11_0000
  {
    if u < 0x80 then [u]
    else if u < 0x800 then [0xC0 + u / 0x40, 0x80 + u % 0x40]
    else if u < 0x1_0000 then [0xE0 + u / 0x1000, 0x80 + u / 0x40 % 0x40, 0x80 + u % 0x40]
    else [0xF0 + u / 0x4_0000, 0x80 + u / 0x1000 % 0x40, 0x80 + u / 0x40 % 0x40, 0x80 + u % 0x40]
  }

  lemma Hex4Bound(s: Text)
    ensures Hex4(s) < 0x1_0000
  {
  }

  /** What follows `\\u`: the bytes it stands for, and the text behind it. */
  function Unicode(s: Text): (r: (Text, Text))
    ensures |r.1| <= |s|
  {
    Hex4Bound(s);
    var (u, t) := (Hex4(s), Drop(s, 4));
    if 0xDC00 <= u <= 0xDFFF || u == 0 then ([], t)
    else if 0xD800 <= u <= 0xDBFF then
      if Peek(t, 0) != BACKSLASH || Peek(t, 1) != 117 then ([], t)
      else
        var v := Hex4(Drop(t, 2));
        if v < 0xDC00 || v > 0xDFFF then ([], Drop(t, 6))
        else (Utf8(0x1_0000 + u % 0x400 * 0x400 + v % 0x400), Drop(t, 6))
    else (Utf8(u), t)
  }

  /** What follows a backslash. */
  function Unescape(s: Text): (r: (Text, Text))
    requires s != []
    ensures |r.1| < |s|
  {
    var c := s[0];
    if c == 98 then ([8], s[1..]) else if c == 102 then ([12], s[1..]) else if c == 110 then ([10], s[1..])
    else if c == 114 then ([13], s[1..]) else if c == 116 then ([9], s[1..])
    else if c == 117 then Unicode(s[1..])
    else ([c], s[1..])
  }

  /** The bytes up to the closing quote or the end of the text. A backslash at the end escapes the zero behind it. */
  function Characters(s: Text): (r: (Text, Text))
    ensures |r.1| <= |s|
    decreases |s|
  {
    if s == [] || s[0] == QUOTE || s[0] == 0 then ([], s)
    else if s[0] != BACKSLASH then
      var (out, rest) := Characters(s[1..]); ([s[0]] + out, rest)
    else if |s| == 1 then ([0], [])
    else
      var (b, t) := Unescape(s[1..]);
      var (out, rest) := Characters(t); (b + out, rest)
  }

  function ParseString(s: Text): (r: Option<(Text, Text)>)
    ensures r.Some? ==> |r.value.1| < |s|
  {
    if Peek(s, 0) != QUOTE then None
    else var (out, rest) := Characters(s[1..]); Some((out, if Peek(rest, 0) == QUOTE then rest[1..] else rest))
  }

  /** The decimal digits at the front, added to `n`; how many there were; and the text behind them. */
  function Digits(s: Text, n: nat, count: nat): (r: (nat, nat, Text))
    ensures |r.2| <= |s| && (Digit(Peek(s, 0)) ==> |r.2| < |s|)
  {
    if Digit(Peek(s, 0)) then Digits(s[1..], n * 10 + (s[0] - 48), count + 1) else (n, count, s)
  }

  function Signed(neg: bool, n: int): int { if neg then -n else n }

  /** The digits before the point: one zero is passed over, and then they begin with another digit. */
  function WholePart(s: Text): (r: (nat, Text))
    ensures |r.1| <= |s| && (Digit(Peek(s, 0)) ==> |r.1| < |s|)
  {
    var t := if Peek(s, 0) == 48 then s[1..] else s;
    if 49 <= Peek(t, 0) <= 57 then var (n, _, rest) := Digits(t, 0, 0); (n, rest) else (0, t)
  }

  /** The digits behind the point, added to `n`, and how many there are. */
  function FracPart(s: Text, n: nat): (r: (nat, nat, Text))
    ensures |r.2| <= |s|
  {
    if Peek(s, 0) == 46 && Digit(Peek(s, 1)) then Digits(s[1..], n, 0) else (n, 0, s)
  }

  function ExpPart(s: Text): (r: (int, Text))
    ensures |r.1| <= |s|
  {
    if Peek(s, 0) == 101 || Peek(s, 0) == 69 then Exponent(s[1..]) else (0, s)
  }

  /** `parse_number`: sign, integer, fraction and exponent, each if it is there. */
  function ParseNumber(s: Text): (r: (Json, Text))
    requires Peek(s, 0) == 45 || Digit(Peek(s, 0))
    ensures |r.1| < |s|
  {
    var (n, s3) := WholePart(if s[0] == 45 then s[1..] else s);
    var (m, k, s4) := FracPart(s3, n);
    var (e, s5) := ExpPart(s4);
    (Num(Signed(s[0] == 45, m), e - k), s5)
  }

  function Exponent(s: Text): (r: (int, Text))
    ensures |r.1| <= |s|
  {
    var t := if Peek(s, 0) == 43 || Peek(s, 0) == 45 then s[1..] else s;
    var (e, _, rest) := Digits(t, 0, 0);
    (Signed(Peek(s, 0) == 45, e), rest)
  }

  predicate StartsWith(s: Text, w: Text) { |w| <= |s| && s[..|w|] == w }

  /** `parse_value` */
  function ParseValue(s: Text): (r: Option<(Json, Text)>)
    ensures r.Some? ==> |r.value.1| < |s|
    decreases |s|, 0
  {
    if StartsWith(s, NULL_TEXT) then Some((Null, s[4..]))
    else if StartsWith(s, FALSE_TEXT) then Some((False, s[5..]))
    else if StartsWith(s, TRUE_TEXT) then Some((True, s[4..]))
    else if Peek(s, 0) == QUOTE then
      var r := ParseString(s); if r == None then None else Some((Str(r.value.0), r.value.1))
    else if Peek(s, 0) == 45 || Digit(Peek(s, 0)) then Some(ParseNumber(s))
    else if Peek(s, 0) == OPEN_ARRAY then ParseArray(s[1..])
    else if Peek(s, 0) == OPEN_OBJECT then ParseObject(s[1..])
    else None
  }

  /** `parse_array` behind the bracket */
  function ParseArray(s: Text): (r: Option<(Json, Text)>)
    ensures r.Some? ==> |r.value.1| < |s|
    decreases |s|, 2
  {
    var v := Skip(s);
    if Peek(v, 0) == CLOSE_ARRAY then Some((Arr(NoItem), v[1..]))
    else
      var r := ParseItems(v);
      if r == None || Peek(r.value.1, 0) != CLOSE_ARRAY then None else Some((Arr(r.value.0), r.value.1[1..]))
  }

  /** The values of an array, separated by commas; blanks behind the last are skipped. */
  function ParseItems(s: Text): (r: Option<(Items, Text)>)
    ensures r.Some? ==> |r.value.1| < |s|
    decreases |s|, 1
  {
    var v := ParseValue(Skip(s));
    if v == None then None
    else
      var next := Skip(v.value.1);
      if Peek(next, 0) != COMMA then Some((Item(v.value.0, NoItem), next))
      else
        var r := ParseItems(next[1..]);
        if r == None then None else Some((Item(v.value.0, r.value.0), r.value.1))
  }

  /** `parse_object` behind the brace */
  function ParseObject(s: Text): (r: Option<(Json, Text)>)
    ensures r.Some? ==> |r.value.1| < |s|
    decreases |s|, 2
  {
    var v := Skip(s);
    if Peek(v, 0) == CLOSE_OBJECT then Some((Obj(NoMember), v[1..]))
    else
      var r := ParseMembers(v);
      if r == None || Peek(r.value.1, 0) != CLOSE_OBJECT then None else Some((Obj(r.value.0), r.value.1[1..]))
  }

  function ParseMembers(s: Text): (r: Option<(Members, Text)>)
    ensures r.Some? ==> |r.value.1| < |s|
    decreases |s|, 1
  {
    var name := ParseString(Skip(s));
    if name == None || Peek(Skip(name.value.1), 0) != COLON then None
    else
      var v := ParseValue(Skip(Skip(name.value.1)[1..]));
      if v == None then None
      else
        var next := Skip(v.value.1);
        if Peek(next, 0) != COMMA then Some((Member(name.value.0, v.value.0, NoMember), next))
        else
          var r := ParseMembers(next[1..]);
          if r == None then None else Some((Member(name.value.0, v.value.0, r.value.0), r.value.1))
  }

  /** `cJSON_Parse`: the value at the front of a text, and what is left of it. */
  function Parse(s: Text): Option<(Json, Text)> { ParseValue(Skip(s)) }
}
