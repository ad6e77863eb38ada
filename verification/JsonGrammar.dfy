/**
 * The grammar of JSON, apart from the parser: texts with any blanks, escapes, fractions and exponents, and what each
 * means. The parser gives every text of the strict grammar its meaning. The grammar as such is wider, for the texts that
 * the parser accepts in addition.
 */
module JsonGrammar {
  import opened Common
  import opened JsonModel

  // ---------------------------------------------------------------- UTF-8

  predicate Continues(b: Byte) { 0x80 <= b < 0xC0 }

  /** Six more bits. */
  function Join(high: nat, b: Byte): nat
    requires Continues(b)
  {
    high * 0x40 + (b - 0x80)
  }

  /** The bits of the first byte, behind the mark that says how many follow. */
  function Lead(b: Byte, mark: nat): nat
    requires mark <= b
  {
    b - mark
  }

  /** The code point that a text of UTF-8 encodes in its shortest form (RFC 3629, section 3). */
  function CodePointOf(s: Text): Option<nat> {
    if |s| == 1 && s[0] < 0x80 then Some(s[0])
    else if |s| == 2 && 0xC0 <= s[0] < 0xE0 && Continues(s[1]) then
      var u := Join(Lead(s[0], 0xC0), s[1]); if u < 0x80 then None else Some(u)
    else if |s| == 3 && 0xE0 <= s[0] < 0xF0 && Continues(s[1]) && Continues(s[2]) then
      var u := Join(Join(Lead(s[0], 0xE0), s[1]), s[2]); if u < 0x800 then None else Some(u)
    else if |s| == 4 && 0xF0 <= s[0] < 0xF8 && Continues(s[1]) && Continues(s[2]) && Continues(s[3]) then
      var u := Join(Join(Join(Lead(s[0], 0xF0), s[1]), s[2]), s[3]); if u < 0x1_0000 || 0x11_0000 <= u then None else Some(u)
    else None
  }

  lemma JoinParts(u: nat)
    ensures u == Join(u / 0x40, 0x80 + u % 0x40)
    ensures u / 0x1000 == u / 0x40 / 0x40 && u / 0x4_0000 == u / 0x1000 / 0x40
  {
  }

  lemma PartsJoin(high: nat, b: Byte)
    requires Continues(b)
    ensures Join(high, b) / 0x40 == high && 0x80 + Join(high, b) % 0x40 == b
  {
  }

  lemma Utf8Back(u: nat)
    requires u < 0x11_0000
    ensures CodePointOf(Utf8(u)) == Some(u)
  {
    JoinParts(u);
    JoinParts(u / 0x40);
    JoinParts(u / 0x1000);
  }

  lemma Utf8Only(u: nat, s: Text)
    requires u < 0x11_0000 && CodePointOf(s) == Some(u)
    ensures s == Utf8(u)
  {
    JoinParts(u);
    if |s| == 2 { PartsJoin(Lead(s[0], 0xC0), s[1]); }
    if |s| == 3 {
      PartsJoin(Lead(s[0], 0xE0), s[1]);
      PartsJoin(Join(Lead(s[0], 0xE0), s[1]), s[2]);
    }
    if |s| == 4 {
      PartsJoin(Lead(s[0], 0xF0), s[1]);
      PartsJoin(Join(Lead(s[0], 0xF0), s[1]), s[2]);
      PartsJoin(Join(Join(Lead(s[0], 0xF0), s[1]), s[2]), s[3]);
    }
  }

  /** A code point comes back from its UTF-8, and is encoded by no other text. */
  lemma Utf8Exact(u: nat, s: Text)
    requires u < 0x11_0000
    ensures CodePointOf(s) == Some(u) <==> s == Utf8(u)
  {
    Utf8Back(u);
    if CodePointOf(s) == Some(u) { Utf8Only(u, s); }
  }

  // ---------------------------------------------------------------- strings

  /** A hexadecimal digit, in capitals or not. */
  function HexChar(d: nat, caps: bool): Byte
    requires d < 16
  {
    if d < 10 then 48 + d else (if caps then 65 else 97) + (d - 10)
  }

  type Caps = c: seq<bool> | |c| == 4 witness [false, false, false, false]

  /** The four digits of `u`. */
  function HexTo(u: nat, caps: Caps, rest: Text): Text
    requires u < 0x1_0000
  {
    [HexChar(u / 0x1000, caps[0]), HexChar(u / 0x100 % 16, caps[1]), HexChar(u / 16 % 16, caps[2]), HexChar(u % 16, caps[3])] + rest
  }

  /**
   * A character of a string: itself, a letter behind a backslash, or a code point in digits, as a pair if it needs one.
   * Not strictly: something behind `\\u` that stands for nothing, and a backslash at the end of the text.
   */
  datatype Char = Raw(b: Byte) | Letter(c: Byte) | Code(u: nat, high: Caps, low: Caps) | Void(x: Text) | Stub

  predicate Surrogate(u: nat) { 0xD800 <= u < 0xE000 }

  predicate CharOk(c: Char) {
    match c
    case Raw(b) => b != 0 && b != QUOTE && b != BACKSLASH
    case Letter(l) => l != 117
    case Code(u, _, _) => 0 < u < 0x11_0000 && !Surrogate(u)
    case Void(x) => |x| >= 2 && x[0] == BACKSLASH && x[1] == 117
    case Stub => true
  }

  predicate CharStrict(c: Char) { CharOk(c) && !c.Void? && !c.Stub? && (c.Letter? ==> c.c != 0) }

  /** The letters with a meaning of their own (RFC 8259, section 7); the others stand for themselves. */
  const LETTERS: map<Byte, Byte> := map[98 := 8, 116 := 9, 110 := 10, 102 := 12, 114 := 13]

  function CharBytes(c: Char): Text
    requires CharOk(c)
  {
    match c
    case Raw(b) => [b]
    case Letter(l) => [if l in LETTERS then LETTERS[l] else l]
    case Code(u, _, _) => Utf8(u)
    case Void(_) => []
    case Stub => [0]
  }

  function CharTo(c: Char, rest: Text): Text
    requires CharOk(c)
  {
    match c
    case Raw(b) => [b] + rest
    case Letter(l) => [BACKSLASH, l] + rest
    case Code(u, high, low) =>
      if u < 0x1_0000 then [BACKSLASH, 117] + HexTo(u, high, rest)
      else
        var v := u - 0x1_0000;
        [BACKSLASH, 117] + HexTo(0xD800 + v / 0x400, high, [BACKSLASH, 117] + HexTo(0xDC00 + v % 0x400, low, rest))
    case Void(x) => x + rest
    case Stub => [BACKSLASH] + rest
  }

  predicate CharsOk(cs: seq<Char>) { forall i :: 0 <= i < |cs| ==> CharOk(cs[i]) }

  predicate CharsStrict(cs: seq<Char>) { forall i :: 0 <= i < |cs| ==> CharStrict(cs[i]) }

  function CharsBytes(cs: seq<Char>): Text
    requires CharsOk(cs)
  {
    if cs == [] then [] else CharBytes(cs[0]) + CharsBytes(cs[1..])
  }

  function CharsTo(cs: seq<Char>, rest: Text): Text
    requires CharsOk(cs)
  {
    if cs == [] then rest else CharTo(cs[0], CharsTo(cs[1..], rest))
  }

  function StringTo(cs: seq<Char>, rest: Text): Text
    requires CharsOk(cs)
  {
    [QUOTE] + CharsTo(cs, [QUOTE] + rest)
  }

  lemma HexBack(u: nat, caps: Caps, rest: Text)
    requires u < 0x1_0000
    ensures Hex4(HexTo(u, caps, rest)) == u && Drop(HexTo(u, caps, rest), 4) == rest
  {
    var (a, b) := (u / 16, u / 0x100);
    assert u == a * 16 + u % 16 && a == b * 16 + a % 16 && b == u / 0x1000 * 16 + b % 16;
    assert forall d, c :: 0 <= d < 16 ==> HexValue(HexChar(d, c)) == d;
  }

  lemma SingleBack(u: nat, caps: Caps, rest: Text)
    requires 0 < u < 0x1_0000 && !Surrogate(u)
    ensures Unicode(HexTo(u, caps, rest)) == (Utf8(u), rest)
  {
    HexBack(u, caps, rest);
  }

  lemma Halves(v: nat)
    requires v < 0x10_0000
    ensures var (h, l) := (0xD800 + v / 0x400, 0xDC00 + v % 0x400);
            0xD800 <= h < 0xDC00 && 0xDC00 <= l < 0xE000 && v == h % 0x400 * 0x400 + l % 0x400
  {
    assert 0xD800 == 54 * 0x400 && 0xDC00 == 55 * 0x400;
    ModUnique(0xD800 + v / 0x400, 0x400, 54, v / 0x400);
    ModUnique(0xDC00 + v % 0x400, 0x400, 55, v % 0x400);
  }

  lemma TwoEscapes(s: Text, t: Text, h: nat, l: nat)
    requires Hex4(s) == h && Drop(s, 4) == t && Peek(t, 0) == BACKSLASH && Peek(t, 1) == 117 && Hex4(Drop(t, 2)) == l
    requires 0xD800 <= h < 0xDC00 && 0xDC00 <= l < 0xE000
    ensures Unicode(s) == (Utf8(0x1_0000 + h % 0x400 * 0x400 + l % 0x400), Drop(t, 6))
  {
  }

  lemma SecondEscape(tail: Text)
    ensures var t := [BACKSLASH, 117] + tail;
            Peek(t, 0) == BACKSLASH && Peek(t, 1) == 117 && Drop(t, 2) == tail && Drop(t, 6) == Drop(tail, 4)
  {
  }

  /** Two halves of a pair give the code point they were made from. */
  lemma PairBack(u: nat, high: Caps, low: Caps, rest: Text)
    requires 0x1_0000 <= u < 0x11_0000
    ensures var v := u - 0x1_0000;
            Unicode(HexTo(0xD800 + v / 0x400, high, [BACKSLASH, 117] + HexTo(0xDC00 + v % 0x400, low, rest))) == (Utf8(u), rest)
  {
    var v := u - 0x1_0000;
    Halves(v);
    HalvesBack(0xD800 + v / 0x400, 0xDC00 + v % 0x400, high, low, rest);
  }

  lemma HalvesBack(h: nat, l: nat, high: Caps, low: Caps, rest: Text)
    requires 0xD800 <= h < 0xDC00 && 0xDC00 <= l < 0xE000
    ensures Unicode(HexTo(h, high, [BACKSLASH, 117] + HexTo(l, low, rest)))
            == (Utf8(0x1_0000 + h % 0x400 * 0x400 + l % 0x400), rest)
  {
    var tail := HexTo(l, low, rest);
    var t := [BACKSLASH, 117] + tail;
    HexBack(h, high, t);
    HexBack(l, low, rest);
    SecondEscape(tail);
    TwoEscapes(HexTo(h, high, t), t, h, l);
  }

  /** Behind the backslash: the code point is found again, also from a pair of surrogates. */
  lemma CodeBack(u: nat, high: Caps, low: Caps, rest: Text)
    requires CharOk(Code(u, high, low))
    ensures Unescape(CharTo(Code(u, high, low), rest)[1..]) == (Utf8(u), rest)
  {
    if u < 0x1_0000 {
      LongEscape(HexTo(u, high, rest));
      SingleBack(u, high, rest);
    } else {
      var v := u - 0x1_0000;
      LongEscape(HexTo(0xD800 + v / 0x400, high, [BACKSLASH, 117] + HexTo(0xDC00 + v % 0x400, low, rest)));
      PairBack(u, high, low, rest);
    }
  }

  lemma LongEscape(s: Text)
    ensures Unescape(([BACKSLASH, 117] + s)[1..]) == Unicode(s)
  {
    assert ([BACKSLASH, 117] + s)[1..][1..] == s;
  }

  lemma CharBack(c: Char, rest: Text)
    requires CharStrict(c)
    ensures Characters(CharTo(c, rest)) == (CharBytes(c) + Characters(rest).0, Characters(rest).1)
  {
    var s := CharTo(c, rest);
    match c
    case Raw(b) => assert s[1..] == rest;
    case Letter(l) => assert s[1..] == [l] + rest && s[1..][1..] == rest;
    case Code(u, high, low) => CodeBack(u, high, low, rest);
  }

  lemma {:induction false} CharsBack(cs: seq<Char>, rest: Text)
    requires CharsStrict(cs)
    ensures Characters(CharsTo(cs, rest)) == (CharsBytes(cs) + Characters(rest).0, Characters(rest).1)
  {
    if cs == [] {
      assert [] + Characters(rest).0 == Characters(rest).0;
    } else {
      CharsBack(cs[1..], rest);
      CharBack(cs[0], CharsTo(cs[1..], rest));
      Assoc(CharBytes(cs[0]), CharsBytes(cs[1..]), Characters(rest).0);
    }
  }

  /** A quoted string parses to the bytes of its characters; without the second quote, to the end of the text. */
  lemma StringBack(cs: seq<Char>, rest: Text)
    requires CharsStrict(cs)
    ensures ParseString(StringTo(cs, rest)) == Some((CharsBytes(cs), rest))
    ensures ParseString([QUOTE] + CharsTo(cs, [])) == Some((CharsBytes(cs), []))
  {
    var end := [QUOTE] + rest;
    assert StringTo(cs, rest)[1..] == CharsTo(cs, end) && end[1..] == rest;
    assert ([QUOTE] + CharsTo(cs, []))[1..] == CharsTo(cs, []);
    CharsBack(cs, end);
    CharsBack(cs, []);
    assert CharsBytes(cs) + [] == CharsBytes(cs);
  }

  /** Escapes that stand for nothing: no four digits, or digits of zero or of half a pair. */
  lemma VoidEscape(a: Byte, b: Byte, c: Byte, d: Byte, rest: Text)
    requires var x := [a, b, c, d];
             || (exists i :: 0 <= i < 4 && HexValue(x[i]) == 16) || Hex4(x) == 0 || 0xDC00 <= Hex4(x) < 0xE000
             || (0xD800 <= Hex4(x) < 0xDC00 && !(Peek(rest, 0) == BACKSLASH && Peek(rest, 1) == 117))
    ensures Characters([BACKSLASH, 117, a, b, c, d] + rest) == Characters(rest)
  {
    var (s, x) := ([BACKSLASH, 117, a, b, c, d] + rest, [a, b, c, d]);
    assert s[1..][1..] == x + rest && Drop(x + rest, 4) == rest && Hex4(x + rest) == Hex4(x);
    assert [] + Characters(rest).0 == Characters(rest).0;
  }

  // ---------------------------------------------------------------- numbers

  datatype Sign = NoSign | Plus | Minus

  datatype Exp = NoExp | Exp(big: bool, sign: Sign, digits: seq<nat>)

  /** Digits before the point, digits behind it, and an exponent; the latter two if there are any. */
  datatype Number = Number(neg: bool, whole: seq<nat>, frac: seq<nat>, exp: Exp)

  predicate DigitsOk(ds: seq<nat>) { forall i :: 0 <= i < |ds| ==> ds[i] < 10 }

  predicate ExpOk(e: Exp) { e.Exp? ==> DigitsOk(e.digits) }

  predicate NumberOk(n: Number) { DigitsOk(n.whole) && DigitsOk(n.frac) && ExpOk(n.exp) }

  predicate ExpStrict(e: Exp) { ExpOk(e) && (e.Exp? ==> e.digits != []) }

  /** No digits missing, and no zero in front of other digits. */
  predicate NumberStrict(n: Number) {
    NumberOk(n) && ExpStrict(n.exp) && n.whole != [] && (n.whole[0] == 0 ==> |n.whole| == 1)
  }

  function DigitsTo(ds: seq<nat>, rest: Text): Text
    requires DigitsOk(ds)
  {
    if ds == [] then rest else [48 + ds[0]] + DigitsTo(ds[1..], rest)
  }

  function SignTo(sign: Sign, rest: Text): Text { if sign == NoSign then rest else [if sign == Plus then 43 else 45] + rest }

  function ExpTo(e: Exp, rest: Text): Text
    requires ExpOk(e)
  {
    match e
    case NoExp => rest
    case Exp(big, sign, ds) =>
      [if big then 69 else 101] + SignTo(sign, DigitsTo(ds, rest))
  }

  function FracTo(ds: seq<nat>, rest: Text): Text
    requires DigitsOk(ds)
  {
    if ds == [] then rest else [46] + DigitsTo(ds, rest)
  }

  function NumberTo(n: Number, rest: Text): Text
    requires NumberOk(n)
  {
    (if n.neg then [45] else []) + MagnitudeTo(n, rest)
  }

  function MagnitudeTo(n: Number, rest: Text): Text
    requires NumberOk(n)
  {
    DigitsTo(n.whole, FracTo(n.frac, ExpTo(n.exp, rest)))
  }

  /** The value of digits in base 10, the last one for the units. */
  function Decimal(ds: seq<nat>): nat { if ds == [] then 0 else Decimal(ds[..|ds| - 1]) * 10 + ds[|ds| - 1] }

  function ExpValue(e: Exp): int {
    match e
    case NoExp => 0
    case Exp(_, sign, ds) => Signed(sign == Minus, Decimal(ds))
  }

  /** What a number means: all its digits, scaled by the exponent and by the digits behind the point. */
  function NumberValue(n: Number): Json {
    Num(Signed(n.neg, Decimal(n.whole + n.frac)), ExpValue(n.exp) - |n.frac|)
  }

  /** What may follow a number without being taken for a part of it. */
  predicate Ends(rest: Text) { var c := Peek(rest, 0); !Digit(c) && c != 46 && c != 101 && c != 69 }

  /** Digits added to a number one by one, as the parser does. */
  function Added(n: nat, ds: seq<nat>): nat
    decreases |ds|
  {
    if ds == [] then n else Added(n * 10 + ds[0], ds[1..])
  }

  lemma {:induction false} AddedDecimal(a: seq<nat>, ds: seq<nat>)
    ensures Added(Decimal(a), ds) == Decimal(a + ds)
    decreases |ds|
  {
    if ds == [] {
      assert a + ds == a;
    } else {
      var more := a + [ds[0]];
      assert more[..|more| - 1] == a && more + ds[1..] == a + ds;
      AddedDecimal(more, ds[1..]);
    }
  }

  lemma AddedTwice(whole: seq<nat>, frac: seq<nat>)
    ensures Added(0, whole) == Decimal(whole) && Added(Added(0, whole), frac) == Decimal(whole + frac)
  {
    AddedDecimal([], whole);
    assert [] + whole == whole;
    AddedDecimal(whole, frac);
  }

  lemma {:induction false} DigitsBack(n: nat, ds: seq<nat>, rest: Text, count: nat)
    requires DigitsOk(ds) && !Digit(Peek(rest, 0))
    ensures Digits(DigitsTo(ds, rest), n, count) == (Added(n, ds), count + |ds|, rest)
    decreases |ds|
  {
    if ds != [] {
      assert DigitsTo(ds, rest)[1..] == DigitsTo(ds[1..], rest);
      DigitsBack(n * 10 + ds[0], ds[1..], rest, count + 1);
    }
  }

  lemma ScaleBack(sign: Sign, ds: seq<nat>, rest: Text)
    requires DigitsOk(ds) && ds != [] && Ends(rest)
    ensures Exponent(SignTo(sign, DigitsTo(ds, rest))) == (Signed(sign == Minus, Decimal(ds)), rest)
  {
    var t := DigitsTo(ds, rest);
    assert t[0] == 48 + ds[0];
    assert sign != NoSign ==> SignTo(sign, t)[1..] == t;
    DigitsBack(0, ds, rest, 0);
    AddedTwice(ds, []);
  }

  lemma ExponentBack(e: Exp, rest: Text)
    requires ExpStrict(e) && Ends(rest)
    ensures var s := ExpTo(e, rest); !Digit(Peek(s, 0)) && Peek(s, 0) != 46 && ExpPart(s) == (ExpValue(e), rest)
  {
    if e.Exp? {
      assert ExpTo(e, rest)[1..] == SignTo(e.sign, DigitsTo(e.digits, rest));
      ScaleBack(e.sign, e.digits, rest);
    }
  }

  /** The digits before the point, with the zero that may stand alone. */
  lemma WholeBack(whole: seq<nat>, rest: Text)
    requires DigitsOk(whole) && whole != [] && (whole[0] == 0 ==> |whole| == 1) && !Digit(Peek(rest, 0))
    ensures var s := DigitsTo(whole, rest); s != [] && Digit(s[0]) && WholePart(s) == (Added(0, whole), rest)
  {
    var s := DigitsTo(whole, rest);
    assert s[0] == 48 + whole[0];
    if whole[0] == 0 {
      assert whole == [0] && whole[1..] == [] && s[1..] == rest;
    } else {
      DigitsBack(0, whole, rest, 0);
    }
  }

  lemma FracBack(n: nat, frac: seq<nat>, rest: Text)
    requires DigitsOk(frac) && !Digit(Peek(rest, 0)) && Peek(rest, 0) != 46
    ensures var s := FracTo(frac, rest); !Digit(Peek(s, 0)) && FracPart(s, n) == (Added(n, frac), |frac|, rest)
  {
    if frac != [] {
      assert FracTo(frac, rest)[1..] == DigitsTo(frac, rest);
      DigitsBack(n, frac, rest, 0);
    }
  }

  /** The parts of a number one after the other. */
  lemma Assembled(s: Text, t: Text, whole: (nat, Text), frac: (nat, nat, Text), exp: (int, Text))
    requires s != [] && (if s[0] == 45 then t == s[1..] else Digit(s[0]) && t == s)
    requires WholePart(t) == whole && FracPart(whole.1, whole.0) == frac && ExpPart(frac.2) == exp
    ensures ParseNumber(s) == (Num(Signed(s[0] == 45, frac.0), exp.0 - frac.1), exp.1)
  {
  }

  lemma SignBack(neg: bool, t: Text, whole: (nat, Text), frac: (nat, nat, Text), exp: (int, Text), v: Json, rest: Text)
    requires v == Num(Signed(neg, frac.0), exp.0 - frac.1) && rest == exp.1
    requires t != [] && Digit(t[0]) && WholePart(t) == whole && FracPart(whole.1, whole.0) == frac && ExpPart(frac.2) == exp
    ensures var s := (if neg then [45] else []) + t;
            && s != [] && (s[0] == 45 || Digit(s[0]))
            && ParseNumber(s) == (v, rest)
  {
    var s := (if neg then [45] else []) + t;
    if neg { assert s[0] == 45 && s[1..] == t; } else { assert s == t; }
    Assembled(s, t, whole, frac, exp);
  }

  /** Behind the sign: what each part is read as. */
  lemma MagnitudeBack(n: Number, rest: Text) returns (whole: (nat, Text), frac: (nat, nat, Text), exp: (int, Text))
    requires NumberStrict(n) && Ends(rest)
    ensures var t := MagnitudeTo(n, rest);
            t != [] && Digit(t[0]) && WholePart(t) == whole && FracPart(whole.1, whole.0) == frac && ExpPart(frac.2) == exp
    ensures frac.0 == Decimal(n.whole + n.frac) && frac.1 == |n.frac| && exp == (ExpValue(n.exp), rest)
  {
    var (e, m) := (ExpTo(n.exp, rest), Added(0, n.whole));
    var f := FracTo(n.frac, e);
    ExponentBack(n.exp, rest);
    FracBack(m, n.frac, e);
    WholeBack(n.whole, f);
    whole, frac, exp := (m, f), (Added(m, n.frac), |n.frac|, e), (ExpValue(n.exp), rest);
    AddedTwice(n.whole, n.frac);
  }

  /** A number parses to its value. */
  lemma NumberBack(n: Number, rest: Text)
    requires NumberStrict(n) && Ends(rest)
    ensures var s := NumberTo(n, rest); s != [] && (s[0] == 45 || Digit(s[0])) && ParseNumber(s) == (NumberValue(n), rest)
  {
    var whole, frac, exp := MagnitudeBack(n, rest);
    SignBack(n.neg, MagnitudeTo(n, rest), whole, frac, exp, NumberValue(n), rest);
  }

  // ---------------------------------------------------------------- values

  /** A text with its blanks; `inner` are those between brackets with nothing else in them. Strictly, no string is left `open`. */
  datatype Doc =
    | NullDoc
    | FalseDoc
    | TrueDoc
    | NumDoc(n: Number)
    | StrDoc(cs: seq<Char>, open: bool)
    | ArrDoc(inner: Text, items: ItemDocs)
    | ObjDoc(inner: Text, members: MemberDocs)

  datatype ItemDocs = NoItemDoc | ItemDoc(before: Text, value: Doc, after: Text, rest: ItemDocs)

  datatype MemberDocs =
    NoMemberDoc | MemberDoc(before: Text, name: seq<Char>, mid: Text, gap: Text, value: Doc, after: Text, rest: MemberDocs)

  predicate Blank(s: Text) { forall i :: 0 <= i < |s| ==> 0 < s[i] <= 32 }

  predicate DocOk(d: Doc) {
    match d
    case NumDoc(n) => NumberOk(n)
    case StrDoc(cs, _) => CharsOk(cs)
    case ArrDoc(inner, items) => Blank(inner) && ItemsOk(items)
    case ObjDoc(inner, members) => Blank(inner) && MembersOk(members)
    case _ => true
  }

  predicate ItemsOk(l: ItemDocs) { l.ItemDoc? ==> Blank(l.before) && DocOk(l.value) && Blank(l.after) && ItemsOk(l.rest) }

  predicate MembersOk(l: MemberDocs) {
    l.MemberDoc? ==>
      && Blank(l.before) && CharsOk(l.name) && Blank(l.mid) && Blank(l.gap) && DocOk(l.value) && Blank(l.after)
      && MembersOk(l.rest)
  }

  predicate DocStrict(d: Doc) {
    DocOk(d) &&
    match d
    case NumDoc(n) => NumberStrict(n)
    case StrDoc(cs, open) => CharsStrict(cs) && !open
    case ArrDoc(_, items) => ItemsStrict(items)
    case ObjDoc(_, members) => MembersStrict(members)
    case _ => true
  }

  predicate ItemsStrict(l: ItemDocs) { ItemsOk(l) && (l.ItemDoc? ==> DocStrict(l.value) && ItemsStrict(l.rest)) }

  predicate MembersStrict(l: MemberDocs) {
    MembersOk(l) && (l.MemberDoc? ==> CharsStrict(l.name) && DocStrict(l.value) && MembersStrict(l.rest))
  }

  function DocTo(d: Doc, rest: Text): Text
    requires DocOk(d)
    decreases d
  {
    match d
    case NullDoc => NULL_TEXT + rest
    case FalseDoc => FALSE_TEXT + rest
    case TrueDoc => TRUE_TEXT + rest
    case NumDoc(n) => NumberTo(n, rest)
    case StrDoc(cs, open) => if open then [QUOTE] + CharsTo(cs, rest) else StringTo(cs, rest)
    case ArrDoc(inner, items) =>
      [OPEN_ARRAY] + if items == NoItemDoc then inner + ([CLOSE_ARRAY] + rest) else ItemDocsTo(items, [CLOSE_ARRAY] + rest)
    case ObjDoc(inner, members) =>
      [OPEN_OBJECT] + if members == NoMemberDoc then inner + ([CLOSE_OBJECT] + rest) else MemberDocsTo(members, [CLOSE_OBJECT] + rest)
  }

  function ItemDocsTo(l: ItemDocs, rest: Text): Text
    requires ItemsOk(l)
    decreases l
  {
    match l
    case NoItemDoc => rest
    case ItemDoc(before, v, after, more) =>
      before + DocTo(v, after + if more == NoItemDoc then rest else [COMMA] + ItemDocsTo(more, rest))
  }

  function MemberDocsTo(l: MemberDocs, rest: Text): Text
    requires MembersOk(l)
    decreases l
  {
    match l
    case NoMemberDoc => rest
    case MemberDoc(before, name, mid, gap, v, after, more) =>
      var value := DocTo(v, after + if more == NoMemberDoc then rest else [COMMA] + MemberDocsTo(more, rest));
      before + StringTo(name, mid + ([COLON] + (gap + value)))
  }

  function Meaning(d: Doc): Json
    requires DocOk(d)
  {
    match d
    case NullDoc => Null
    case FalseDoc => False
    case TrueDoc => True
    case NumDoc(n) => NumberValue(n)
    case StrDoc(cs, _) => Str(CharsBytes(cs))
    case ArrDoc(_, items) => Arr(ItemMeanings(items))
    case ObjDoc(_, members) => Obj(MemberMeanings(members))
  }

  function ItemMeanings(l: ItemDocs): Items
    requires ItemsOk(l)
  {
    match l
    case NoItemDoc => NoItem
    case ItemDoc(_, v, _, more) => Item(Meaning(v), ItemMeanings(more))
  }

  function MemberMeanings(l: MemberDocs): Members
    requires MembersOk(l)
  {
    match l
    case NoMemberDoc => NoMember
    case MemberDoc(_, name, _, _, v, _, more) => Member(CharsBytes(name), Meaning(v), MemberMeanings(more))
  }

  lemma {:induction false} BlankSkipped(b: Text, rest: Text)
    requires Blank(b)
    ensures Skip(b + rest) == Skip(rest)
  {
    if b == [] {
      assert b + rest == rest;
    } else {
      assert (b + rest)[1..] == b[1..] + rest;
      BlankSkipped(b[1..], rest);
    }
  }

  /** A text that begins with no blank. */
  predicate Solid(s: Text) { s != [] && s[0] > 32 }

  /** A value begins with no blank, and with none of the brackets that would close its list. */
  lemma DocFirst(d: Doc, rest: Text)
    requires DocStrict(d)
    ensures var s := DocTo(d, rest); Solid(s) && s[0] != CLOSE_ARRAY && s[0] != CLOSE_OBJECT && Skip(s) == s
  {
  }

  lemma NotLiteral(s: Text)
    requires s != [] && s[0] != 110 && s[0] != 102 && s[0] != 116
    ensures !StartsWith(s, NULL_TEXT) && !StartsWith(s, FALSE_TEXT) && !StartsWith(s, TRUE_TEXT)
  {
    if |s| >= 4 { assert s[..4][0] == s[0]; }
    if |s| >= 5 { assert s[..5][0] == s[0]; }
  }

  lemma LiteralBack(d: Doc, rest: Text)
    requires d.NullDoc? || d.FalseDoc? || d.TrueDoc?
    ensures ParseValue(DocTo(d, rest)) == Some((Meaning(d), rest))
  {
    var s := DocTo(d, rest);
    if d.NullDoc? { assert s[..4] == NULL_TEXT && s[4..] == rest; }
    if d.FalseDoc? { assert s[..5] == FALSE_TEXT && s[5..] == rest; }
    if d.TrueDoc? { assert s[..4] == TRUE_TEXT && s[4..] == rest; }
    assert s[0] == s[..4][0];
  }

  /** What comes behind a value with its blanks does not continue a number. */
  lemma AfterEnds(after: Text, rest: Text)
    requires Blank(after) && Ends(rest)
    ensures Ends(after + rest)
  {
    if after == [] { assert after + rest == rest; }
  }

  /** The parser gives every text of the strict grammar its meaning, and leaves what comes behind it. */
  lemma {:induction false} ValueBack(d: Doc, rest: Text)
    requires DocStrict(d) && Ends(rest)
    ensures ParseValue(DocTo(d, rest)) == Some((Meaning(d), rest))
    decreases d, 1
  {
    var s := DocTo(d, rest);
    match d
    case NumDoc(n) =>
      NumberBack(n, rest);
      NotLiteral(s);
    case StrDoc(cs, _) =>
      StringBack(cs, rest);
      NotLiteral(s);
    case ArrDoc(inner, items) => ArrayBack(inner, items, rest);
    case ObjDoc(inner, members) => ObjectBack(inner, members, rest);
    case _ => LiteralBack(d, rest);
  }

  lemma BracketOpens(inner: Text)
    ensures ParseValue([OPEN_ARRAY] + inner) == ParseArray(inner)
  {
    NotLiteral([OPEN_ARRAY] + inner);
    assert ([OPEN_ARRAY] + inner)[1..] == inner;
  }

  lemma BraceOpens(inner: Text)
    ensures ParseValue([OPEN_OBJECT] + inner) == ParseObject(inner)
  {
    NotLiteral([OPEN_OBJECT] + inner);
    assert ([OPEN_OBJECT] + inner)[1..] == inner;
  }

  lemma EmptyBack(inner: Text, rest: Text)
    requires Blank(inner)
    ensures ParseArray(inner + ([CLOSE_ARRAY] + rest)) == Some((Arr(NoItem), rest))
    ensures ParseObject(inner + ([CLOSE_OBJECT] + rest)) == Some((Obj(NoMember), rest))
  {
    BlankSkipped(inner, [CLOSE_ARRAY] + rest);
    BlankSkipped(inner, [CLOSE_OBJECT] + rest);
    assert ([CLOSE_ARRAY] + rest)[1..] == rest && ([CLOSE_OBJECT] + rest)[1..] == rest;
  }

  lemma {:induction false} ArrayBack(inner: Text, items: ItemDocs, rest: Text)
    requires Blank(inner) && ItemsStrict(items)
    ensures ParseValue(DocTo(ArrDoc(inner, items), rest)) == Some((Arr(ItemMeanings(items)), rest))
    decreases items, 4
  {
    var close := [CLOSE_ARRAY] + rest;
    if items == NoItemDoc {
      BracketOpens(inner + close);
      EmptyBack(inner, rest);
    } else {
      BracketOpens(ItemDocsTo(items, close));
      BracketsBack(items, rest);
    }
  }

  lemma {:induction false} BracketsBack(items: ItemDocs, rest: Text)
    requires ItemsStrict(items) && items.ItemDoc?
    ensures ParseArray(ItemDocsTo(items, [CLOSE_ARRAY] + rest)) == Some((Arr(ItemMeanings(items)), rest))
    decreases items, 3
  {
    var close := [CLOSE_ARRAY] + rest;
    ItemsFirst(items, close);
    ItemsBack(items, close);
    assert close[1..] == rest;
  }

  lemma ItemsFirst(l: ItemDocs, rest: Text)
    requires ItemsStrict(l) && l.ItemDoc?
    ensures var s := Skip(ItemDocsTo(l, rest)); Peek(s, 0) != CLOSE_ARRAY && ParseItems(s) == ParseItems(ItemDocsTo(l, rest))
  {
    var value := DocTo(l.value, l.after + if l.rest == NoItemDoc then rest else [COMMA] + ItemDocsTo(l.rest, rest));
    BlankSkipped(l.before, value);
    DocFirst(l.value, l.after + if l.rest == NoItemDoc then rest else [COMMA] + ItemDocsTo(l.rest, rest));
  }

  lemma {:induction false} ItemsBack(l: ItemDocs, rest: Text)
    requires ItemsStrict(l) && l.ItemDoc? && Peek(rest, 0) == CLOSE_ARRAY
    ensures ParseItems(ItemDocsTo(l, rest)) == Some((ItemMeanings(l), rest))
    decreases l, 2
  {
    var tail := if l.rest == NoItemDoc then rest else [COMMA] + ItemDocsTo(l.rest, rest);
    BlankSkipped(l.before, DocTo(l.value, l.after + tail));
    DocFirst(l.value, l.after + tail);
    AfterEnds(l.after, tail);
    ValueBack(l.value, l.after + tail);
    BlankSkipped(l.after, tail);
    if l.rest != NoItemDoc {
      assert tail[1..] == ItemDocsTo(l.rest, rest);
      ItemsBack(l.rest, rest);
    }
  }

  lemma {:induction false} ObjectBack(inner: Text, members: MemberDocs, rest: Text)
    requires Blank(inner) && MembersStrict(members)
    ensures ParseValue(DocTo(ObjDoc(inner, members), rest)) == Some((Obj(MemberMeanings(members)), rest))
    decreases members, 4
  {
    var close := [CLOSE_OBJECT] + rest;
    if members == NoMemberDoc {
      BraceOpens(inner + close);
      EmptyBack(inner, rest);
    } else {
      BraceOpens(MemberDocsTo(members, close));
      BracesBack(members, rest);
    }
  }

  lemma {:induction false} BracesBack(members: MemberDocs, rest: Text)
    requires MembersStrict(members) && members.MemberDoc?
    ensures ParseObject(MemberDocsTo(members, [CLOSE_OBJECT] + rest)) == Some((Obj(MemberMeanings(members)), rest))
    decreases members, 3
  {
    var close := [CLOSE_OBJECT] + rest;
    MembersFirst(members, close);
    MembersBack(members, close);
    assert close[1..] == rest;
  }

  lemma MembersFirst(l: MemberDocs, rest: Text)
    requires MembersStrict(l) && l.MemberDoc?
    ensures var s := Skip(MemberDocsTo(l, rest)); Peek(s, 0) == QUOTE && ParseMembers(s) == ParseMembers(MemberDocsTo(l, rest))
  {
    var value := DocTo(l.value, l.after + if l.rest == NoMemberDoc then rest else [COMMA] + MemberDocsTo(l.rest, rest));
    BlankSkipped(l.before, StringTo(l.name, l.mid + ([COLON] + (l.gap + value))));
  }

  lemma {:induction false} MembersBack(l: MemberDocs, rest: Text)
    requires MembersStrict(l) && l.MemberDoc? && Peek(rest, 0) == CLOSE_OBJECT
    ensures ParseMembers(MemberDocsTo(l, rest)) == Some((MemberMeanings(l), rest))
    decreases l, 2
  {
    var tail := if l.rest == NoMemberDoc then rest else [COMMA] + MemberDocsTo(l.rest, rest);
    var value := DocTo(l.value, l.after + tail);
    var colon := [COLON] + (l.gap + value);
    BlankSkipped(l.before, StringTo(l.name, l.mid + colon));
    StringBack(l.name, l.mid + colon);
    BlankSkipped(l.mid, colon);
    assert colon[1..] == l.gap + value;
    BlankSkipped(l.gap, value);
    DocFirst(l.value, l.after + tail);
    AfterEnds(l.after, tail);
    ValueBack(l.value, l.after + tail);
    BlankSkipped(l.after, tail);
    if l.rest != NoMemberDoc {
      assert tail[1..] == MemberDocsTo(l.rest, rest);
      MembersBack(l.rest, rest);
    }
  }
}
