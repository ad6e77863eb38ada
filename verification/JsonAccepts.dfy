/** Nothing but texts of the grammar is accepted by the parser, and each for what it means. */
module JsonAccepts {
  import opened Common
  import opened JsonModel
  import opened JsonGrammar

  // ---------------------------------------------------------------- strings

  /** Whether a digit is a capital letter. */
  function Capital(c: Byte): bool { 65 <= c <= 70 }

  lemma HexKnown(c: Byte)
    requires HexValue(c) < 16
    ensures HexChar(HexValue(c), Capital(c)) == c
  {
  }

  lemma Hex4Digits(a: nat, b: nat, c: nat, d: nat)
    requires a < 16 && b < 16 && c < 16 && d < 16
    ensures var u := ((a * 16 + b) * 16 + c) * 16 + d;
            u / 0x1000 == a && u / 0x100 % 16 == b && u / 16 % 16 == c && u % 16 == d && u < 0x1_0000
  {
  }

  function CapsOf(s: Text): Caps { [Capital(Peek(s, 0)), Capital(Peek(s, 1)), Capital(Peek(s, 2)), Capital(Peek(s, 3))] }

  /** Four digits that are not all zero are the text of their value. */
  lemma Hex4Text(s: Text)
    requires Hex4(s) != 0
    ensures |s| >= 4 && Hex4(s) < 0x1_0000 && HexTo(Hex4(s), CapsOf(s), Drop(s, 4)) == s
  {
    var (a, b, c, d) := (HexValue(Peek(s, 0)), HexValue(Peek(s, 1)), HexValue(Peek(s, 2)), HexValue(Peek(s, 3)));
    assert |s| >= 4;
    Hex4Digits(a, b, c, d);
    HexKnown(s[0]);
    HexKnown(s[1]);
    HexKnown(s[2]);
    HexKnown(s[3]);
    assert s == [s[0], s[1], s[2], s[3]] + s[4..];
  }

  /** What the digits behind `\\u`, and those of a second half, are the text of. */
  lemma UnicodeSound(s: Text) returns (u: nat, high: Caps, low: Caps)
    requires Unicode(s).0 != []
    ensures CharOk(Code(u, high, low)) && Unicode(s).0 == Utf8(u) && CharTo(Code(u, high, low), Unicode(s).1) == [BACKSLASH, 117] + s
  {
    Hex4Bound(s);
    Hex4Text(s);
    var (h, t) := (Hex4(s), Drop(s, 4));
    u, high, low := h, CapsOf(s), CapsOf(s);
    if 0xD800 <= h <= 0xDBFF {
      var l := Hex4(Drop(t, 2));
      low := CapsOf(Drop(t, 2));
      u := PairSound(s, t, h, l, low);
    }
  }

  lemma JoinHalves(h: nat, l: nat)
    requires 0xD800 <= h < 0xDC00 && 0xDC00 <= l < 0xE000
    ensures var v := h % 0x400 * 0x400 + l % 0x400; v < 0x10_0000 && 0xD800 + v / 0x400 == h && 0xDC00 + v % 0x400 == l
  {
    ModUnique(h, 0x400, 54, h - 0xD800);
    ModUnique(l, 0x400, 55, l - 0xDC00);
  }

  lemma PairText(s: Text, t: Text, h: nat, l: nat)
    requires 0xD800 <= h < 0xDC00 && 0xDC00 <= l < 0xE000 && Hex4(s) == h && t == Drop(s, 4) && Hex4(Drop(t, 2)) == l
    requires Peek(t, 0) == BACKSLASH && Peek(t, 1) == 117
    ensures HexTo(h, CapsOf(s), [BACKSLASH, 117] + HexTo(l, CapsOf(Drop(t, 2)), Drop(t, 6))) == s
  {
    var tail := Drop(t, 2);
    Hex4Text(s);
    Hex4Text(tail);
    assert t == [BACKSLASH, 117] + tail;
    SecondEscape(tail);
  }

  lemma PairSound(s: Text, t: Text, h: nat, l: nat, low: Caps) returns (u: nat)
    requires 0xD800 <= h < 0xDC00 && 0xDC00 <= l < 0xE000 && Hex4(s) == h && t == Drop(s, 4) && Hex4(Drop(t, 2)) == l
    requires Peek(t, 0) == BACKSLASH && Peek(t, 1) == 117 && low == CapsOf(Drop(t, 2))
    ensures CharOk(Code(u, CapsOf(s), low)) && Unicode(s) == (Utf8(u), Drop(t, 6))
    ensures CharTo(Code(u, CapsOf(s), low), Drop(t, 6)) == [BACKSLASH, 117] + s
  {
    JoinHalves(h, l);
    u := 0x1_0000 + (h % 0x400 * 0x400 + l % 0x400);
    TwoEscapes(s, t, h, l);
    PairText(s, t, h, l);
    PairTo(u, h, l, CapsOf(s), low, Drop(t, 6));
  }

  lemma PairTo(u: nat, h: nat, l: nat, high: Caps, low: Caps, rest: Text)
    requires 0x1_0000 <= u < 0x11_0000 && h == 0xD800 + (u - 0x1_0000) / 0x400 && l == 0xDC00 + (u - 0x1_0000) % 0x400
    requires h < 0x1_0000 && l < 0x1_0000
    ensures CharTo(Code(u, high, low), rest) == [BACKSLASH, 117] + HexTo(h, high, [BACKSLASH, 117] + HexTo(l, low, rest))
  {
  }

  lemma UnicodeTail(s: Text)
    ensures var t := Unicode(s).1; t == s[|s| - |t|..]
  {
  }

  /** One escape. */
  lemma EscapeSound(s: Text) returns (c: Char)
    requires |s| >= 2 && s[0] == BACKSLASH
    ensures var (b, t) := Unescape(s[1..]); CharOk(c) && CharTo(c, t) == s && CharBytes(c) == b
  {
    var (b, t) := Unescape(s[1..]);
    assert s == [BACKSLASH, s[1]] + s[2..] && s[1..][1..] == s[2..];
    if s[1] == 117 {
      if b == [] {
        UnicodeTail(s[2..]);
        c := Void(s[..|s| - |t|]);
        assert s[..|s| - |t|] + t == s;
      } else {
        var u, high, low := UnicodeSound(s[2..]);
        c := Code(u, high, low);
      }
    } else {
      c := Letter(s[1]);
    }
  }

  lemma {:induction false} CharactersSound(s: Text) returns (cs: seq<Char>)
    ensures CharsOk(cs) && CharsTo(cs, Characters(s).1) == s && CharsBytes(cs) == Characters(s).0
    ensures var rest := Characters(s).1; rest == [] || rest[0] == QUOTE || rest[0] == 0
    decreases |s|
  {
    if s == [] || s[0] == QUOTE || s[0] == 0 {
      cs := [];
    } else {
      var c, t;
      if s[0] != BACKSLASH {
        c, t := Raw(s[0]), s[1..];
        assert [s[0]] + s[1..] == s;
      } else if |s| == 1 {
        c, t := Stub, [];
        assert [BACKSLASH] + [] == s && [0] + [] == [0];
      } else {
        c := EscapeSound(s);
        t := Unescape(s[1..]).1;
      }
      var more := CharactersSound(t);
      cs := [c] + more;
      assert cs[0] == c && cs[1..] == more;
    }
  }

  lemma StringSound(s: Text) returns (cs: seq<Char>, open: bool)
    requires ParseString(s).Some?
    ensures var (b, rest) := ParseString(s).value;
            && CharsOk(cs) && b == CharsBytes(cs) && s == DocTo(StrDoc(cs, open), rest)
            && (open ==> rest == [] || rest[0] == 0)
  {
    cs := CharactersSound(s[1..]);
    var rest := Characters(s[1..]).1;
    open := Peek(rest, 0) != QUOTE;
    assert s == [QUOTE] + s[1..];
    assert !open ==> rest == [QUOTE] + rest[1..];
  }

  // ---------------------------------------------------------------- numbers

  lemma {:induction false} DigitsSound(s: Text, n: nat, count: nat) returns (ds: seq<nat>)
    ensures var (m, k, rest) := Digits(s, n, count);
            DigitsOk(ds) && DigitsTo(ds, rest) == s && m == Added(n, ds) && k == count + |ds|
    ensures Digit(Peek(s, 0)) ==> ds != []
  {
    ds := [];
    if Digit(Peek(s, 0)) {
      var more := DigitsSound(s[1..], n * 10 + (s[0] - 48), count + 1);
      ds := [s[0] - 48] + more;
      assert ds[1..] == more && [s[0]] + s[1..] == s;
    }
  }

  lemma WholeSound(s: Text) returns (ds: seq<nat>)
    ensures DigitsOk(ds) && DigitsTo(ds, WholePart(s).1) == s && WholePart(s).0 == Added(0, ds)
  {
    var t := if Peek(s, 0) == 48 then s[1..] else s;
    var more := [];
    if 49 <= Peek(t, 0) <= 57 { more := DigitsSound(t, 0, 0); }
    ds := more;
    if Peek(s, 0) == 48 {
      ds := [0] + more;
      assert ds[1..] == more && [48] + t == s;
    }
  }

  lemma FracSound(s: Text, n: nat) returns (ds: seq<nat>)
    ensures var (m, k, rest) := FracPart(s, n); DigitsOk(ds) && FracTo(ds, rest) == s && m == Added(n, ds) && k == |ds|
  {
    ds := [];
    if Peek(s, 0) == 46 && Digit(Peek(s, 1)) {
      ds := DigitsSound(s[1..], n, 0);
      assert [46] + s[1..] == s;
    }
  }

  lemma ExpSound(s: Text) returns (e: Exp)
    ensures ExpOk(e) && ExpTo(e, ExpPart(s).1) == s && ExpPart(s).0 == ExpValue(e)
  {
    e := NoExp;
    if Peek(s, 0) == 101 || Peek(s, 0) == 69 {
      var t := s[1..];
      var sign := if Peek(t, 0) == 43 then Plus else if Peek(t, 0) == 45 then Minus else NoSign;
      var digits := if sign == NoSign then t else t[1..];
      var ds := DigitsSound(digits, 0, 0);
      AddedTwice(ds, []);
      e := Exp(s[0] == 69, sign, ds);
      assert sign != NoSign ==> t == [t[0]] + digits;
      assert s == [s[0]] + t;
    }
  }

  /** The parts read one after the other are those of the number. */
  lemma PartsSound(n: Number, t: Text, whole: (nat, Text), frac: (nat, nat, Text), exp: (int, Text))
    requires NumberOk(n) && DigitsTo(n.whole, whole.1) == t && FracTo(n.frac, frac.2) == whole.1 && ExpTo(n.exp, exp.1) == frac.2
    requires frac.0 == Added(Added(0, n.whole), n.frac) && frac.1 == |n.frac| && exp.0 == ExpValue(n.exp)
    ensures MagnitudeTo(n, exp.1) == t && NumberValue(n) == Num(Signed(n.neg, frac.0), exp.0 - frac.1)
  {
    AddedTwice(n.whole, n.frac);
  }

  lemma SignSound(s: Text, t: Text, n: Number, rest: Text, v: Json)
    requires s != [] && NumberOk(n) && MagnitudeTo(n, rest) == t && n.neg == (s[0] == 45) && t == (if n.neg then s[1..] else s)
    requires ParseNumber.requires(s) && ParseNumber(s) == (v, rest) && NumberValue(n) == v
    ensures NumberTo(n, ParseNumber(s).1) == s && NumberValue(n) == ParseNumber(s).0
  {
    assert s == (if n.neg then [45] else []) + t;
  }

  lemma NumberSound(s: Text) returns (n: Number)
    requires Peek(s, 0) == 45 || Digit(Peek(s, 0))
    ensures NumberOk(n) && NumberTo(n, ParseNumber(s).1) == s && NumberValue(n) == ParseNumber(s).0
  {
    var t := if s[0] == 45 then s[1..] else s;
    var whole := WholePart(t);
    var ds := WholeSound(t);
    var frac := FracPart(whole.1, whole.0);
    var fs := FracSound(whole.1, whole.0);
    var exp := ExpPart(frac.2);
    var e := ExpSound(frac.2);
    n := Number(s[0] == 45, ds, fs, e);
    PartsSound(n, t, whole, frac, exp);
    Assembled(s, t, whole, frac, exp);
    SignSound(s, t, n, exp.1, NumberValue(n));
  }

  // ---------------------------------------------------------------- values

  lemma {:induction false} SkipSound(s: Text) returns (b: Text)
    ensures Blank(b) && s == b + Skip(s)
  {
    b := [];
    if s != [] && s[0] != 0 && s[0] <= 32 {
      var more := SkipSound(s[1..]);
      b := [s[0]] + more;
      assert s == [s[0]] + s[1..];
      Assoc([s[0]], more, Skip(s));
    }
  }

  lemma LiteralSound(s: Text) returns (d: Doc)
    requires StartsWith(s, NULL_TEXT) || StartsWith(s, FALSE_TEXT) || StartsWith(s, TRUE_TEXT)
    ensures ParseValue(s).Some? && DocOk(d) && DocTo(d, ParseValue(s).value.1) == s && Meaning(d) == ParseValue(s).value.0
  {
    if StartsWith(s, NULL_TEXT) {
      d := NullDoc;
      assert s == s[..4] + s[4..];
    } else if StartsWith(s, FALSE_TEXT) {
      d := FalseDoc;
      assert s == s[..5] + s[5..];
    } else {
      d := TrueDoc;
      assert s == s[..4] + s[4..];
    }
  }

  /** A text that is accepted is one of the grammar, with its meaning, and then what is left. */
  lemma {:induction false} ValueSound(s: Text) returns (d: Doc)
    requires ParseValue(s).Some?
    ensures DocOk(d) && DocTo(d, ParseValue(s).value.1) == s && Meaning(d) == ParseValue(s).value.0
    decreases |s|, 0
  {
    if StartsWith(s, NULL_TEXT) || StartsWith(s, FALSE_TEXT) || StartsWith(s, TRUE_TEXT) {
      d := LiteralSound(s);
    } else if Peek(s, 0) == QUOTE {
      var cs, open := StringSound(s);
      d := StrDoc(cs, open);
    } else if Peek(s, 0) == 45 || Digit(Peek(s, 0)) {
      var n := NumberSound(s);
      d := NumDoc(n);
    } else if Peek(s, 0) == OPEN_ARRAY {
      d := ArraySound(s[1..]);
      assert s == [OPEN_ARRAY] + s[1..];
    } else {
      d := ObjectSound(s[1..]);
      assert s == [OPEN_OBJECT] + s[1..];
    }
  }

  lemma {:induction false} ArraySound(s: Text) returns (d: Doc)
    requires ParseArray(s).Some?
    ensures DocOk(d) && DocTo(d, ParseArray(s).value.1) == [OPEN_ARRAY] + s && Meaning(d) == ParseArray(s).value.0
    decreases |s|, 3
  {
    var b := SkipSound(s);
    var v := Skip(s);
    if Peek(v, 0) == CLOSE_ARRAY {
      d := ArrDoc(b, NoItemDoc);
      assert v == [CLOSE_ARRAY] + v[1..];
    } else {
      var l := ItemsSound(v);
      var rest := ParseItems(v).value.1;
      assert rest == [CLOSE_ARRAY] + rest[1..];
      d := ArrDoc([], l.(before := b + l.before));
      BlankJoin(b, l.before);
      ItemsMoved(l, b, rest);
    }
  }

  lemma BlankJoin(a: Text, b: Text)
    requires Blank(a) && Blank(b)
    ensures Blank(a + b)
  {
  }

  lemma ItemsMoved(l: ItemDocs, b: Text, rest: Text)
    requires ItemsOk(l) && l.ItemDoc? && Blank(b) && Blank(b + l.before)
    ensures ItemDocsTo(l.(before := b + l.before), rest) == b + ItemDocsTo(l, rest)
    ensures ItemMeanings(l.(before := b + l.before)) == ItemMeanings(l)
  {
    Assoc(b, l.before, DocTo(l.value, l.after + if l.rest == NoItemDoc then rest else [COMMA] + ItemDocsTo(l.rest, rest)));
  }

  lemma {:induction false} ItemsSound(s: Text) returns (l: ItemDocs)
    requires ParseItems(s).Some?
    ensures ItemsOk(l) && l.ItemDoc? && ItemDocsTo(l, ParseItems(s).value.1) == s && ItemMeanings(l) == ParseItems(s).value.0
    decreases |s|, 2
  {
    var before, d, after := ValueBetween(s);
    var next := Skip(ParseValue(Skip(s)).value.1);
    var more := NoItemDoc;
    if Peek(next, 0) == COMMA {
      more := ItemsSound(next[1..]);
      assert next == [COMMA] + next[1..];
    }
    l := ItemDoc(before, d, after, more);
  }

  lemma {:induction false} ObjectSound(s: Text) returns (d: Doc)
    requires ParseObject(s).Some?
    ensures DocOk(d) && DocTo(d, ParseObject(s).value.1) == [OPEN_OBJECT] + s && Meaning(d) == ParseObject(s).value.0
    decreases |s|, 3
  {
    var b := SkipSound(s);
    var v := Skip(s);
    if Peek(v, 0) == CLOSE_OBJECT {
      d := ObjDoc(b, NoMemberDoc);
      assert v == [CLOSE_OBJECT] + v[1..];
    } else {
      var l := MembersSound(v);
      var rest := ParseMembers(v).value.1;
      assert rest == [CLOSE_OBJECT] + rest[1..];
      d := BracesSound(l, b, rest[1..]);
    }
  }

  /** Blanks behind the brace are blanks before the first name. */
  lemma BracesSound(l: MemberDocs, b: Text, rest: Text) returns (d: Doc)
    requires MembersOk(l) && l.MemberDoc? && Blank(b)
    ensures DocOk(d) && DocTo(d, rest) == [OPEN_OBJECT] + (b + MemberDocsTo(l, [CLOSE_OBJECT] + rest)) && Meaning(d) == Obj(MemberMeanings(l))
  {
    BlankJoin(b, l.before);
    d := ObjDoc([], l.(before := b + l.before));
    MembersMoved(l, b, [CLOSE_OBJECT] + rest);
  }

  function MemberText(l: MemberDocs, rest: Text): Text
    requires MembersOk(l) && l.MemberDoc?
  {
    var value := DocTo(l.value, l.after + if l.rest == NoMemberDoc then rest else [COMMA] + MemberDocsTo(l.rest, rest));
    StringTo(l.name, l.mid + ([COLON] + (l.gap + value)))
  }

  lemma MembersMoved(l: MemberDocs, b: Text, rest: Text)
    requires MembersOk(l) && l.MemberDoc? && Blank(b) && Blank(b + l.before)
    ensures MemberDocsTo(l.(before := b + l.before), rest) == b + MemberDocsTo(l, rest)
    ensures MemberMeanings(l.(before := b + l.before)) == MemberMeanings(l)
  {
    Assoc(b, l.before, MemberText(l, rest));
  }

  /** A name with its blanks, before the colon. */
  lemma NameSound(s: Text) returns (before: Text, cs: seq<Char>, mid: Text)
    requires ParseString(Skip(s)).Some? && Peek(Skip(ParseString(Skip(s)).value.1), 0) == COLON
    ensures var name := ParseString(Skip(s)).value;
            && Blank(before) && CharsOk(cs) && Blank(mid) && name.0 == CharsBytes(cs)
            && s == before + StringTo(cs, mid + ([COLON] + Skip(name.1)[1..]))
  {
    before := SkipSound(s);
    var rest := ParseString(Skip(s)).value.1;
    var open;
    cs, open := StringSound(Skip(s));
    mid := SkipSound(rest);
    var colon := Skip(rest);
    assert colon == [COLON] + colon[1..];
    assert !open;
  }

  /** A value with its blanks. */
  lemma {:induction false} ValueBetween(s: Text) returns (gap: Text, d: Doc, after: Text)
    requires ParseValue(Skip(s)).Some?
    ensures var v := ParseValue(Skip(s)).value;
            Blank(gap) && DocOk(d) && Blank(after) && v.0 == Meaning(d) && s == gap + DocTo(d, after + Skip(v.1))
    decreases |s|, 1
  {
    gap := SkipSound(s);
    d := ValueSound(Skip(s));
    after := SkipSound(ParseValue(Skip(s)).value.1);
  }

  lemma {:induction false} MembersSound(s: Text) returns (l: MemberDocs)
    requires ParseMembers(s).Some?
    ensures MembersOk(l) && l.MemberDoc? && MemberDocsTo(l, ParseMembers(s).value.1) == s && MemberMeanings(l) == ParseMembers(s).value.0
    decreases |s|, 2
  {
    var before, cs, mid := NameSound(s);
    var t := Skip(ParseString(Skip(s)).value.1)[1..];
    var gap, d, after := ValueBetween(t);
    var next := Skip(ParseValue(Skip(t)).value.1);
    var more := NoMemberDoc;
    if Peek(next, 0) == COMMA {
      more := MembersSound(next[1..]);
      assert next == [COMMA] + next[1..];
    }
    l := MemberDoc(before, cs, mid, gap, d, after, more);
  }

  /** What `cJSON_Parse` accepts is blanks and a text of the grammar, and it gives that text its meaning. */
  lemma ParseSound(s: Text)
    requires Parse(s).Some?
    ensures exists b: Text, d: Doc :: Blank(b) && DocOk(d) && s == b + DocTo(d, Parse(s).value.1) && Meaning(d) == Parse(s).value.0
  {
    var b := SkipSound(s);
    var d := ValueSound(Skip(s));
    assert Blank(b) && DocOk(d) && s == b + DocTo(d, Parse(s).value.1) && Meaning(d) == Parse(s).value.0;
  }
}
