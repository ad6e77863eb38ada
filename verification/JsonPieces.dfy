/** Printed texts in pieces: what is printed for a value does not depend on what follows it. */
module JsonPieces {
  import opened Common
  import opened JsonModel

  // ---------------------------------------------------------------- texts in pieces

  lemma {:induction false} EscapeJoin(s: Text, rest: Text)
    ensures EscapeTo(s, rest) == EscapeTo(s, []) + rest
  {
    if s != [] {
      EscapeJoin(s[1..], rest);
      assert Escape(s[0]) + (EscapeTo(s[1..], []) + rest) == (Escape(s[0]) + EscapeTo(s[1..], [])) + rest;
    }
  }

  lemma QuoteJoin(s: Text, rest: Text)
    ensures QuoteTo(s, rest) == QuoteTo(s, []) + rest
  {
    EscapeJoin(s, [QUOTE] + rest);
    EscapeJoin(s, [QUOTE]);
    assert [QUOTE] + [] == [QUOTE];
    assert [QUOTE] + (EscapeTo(s, []) + ([QUOTE] + rest)) == ([QUOTE] + (EscapeTo(s, []) + [QUOTE])) + rest;
  }

  lemma {:induction false} DecimalJoin(v: nat, rest: Text)
    ensures DecimalTo(v, rest) == DecimalTo(v, []) + rest
    decreases v
  {
    if v >= 10 {
      var d: Text := [48 + v % 10];
      assert d + [] == d;
      DecimalJoin(v / 10, d + rest);
      DecimalJoin(v / 10, d);
      assert DecimalTo(v / 10, []) + (d + rest) == (DecimalTo(v / 10, []) + d) + rest;
    }
  }

  lemma {:induction false} TabsJoin(n: int, rest: Text)
    ensures TabsTo(n, rest) == TabsTo(n, []) + rest && |TabsTo(n, [])| == (if n <= 0 then 0 else n)
    decreases n
  {
    if n > 0 {
      TabsJoin(n - 1, rest);
      assert [TAB] + (TabsTo(n - 1, []) + rest) == ([TAB] + TabsTo(n - 1, [])) + rest;
    }
  }

  lemma IndentJoin(fmt: bool, n: int, rest: Text)
    ensures Indent(fmt, n, rest) == Indent(fmt, n, []) + rest
    ensures |Indent(fmt, n, [])| == if fmt && n > 0 then n else 0
  {
    TabsJoin(n, rest);
  }

  lemma ExtraJoin(fmt: bool, c: Byte, a: Text, rest: Text)
    ensures Extra(fmt, c, a + rest) == Extra(fmt, c, a) + rest
  {
    assert [c] + (a + rest) == ([c] + a) + rest;
  }

  /** A printed value is the same whatever follows it. */
  lemma {:induction false} PrintJoin(t: Json, depth: nat, fmt: bool, rest: Text)
    ensures PrintTo(t, depth, fmt, rest) == PrintTo(t, depth, fmt, []) + rest
    decreases t
  {
    match t
    case Num(m, _) => if m < 0 { DecimalJoin(-m, rest); } else { DecimalJoin(m, rest); }
    case Str(s) => QuoteJoin(s, rest);
    case Arr(items) => ArrayJoin(items, depth, fmt, rest);
    case Obj(members) => ObjectJoin(members, depth, fmt, rest);
    case _ =>
  }

  lemma {:induction false} ArrayJoin(items: Items, depth: nat, fmt: bool, rest: Text)
    ensures PrintTo(Arr(items), depth, fmt, rest) == PrintTo(Arr(items), depth, fmt, []) + rest
    decreases items, 1
  {
    if items != NoItem {
      var close: Text := [CLOSE_ARRAY];
      assert close + [] == close;
      ItemsJoin(items, depth + 1, fmt, close + rest);
      ItemsJoin(items, depth + 1, fmt, close);
      var inner := ItemsTo(items, depth + 1, fmt, []);
      assert [OPEN_ARRAY] + (inner + (close + rest)) == ([OPEN_ARRAY] + (inner + close)) + rest;
    }
  }

  lemma {:induction false} ItemsJoin(l: Items, depth: nat, fmt: bool, rest: Text)
    ensures ItemsTo(l, depth, fmt, rest) == ItemsTo(l, depth, fmt, []) + rest
    decreases l, 0
  {
    match l
    case NoItem =>
    case Item(t, more) =>
      if more == NoItem {
        PrintJoin(t, depth, fmt, rest);
      } else {
        ItemsJoin(more, depth, fmt, rest);
        var tail := ItemsTo(more, depth, fmt, []);
        ExtraJoin(fmt, SPACE, tail, rest);
        var sep := [COMMA] + Extra(fmt, SPACE, tail);
        assert [COMMA] + (Extra(fmt, SPACE, tail) + rest) == sep + rest;
        PrintJoin(t, depth, fmt, sep + rest);
        PrintJoin(t, depth, fmt, sep);
        assert PrintTo(t, depth, fmt, []) + (sep + rest) == (PrintTo(t, depth, fmt, []) + sep) + rest;
      }
  }

  lemma IndentAround(fmt: bool, n: int, a: Text, rest: Text)
    ensures Indent(fmt, n, a + rest) == Indent(fmt, n, a) + rest
  {
    IndentJoin(fmt, n, a + rest);
    IndentJoin(fmt, n, a);
    Assoc(Indent(fmt, n, []), a, rest);
  }

  lemma {:induction false} ObjectJoin(members: Members, depth: nat, fmt: bool, rest: Text)
    ensures PrintTo(Obj(members), depth, fmt, rest) == PrintTo(Obj(members), depth, fmt, []) + rest
    decreases members, 2
  {
    var close: Text := [CLOSE_OBJECT];
    assert close + [] == close;
    var n := if members == NoMember then depth - 1 else depth;
    IndentAround(fmt, n, close, rest);
    var end := Indent(fmt, n, close);
    if members == NoMember {
      ExtraJoin(fmt, NEWLINE, end, rest);
      Assoc([OPEN_OBJECT], Extra(fmt, NEWLINE, end), rest);
    } else {
      MembersAround(members, depth + 1, fmt, end, rest);
      var inner := MembersTo(members, depth + 1, fmt, end);
      ExtraJoin(fmt, NEWLINE, inner, rest);
      Assoc([OPEN_OBJECT], Extra(fmt, NEWLINE, inner), rest);
    }
  }

  lemma {:induction false} MembersAround(l: Members, depth: nat, fmt: bool, a: Text, rest: Text)
    ensures MembersTo(l, depth, fmt, a + rest) == MembersTo(l, depth, fmt, a) + rest
    decreases l, 1
  {
    if l == NoMember { return; }
    MembersLine(l, depth, fmt, a + rest);
    MembersLine(l, depth, fmt, a);
    MembersAround(l.rest, depth, fmt, a, rest);
    Assoc(MemberLine(l.name, l.value, l.rest == NoMember, depth, fmt), MembersTo(l.rest, depth, fmt, a), rest);
  }

  function ColonPart(fmt: bool): Text { [COLON] + Extra(fmt, TAB, []) }

  function EndPart(last: bool, fmt: bool): Text { if last then Extra(fmt, NEWLINE, []) else [COMMA] + Extra(fmt, NEWLINE, []) }

  /** A member without what follows it: indentation, name, colon, value, comma and newline. */
  function MemberLine(name: Text, t: Json, last: bool, depth: nat, fmt: bool): Text {
    Indent(fmt, depth, []) + (QuoteTo(name, []) + (ColonPart(fmt) + (PrintTo(t, depth, fmt, []) + EndPart(last, fmt))))
  }

  lemma EndJoin(last: bool, fmt: bool, rest: Text)
    ensures (if last then Extra(fmt, NEWLINE, rest) else [COMMA] + Extra(fmt, NEWLINE, rest)) == EndPart(last, fmt) + rest
  {
  }

  lemma ColonJoin(fmt: bool, rest: Text)
    ensures [COLON] + Extra(fmt, TAB, rest) == ColonPart(fmt) + rest
  {
  }

  lemma FiveParts(i: Text, q: Text, c: Text, p: Text, e: Text, rest: Text)
    ensures i + (q + (c + (p + (e + rest)))) == (i + (q + (c + (p + e)))) + rest
  {
    Assoc(p, e, rest);
    Assoc(c, p + e, rest);
    Assoc(q, c + (p + e), rest);
    Assoc(i, q + (c + (p + e)), rest);
  }

  /** The text of members is the line of the first, and then the others. */
  lemma {:induction false} MembersLine(l: Members, depth: nat, fmt: bool, rest: Text)
    requires l.Member?
    ensures MembersTo(l, depth, fmt, rest) ==
            MemberLine(l.name, l.value, l.rest == NoMember, depth, fmt) + MembersTo(l.rest, depth, fmt, rest)
    decreases l, 0
  {
    var more := MembersTo(l.rest, depth, fmt, rest);
    var end := EndPart(l.rest == NoMember, fmt);
    EndJoin(l.rest == NoMember, fmt, more);
    PrintJoin(l.value, depth, fmt, end + more);
    var p := PrintTo(l.value, depth, fmt, []);
    ColonJoin(fmt, p + (end + more));
    QuoteJoin(l.name, ColonPart(fmt) + (p + (end + more)));
    IndentJoin(fmt, depth, QuoteTo(l.name, []) + (ColonPart(fmt) + (p + (end + more))));
    FiveParts(Indent(fmt, depth, []), QuoteTo(l.name, []), ColonPart(fmt), p, end, more);
  }

  // ---------------------------------------------------------------- no zero bytes

  lemma {:induction false} PlainEscape(s: Text, rest: Text)
    requires Plain(s) && Plain(rest)
    ensures Plain(EscapeTo(s, rest))
  {
    if s != [] {
      PlainEscape(s[1..], rest);
      assert Plain(Escape(s[0]));
    }
  }

  lemma PlainQuote(s: Text, rest: Text)
    requires Plain(s) && Plain(rest)
    ensures Plain(QuoteTo(s, rest))
  {
    PlainEscape(s, [QUOTE] + rest);
  }

  lemma {:induction false} PlainDecimal(v: nat, rest: Text)
    requires Plain(rest)
    ensures Plain(DecimalTo(v, rest))
    decreases v
  {
    if v >= 10 { PlainDecimal(v / 10, [48 + v % 10] + rest); }
  }

  lemma {:induction false} PlainTabs(n: int, rest: Text)
    requires Plain(rest)
    ensures Plain(TabsTo(n, rest))
    decreases n
  {
    if n > 0 { PlainTabs(n - 1, rest); }
  }

  lemma PlainIndent(fmt: bool, n: int, rest: Text)
    requires Plain(rest)
    ensures Plain(Indent(fmt, n, rest))
  {
    if fmt { PlainTabs(n, rest); }
  }

  /** A printed text is a C string. */
  lemma {:induction false} PlainPrint(t: Json, depth: nat, fmt: bool, rest: Text)
    requires Printable(t) && Plain(rest)
    ensures Plain(PrintTo(t, depth, fmt, rest))
    decreases t
  {
    match t
    case Num(m, _) => if m < 0 { PlainDecimal(-m, rest); } else { PlainDecimal(m, rest); }
    case Str(s) => PlainQuote(s, rest);
    case Arr(items) => PlainItems(items, depth + 1, fmt, [CLOSE_ARRAY] + rest);
    case Obj(members) =>
      PlainIndent(fmt, depth - 1, [CLOSE_OBJECT] + rest);
      PlainIndent(fmt, depth, [CLOSE_OBJECT] + rest);
      PlainMembers(members, depth + 1, fmt, Indent(fmt, depth, [CLOSE_OBJECT] + rest));
    case _ =>
  }

  lemma {:induction false} PlainItems(l: Items, depth: nat, fmt: bool, rest: Text)
    requires PrintableItems(l) && Plain(rest)
    ensures Plain(ItemsTo(l, depth, fmt, rest))
    decreases l
  {
    if l.Item? {
      PlainItems(l.rest, depth, fmt, rest);
      PlainPrint(l.first, depth, fmt, if l.rest == NoItem then rest else [COMMA] + Extra(fmt, SPACE, ItemsTo(l.rest, depth, fmt, rest)));
    }
  }

  lemma {:induction false} PlainMembers(l: Members, depth: nat, fmt: bool, rest: Text)
    requires PrintableMembers(l) && Plain(rest)
    ensures Plain(MembersTo(l, depth, fmt, rest))
    decreases l
  {
    if l.Member? {
      PlainMembers(l.rest, depth, fmt, rest);
      var after := Extra(fmt, NEWLINE, MembersTo(l.rest, depth, fmt, rest));
      var end := if l.rest == NoMember then after else [COMMA] + after;
      PlainPrint(l.value, depth, fmt, end);
      var value := PrintTo(l.value, depth, fmt, end);
      PlainQuote(l.name, [COLON] + Extra(fmt, TAB, value));
      PlainIndent(fmt, depth, QuoteTo(l.name, [COLON] + Extra(fmt, TAB, value)));
    }
  }

  // ---------------------------------------------------------------- lengths

  lemma {:induction false} DecimalLength(v: nat, k: nat, bound: nat)
    requires v < bound && 0 < k && bound == Ten(k)
    ensures |DecimalTo(v, [])| <= k
    decreases k
  {
    if v >= 10 {
      assert k > 1;
      assert Ten(k) == 10 * Ten(k - 1);
      DecimalLength(v / 10, k - 1, Ten(k - 1));
      DecimalJoin(v / 10, [48 + v % 10] + []);
    }
  }

  /** Room for a number: 21 bytes hold any 32-bit integer and the final zero. */
  lemma NumberFits(m: int)
    requires -0x8000_0000 <= m < 0x8000_0000
    ensures |IntegerTo(m, [])| <= 11
  {
    TenTens();
    DecimalLength(if m < 0 then -m else m, 10, Ten(10));
  }

  /** What `print_array` adds up for its items, and what they take. */
  function ItemsRoom(l: Items, depth: nat, fmt: bool): nat {
    if l == NoItem then 0 else |PrintTo(l.first, depth, fmt, [])| + 2 + (if fmt then 1 else 0) + ItemsRoom(l.rest, depth, fmt)
  }

  lemma {:induction false} ItemsFit(l: Items, depth: nat, fmt: bool)
    ensures |ItemsTo(l, depth, fmt, [])| <= ItemsRoom(l, depth, fmt)
  {
    if l.Item? {
      ItemsFit(l.rest, depth, fmt);
      PrintJoin(l.first, depth, fmt, if l.rest == NoItem then [] else [COMMA] + Extra(fmt, SPACE, ItemsTo(l.rest, depth, fmt, [])));
    }
  }

  /** What `print_object` adds up for its members, and what they take. */
  function MembersRoom(l: Members, depth: nat, fmt: bool): nat {
    if l == NoMember then 0
    else |PrintTo(l.value, depth, fmt, [])| + |QuoteTo(l.name, [])| + 2 + (if fmt then 2 + depth else 0) + MembersRoom(l.rest, depth, fmt)
  }

  lemma {:induction false} MembersFit(l: Members, depth: nat, fmt: bool)
    ensures |MembersTo(l, depth, fmt, [])| <= MembersRoom(l, depth, fmt)
  {
    if l.Member? {
      MembersFit(l.rest, depth, fmt);
      MembersLine(l, depth, fmt, []);
      IndentJoin(fmt, depth, []);
    }
  }
}
