/** What is printed is a text of the strict grammar that means the tree, so that parsing gives the tree back. */
module JsonRoundTrip {
  import opened Common
  import opened JsonModel
  import opened JsonGrammar

  const SMALL: Caps := [false, false, false, false]

  // ---------------------------------------------------------------- strings and numbers

  function CharOf(b: Byte): Char {
    if Short(b) != 0 then Letter(Short(b)) else if b < 32 then Code(b, SMALL, SMALL) else Raw(b)
  }

  function CharsOf(s: Text): seq<Char> { if s == [] then [] else [CharOf(s[0])] + CharsOf(s[1..]) }

  lemma CharPrinted(b: Byte, rest: Text)
    requires b != 0
    ensures CharStrict(CharOf(b)) && CharTo(CharOf(b), rest) == Escape(b) + rest && CharBytes(CharOf(b)) == [b]
  {
    if Short(b) == 0 && b < 32 {
      assert CharTo(CharOf(b), rest) == [BACKSLASH, 117] + ([48, 48, HexDigit(b / 16), HexDigit(b % 16)] + rest);
    }
  }

  lemma {:induction false} CharsPrinted(s: Text, rest: Text)
    requires Plain(s)
    ensures CharsStrict(CharsOf(s)) && CharsTo(CharsOf(s), rest) == EscapeTo(s, rest) && CharsBytes(CharsOf(s)) == s
  {
    if s != [] {
      var cs := CharsOf(s);
      CharsPrinted(s[1..], rest);
      CharPrinted(s[0], EscapeTo(s[1..], rest));
      assert cs[1..] == CharsOf(s[1..]) && cs[0] == CharOf(s[0]);
      assert [s[0]] + s[1..] == s;
    }
  }

  function DigitsOf(v: nat): seq<nat> { if v < 10 then [v] else DigitsOf(v / 10) + [v % 10] }

  lemma {:induction false} DigitsJoin(a: seq<nat>, d: nat, rest: Text)
    requires DigitsOk(a) && d < 10
    ensures DigitsOk(a + [d]) && DigitsTo(a + [d], rest) == DigitsTo(a, [48 + d] + rest)
  {
    if a == [] {
      assert a + [d] == [d] && [d][1..] == [];
    } else {
      assert (a + [d])[1..] == a[1..] + [d];
      DigitsJoin(a[1..], d, rest);
    }
  }

  lemma {:induction false} DigitsPrinted(v: nat, rest: Text)
    ensures var ds := DigitsOf(v);
            && DigitsOk(ds) && DigitsTo(ds, rest) == DecimalTo(v, rest) && Decimal(ds) == v
            && ds != [] && (ds[0] == 0 ==> v == 0)
    decreases v
  {
    var ds := DigitsOf(v);
    if v < 10 {
      assert ds[1..] == [] && ds[..0] == [];
    } else {
      DigitsPrinted(v / 10, [48 + v % 10] + rest);
      DigitsJoin(DigitsOf(v / 10), v % 10, rest);
      assert ds[..|ds| - 1] == DigitsOf(v / 10);
    }
  }

  function NumberOf(m: int): Number { Number(m < 0, DigitsOf(if m < 0 then -m else m), [], NoExp) }

  lemma NumberPrinted(m: int, rest: Text)
    ensures NumberStrict(NumberOf(m)) && NumberTo(NumberOf(m), rest) == IntegerTo(m, rest) && NumberValue(NumberOf(m)) == Num(m, 0)
  {
    var n := NumberOf(m);
    DigitsPrinted(if m < 0 then -m else m, rest);
    assert n.whole + [] == n.whole;
    assert [] + DigitsTo(n.whole, rest) == DigitsTo(n.whole, rest);
  }

  // ---------------------------------------------------------------- values

  /** The blanks of a formatted text: one, and a line break with tabs. */
  function OneBlank(fmt: bool, c: Byte): Text { if fmt then [c] else [] }

  function Tabs(n: int): Text { if n <= 0 then [] else [TAB] + Tabs(n - 1) }

  function Break(fmt: bool, n: int): Text { if fmt then [NEWLINE] + Tabs(n) else [] }

  /** A printed tree as a text of the grammar. */
  function DocOf(t: Json, depth: nat, fmt: bool): Doc
    decreases t
  {
    match t
    case Null => NullDoc
    case False => FalseDoc
    case True => TrueDoc
    case Num(m, _) => NumDoc(NumberOf(m))
    case Str(s) => StrDoc(CharsOf(s), false)
    case Arr(items) => ArrDoc([], ItemsOf(items, depth + 1, fmt, []))
    case Obj(members) => ObjDoc(Break(fmt, depth - 1), MembersOf(members, depth + 1, fmt))
  }

  function ItemsOf(l: Items, depth: nat, fmt: bool, before: Text): ItemDocs
    decreases l
  {
    match l
    case NoItem => NoItemDoc
    case Item(t, more) => ItemDoc(before, DocOf(t, depth, fmt), [], ItemsOf(more, depth, fmt, OneBlank(fmt, SPACE)))
  }

  function MembersOf(l: Members, depth: nat, fmt: bool): MemberDocs
    decreases l
  {
    match l
    case NoMember => NoMemberDoc
    case Member(name, t, more) =>
      MemberDoc(Break(fmt, depth), CharsOf(name), [], OneBlank(fmt, TAB), DocOf(t, depth, fmt),
                if more == NoMember then Break(fmt, depth - 1) else [], MembersOf(more, depth, fmt))
  }

  lemma {:induction false} TabsPrinted(n: int, rest: Text)
    ensures Blank(Tabs(n)) && Tabs(n) + rest == TabsTo(n, rest)
    decreases n
  {
    if n > 0 {
      TabsPrinted(n - 1, rest);
      Assoc([TAB], Tabs(n - 1), rest);
    } else {
      assert [] + rest == rest;
    }
  }

  lemma BreakPrinted(fmt: bool, n: int, rest: Text)
    ensures Blank(Break(fmt, n)) && Break(fmt, n) + rest == Extra(fmt, NEWLINE, Indent(fmt, n, rest))
  {
    TabsPrinted(n, rest);
    if fmt { Assoc([NEWLINE], Tabs(n), rest); } else { assert [] + rest == rest; }
  }

  lemma BlankPrinted(fmt: bool, c: Byte, rest: Text)
    requires 0 < c <= 32
    ensures Blank(OneBlank(fmt, c)) && OneBlank(fmt, c) + rest == Extra(fmt, c, rest)
  {
    if !fmt { assert [] + rest == rest; }
  }

  /** A printed tree is a text of the strict grammar, and means the tree. */
  lemma {:induction false} ValuePrinted(t: Json, depth: nat, fmt: bool, rest: Text)
    requires Printable(t)
    ensures var d := DocOf(t, depth, fmt); DocStrict(d) && DocTo(d, rest) == PrintTo(t, depth, fmt, rest) && Meaning(d) == t
    decreases t
  {
    match t
    case Num(m, _) => NumberPrinted(m, rest);
    case Str(s) => CharsPrinted(s, [QUOTE] + rest);
    case Arr(items) => ArrayPrinted(items, depth, fmt, rest);
    case Obj(members) => ObjectPrinted(members, depth, fmt, rest);
    case _ =>
  }

  lemma {:induction false} ArrayPrinted(items: Items, depth: nat, fmt: bool, rest: Text)
    requires PrintableItems(items)
    ensures var d := DocOf(Arr(items), depth, fmt);
            DocStrict(d) && DocTo(d, rest) == PrintTo(Arr(items), depth, fmt, rest) && Meaning(d) == Arr(items)
    decreases items, 1
  {
    var close := [CLOSE_ARRAY] + rest;
    ItemsPrinted(items, depth + 1, fmt, [], close);
    assert [] + close == close && [] + ItemsTo(items, depth + 1, fmt, close) == ItemsTo(items, depth + 1, fmt, close);
    assert [OPEN_ARRAY] + close == [OPEN_ARRAY, CLOSE_ARRAY] + rest;
  }

  lemma {:induction false} ItemsPrinted(l: Items, depth: nat, fmt: bool, before: Text, rest: Text)
    requires PrintableItems(l) && Blank(before)
    ensures var d := ItemsOf(l, depth, fmt, before);
            && ItemsStrict(d) && ItemMeanings(d) == l
            && ItemDocsTo(d, rest) == if l == NoItem then rest else before + ItemsTo(l, depth, fmt, rest)
    decreases l, 0
  {
    if l.Item? {
      BlankPrinted(fmt, SPACE, ItemsTo(l.rest, depth, fmt, rest));
      ItemsPrinted(l.rest, depth, fmt, OneBlank(fmt, SPACE), rest);
      var tail := if l.rest == NoItem then rest else [COMMA] + Extra(fmt, SPACE, ItemsTo(l.rest, depth, fmt, rest));
      ValuePrinted(l.first, depth, fmt, tail);
      assert [] + tail == tail;
    }
  }

  lemma {:induction false} ObjectPrinted(members: Members, depth: nat, fmt: bool, rest: Text)
    requires PrintableMembers(members)
    ensures var d := DocOf(Obj(members), depth, fmt);
            DocStrict(d) && DocTo(d, rest) == PrintTo(Obj(members), depth, fmt, rest) && Meaning(d) == Obj(members)
    decreases members, 1
  {
    var close := [CLOSE_OBJECT] + rest;
    BreakPrinted(fmt, depth - 1, close);
    MembersPrinted(members, depth + 1, fmt, close);
  }

  /** Behind the value of a member: a comma and the next one, or what comes before the closing bracket. */
  function AfterMember(more: Members, depth: nat, fmt: bool, rest: Text): Text {
    var after := Extra(fmt, NEWLINE, MembersTo(more, depth, fmt, Indent(fmt, depth - 1, rest)));
    if more == NoMember then after else [COMMA] + after
  }

  lemma {:induction false} MembersPrinted(l: Members, depth: nat, fmt: bool, rest: Text)
    requires PrintableMembers(l) && depth > 0
    ensures var d := MembersOf(l, depth, fmt);
            && MembersStrict(d) && MemberMeanings(d) == l
            && MemberDocsTo(d, rest)
               == if l == NoMember then rest else Extra(fmt, NEWLINE, MembersTo(l, depth, fmt, Indent(fmt, depth - 1, rest)))
    decreases l, 0
  {
    if l.Member? {
      var after := AfterMember(l.rest, depth, fmt, rest);
      MembersPrinted(l.rest, depth, fmt, rest);
      BreakPrinted(fmt, depth - 1, rest);
      assert l.rest != NoMember ==> [] + after == after;
      ValuePrinted(l.value, depth, fmt, after);
      var value := PrintTo(l.value, depth, fmt, after);
      BlankPrinted(fmt, TAB, value);
      var colon := [COLON] + Extra(fmt, TAB, value);
      assert [] + colon == colon;
      CharsPrinted(l.name, [QUOTE] + colon);
      BreakPrinted(fmt, depth, QuoteTo(l.name, colon));
    }
  }

  /** Every printable tree comes back from its text, formatted or not, with nothing left over. */
  lemma RoundTrip(t: Json, fmt: bool)
    requires Printable(t)
    ensures Parse(Print(t, fmt)) == Some((t, []))
  {
    ValuePrinted(t, 0, fmt, []);
    ValueBack(DocOf(t, 0, fmt), []);
    DocFirst(DocOf(t, 0, fmt), []);
  }
}
