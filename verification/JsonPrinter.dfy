/** The unbuffered printer of cJSON, on arrays of the size it computes: every write is within them, and the text is right. */
module JsonPrinter {
  import opened Common
  import opened JsonModel
  import opened JsonPieces

  /** The array holds the text as a C string. */
  ghost predicate Holds(a: array<Byte>, text: Text)
    reads a
  {
    |text| < a.Length && a[..|text|] == text && a[|text|] == 0
  }

  /** Copies bytes to the place `ptr` and returns the place behind them. */
  method Put(out: array<Byte>, ptr: nat, s: Text) returns (p: nat)
    requires ptr + |s| <= out.Length
    modifies out
    ensures p == ptr + |s| && out[..p] == old(out[..ptr]) + s
  {
    p := ptr;
    ghost var i := 0;
    while p < ptr + |s|
      invariant i <= |s| && p == ptr + i && out[..p] == old(out[..ptr]) + s[..i]
    {
      out[p] := s[p - ptr];
      p, i := p + 1, i + 1;
    }
  }

  /** Copies bytes and a zero behind them, which the next write may cover, as `strcpy` does. */
  method PutEnded(out: array<Byte>, ptr: nat, s: Text) returns (p: nat)
    requires ptr + |s| < out.Length
    modifies out
    ensures p == ptr + |s| && out[..p] == old(out[..ptr]) + s
  {
    p := Put(out, ptr, s);
    ghost var done := out[..p];
    out[p] := 0;
    assert out[..p] == done;
  }

  /** Ends the string at `ptr`. */
  method End(out: array<Byte>, ptr: nat, ghost text: Text)
    requires ptr < out.Length && out[..ptr] == text
    modifies out
    ensures Holds(out, text)
  {
    out[ptr] := 0;
  }

  method Strlen(a: array<Byte>, ghost text: Text) returns (n: nat)
    requires Holds(a, text) && Plain(text)
    ensures n == |text|
  {
    n := 0;
    assert a[..|text|] == text;
    while a[n] != 0
      invariant n <= |text|
      decreases |text| - n
    {
      assert n != |text|;
      n := n + 1;
    }
  }

  /** `strdup` of a literal */
  method Duplicate(s: Text) returns (out: array<Byte>)
    ensures fresh(out) && out.Length == |s| + 1 && Holds(out, s)
  {
    out := new Byte[|s| + 1];
    var p := Put(out, 0, s);
    End(out, p, s);
  }

  // ---------------------------------------------------------------- print_string_ptr

  predicate Special(b: Byte) { (0 < b < 32) || b == QUOTE || b == BACKSLASH }

  lemma {:induction false} NothingEscaped(s: Text)
    requires Plain(s) && forall i :: 0 <= i < |s| ==> !Special(s[i])
    ensures EscapeTo(s, []) == s
  {
    if s != [] {
      NothingEscaped(s[1..]);
      assert s[0] != 0 && !Special(s[0]) && Escape(s[0]) == [s[0]];
      assert s == [s[0]] + s[1..];
    }
  }

  lemma {:induction false} EscapeSnoc(s: Text, i: nat)
    requires i < |s|
    ensures EscapeTo(s[..i + 1], []) == EscapeTo(s[..i], []) + Escape(s[i])
  {
    if i == 0 {
      assert s[..1] == [s[0]] && s[..0] == [];
      assert [s[0]][1..] == [];
    } else {
      EscapeSnoc(s[1..], i - 1);
      assert s[..i + 1][1..] == s[1..][..i] && s[..i][1..] == s[1..][..i - 1];
      assert Escape(s[0]) + (EscapeTo(s[1..][..i - 1], []) + Escape(s[i])) == (Escape(s[0]) + EscapeTo(s[1..][..i - 1], [])) + Escape(s[i]);
    }
  }

  /** The second pass over the string: one more byte for a short escape, five more for a long one. */
  method EscapedLength(s: Text) returns (len: nat)
    requires Plain(s)
    ensures len == |EscapeTo(s, [])|
  {
    len := 0;
    var i := 0;
    while i < |s|
      invariant i <= |s| && len == |EscapeTo(s[..i], [])|
    {
      EscapeSnoc(s, i);
      len := len + 1;
      if Short(s[i]) != 0 {
        len := len + 1;
      } else if s[i] < 32 {
        len := len + 5;
      }
      i := i + 1;
    }
    assert s[..i] == s;
  }

  method NeedsEscape(s: Text) returns (flag: bool)
    ensures flag == exists i :: 0 <= i < |s| && Special(s[i])
  {
    flag := false;
    var i := 0;
    while i < |s|
      invariant i <= |s| && flag == exists j :: 0 <= j < i && Special(s[j])
    {
      flag := flag || Special(s[i]);
      i := i + 1;
    }
  }

  /** One character; `sprintf`, which writes the long escapes, ends its string, too. */
  method PutEscape(out: array<Byte>, ptr: nat, b: Byte) returns (p: nat)
    requires b != 0 && ptr + |Escape(b)| < out.Length
    modifies out
    ensures p == ptr + |Escape(b)| && out[..p] == old(out[..ptr]) + Escape(b)
  {
    if b < 32 && Short(b) == 0 {
      p := PutEnded(out, ptr, Escape(b));
    } else {
      p := Put(out, ptr, Escape(b));
    }
  }

  /** The writing pass, into room for exactly the escaped bytes, two quotes and the final zero. */
  method WriteEscaped(s: Text, out: array<Byte>)
    requires Plain(s) && out.Length == |EscapeTo(s, [])| + 3
    modifies out
    ensures Holds(out, QuoteTo(s, []))
  {
    var ptr := Put(out, 0, [QUOTE]);
    var i := 0;
    while i < |s|
      invariant i <= |s| && ptr == 1 + |EscapeTo(s[..i], [])| <= out.Length && out[..ptr] == [QUOTE] + EscapeTo(s[..i], [])
    {
      EscapeSnoc(s, i);
      EscapeGrows(s, i + 1);
      ptr := PutEscape(out, ptr, s[i]);
      i := i + 1;
    }
    assert s[..i] == s;
    QuoteText(s);
    ptr := Put(out, ptr, [QUOTE]);
    End(out, ptr, QuoteTo(s, []));
  }

  lemma EscapeGrows(s: Text, i: nat)
    requires i <= |s|
    ensures |EscapeTo(s[..i], [])| <= |EscapeTo(s, [])|
    decreases |s| - i
  {
    if i < |s| {
      EscapeSnoc(s, i);
      EscapeGrows(s, i + 1);
    } else {
      assert s[..i] == s;
    }
  }

  lemma QuoteText(s: Text)
    ensures QuoteTo(s, []) == [QUOTE] + EscapeTo(s, []) + [QUOTE] && |QuoteTo(s, [])| == |EscapeTo(s, [])| + 2
  {
    EscapeJoin(s, [QUOTE] + []);
  }

  /** `print_string_ptr`: both paths take exactly the bytes they allocate. */
  method PrintString(s: Text) returns (out: array<Byte>)
    requires Plain(s)
    ensures fresh(out) && out.Length == |QuoteTo(s, [])| + 1 && Holds(out, QuoteTo(s, []))
  {
    QuoteText(s);
    var flag := NeedsEscape(s);
    if !flag {
      NothingEscaped(s);
      out := new Byte[|s| + 3];
      var ptr := Put(out, 0, [QUOTE]);
      ptr := PutEnded(out, ptr, s);
      ptr := Put(out, ptr, [QUOTE]);
      End(out, ptr, QuoteTo(s, []));
    } else {
      var len := EscapedLength(s);
      out := new Byte[len + 3];
      WriteEscaped(s, out);
    }
  }

  // ---------------------------------------------------------------- print_number

  method PrintNumber(m: int) returns (out: array<Byte>)
    requires -0x8000_0000 <= m < 0x8000_0000
    ensures fresh(out) && Holds(out, IntegerTo(m, []))
  {
    NumberFits(m);
    if m == 0 {
      out := new Byte[2];
    } else {
      out := new Byte[21];
    }
    var ptr := Put(out, 0, IntegerTo(m, []));
    End(out, ptr, IntegerTo(m, []));
  }

  // ---------------------------------------------------------------- print_value

  /** `print_value` for trees of 32-bit integers and strings without zero bytes */
  method PrintValue(t: Json, depth: nat, fmt: bool) returns (out: array<Byte>)
    requires Printable(t)
    ensures fresh(out) && Holds(out, PrintTo(t, depth, fmt, []))
    decreases t, 0
  {
    match t
    case Null => assert NULL_TEXT + [] == NULL_TEXT; out := Duplicate(NULL_TEXT);
    case False => assert FALSE_TEXT + [] == FALSE_TEXT; out := Duplicate(FALSE_TEXT);
    case True => assert TRUE_TEXT + [] == TRUE_TEXT; out := Duplicate(TRUE_TEXT);
    case Num(m, _) => out := PrintNumber(m);
    case Str(s) => out := PrintString(s);
    case Arr(items) => out := PrintArray(items, depth, fmt);
    case Obj(members) => out := PrintObject(members, depth, fmt);
  }

  /** The texts of the children of an array. */
  function ItemTexts(l: Items, depth: nat, fmt: bool): (r: seq<Text>)
    ensures |r| == 0 <==> l == NoItem
  {
    if l == NoItem then [] else [PrintTo(l.first, depth, fmt, [])] + ItemTexts(l.rest, depth, fmt)
  }

  /** The first texts and lengths are collected, those of `child` are to come. */
  ghost predicate ItemsSoFar(entries: seq<Text>, len: nat, child: Items, items: Items, depth: nat, fmt: bool) {
    && entries + ItemTexts(child, depth, fmt) == ItemTexts(items, depth, fmt)
    && len + ItemsRoom(child, depth, fmt) == 5 + ItemsRoom(items, depth, fmt)
  }

  lemma ItemsNext(entries: seq<Text>, len: nat, child: Items, items: Items, depth: nat, fmt: bool)
    requires ItemsSoFar(entries, len, child, items, depth, fmt) && child.Item?
    ensures var text := PrintTo(child.first, depth, fmt, []);
            ItemsSoFar(entries + [text], len + |text| + 2 + (if fmt then 1 else 0), child.rest, items, depth, fmt)
  {
    var (text, more) := (PrintTo(child.first, depth, fmt, []), ItemTexts(child.rest, depth, fmt));
    assert entries + ([text] + more) == (entries + [text]) + more;
  }

  method PrintChild(t: Json, depth: nat, fmt: bool) returns (v: Text)
    requires Printable(t)
    ensures v == PrintTo(t, depth, fmt, [])
    decreases t, 1
  {
    var ret := PrintValue(t, depth, fmt);
    PlainPrint(t, depth, fmt, []);
    var n := Strlen(ret, PrintTo(t, depth, fmt, []));
    v := ret[..n];
  }

  /** The children of an array, printed one by one, and the length added up for them. */
  method PrintItems(items: Items, depth: nat, fmt: bool) returns (entries: seq<Text>, len: nat)
    requires PrintableItems(items)
    ensures entries == ItemTexts(items, depth, fmt) && len == 5 + ItemsRoom(items, depth, fmt)
    decreases items, 0
  {
    entries, len := [], 5;
    var child := items;
    while child != NoItem
      invariant (child == items || child < items) && PrintableItems(child)
      invariant ItemsSoFar(entries, len, child, items, depth, fmt)
      decreases child
    {
      ItemsNext(entries, len, child, items, depth, fmt);
      var ret := PrintChild(child.first, depth, fmt);
      entries := entries + [ret];
      len := len + |ret| + 2 + if fmt then 1 else 0;
      child := child.rest;
    }
  }

  lemma FirstItem(l: Items, depth: nat, fmt: bool)
    requires l.Item?
    ensures ItemsTo(l, depth, fmt, []) ==
            PrintTo(l.first, depth, fmt, []) +
            (if l.rest == NoItem then [] else [COMMA] + Extra(fmt, SPACE, []) + ItemsTo(l.rest, depth, fmt, []))
  {
    var more := ItemsTo(l.rest, depth, fmt, []);
    var sep := if l.rest == NoItem then [] else [COMMA] + Extra(fmt, SPACE, more);
    PrintJoin(l.first, depth, fmt, sep);
    assert [COMMA] + Extra(fmt, SPACE, more) == [COMMA] + Extra(fmt, SPACE, []) + more;
  }

  /** The composing loop of `print_array`: entries and separators between the brackets. */
  method ComposeItems(out: array<Byte>, start: nat, entries: seq<Text>, fmt: bool, ghost items: Items, ghost depth: nat) returns (ptr: nat)
    requires entries == ItemTexts(items, depth, fmt) && start + |ItemsTo(items, depth, fmt, [])| < out.Length
    modifies out
    ensures ptr == start + |ItemsTo(items, depth, fmt, [])| && out[..ptr] == old(out[..start]) + ItemsTo(items, depth, fmt, [])
  {
    ptr := start;
    ghost var l := items;
    var i := 0;
    ghost var before, all := out[..start], ItemsTo(items, depth, fmt, []);
    assert before + all == out[..ptr] + ItemsTo(l, depth, fmt, []);
    while i < |entries|
      invariant i <= |entries| && entries[i..] == ItemTexts(l, depth, fmt) && ptr < out.Length
      invariant out[..ptr] + ItemsTo(l, depth, fmt, []) == before + all
      decreases |entries| - i
    {
      FirstItem(l, depth, fmt);
      ghost var done, more := out[..ptr], ItemsTo(l.rest, depth, fmt, []);
      assert entries[i..][0] == entries[i] && entries[i..][1..] == entries[i + 1..];
      PrefixLength(done, ItemsTo(l, depth, fmt, []), before, all);
      ptr := Put(out, ptr, entries[i]);
      if i != |entries| - 1 {
        ptr := PutEnded(out, ptr, [COMMA] + Extra(fmt, SPACE, []));
        Assoc(done, entries[i], [COMMA] + Extra(fmt, SPACE, []));
        FourParts(done, entries[i], [COMMA] + Extra(fmt, SPACE, []), more);
      }
      l := l.rest;
      i := i + 1;
    }
  }

  lemma PrefixLength(a: Text, b: Text, c: Text, d: Text)
    requires a + b == c + d
    ensures |a| + |b| == |c| + |d|
  {
    assert |a + b| == |c + d|;
  }

  lemma ArrayText(items: Items, depth: nat, fmt: bool)
    requires items.Item?
    ensures PrintTo(Arr(items), depth, fmt, []) == [OPEN_ARRAY] + ItemsTo(items, depth + 1, fmt, []) + [CLOSE_ARRAY]
  {
    assert [CLOSE_ARRAY] + [] == [CLOSE_ARRAY];
    ItemsJoin(items, depth + 1, fmt, [CLOSE_ARRAY]);
    Assoc([OPEN_ARRAY], ItemsTo(items, depth + 1, fmt, []), [CLOSE_ARRAY]);
  }

  /** `print_array` */
  method PrintArray(items: Items, depth: nat, fmt: bool) returns (out: array<Byte>)
    requires PrintableItems(items)
    ensures fresh(out) && Holds(out, PrintTo(Arr(items), depth, fmt, []))
    decreases items, 1
  {
    if items == NoItem {
      out := Duplicate([OPEN_ARRAY, CLOSE_ARRAY]);
      assert [OPEN_ARRAY, CLOSE_ARRAY] + [] == [OPEN_ARRAY, CLOSE_ARRAY];
      return;
    }
    var entries, len := PrintItems(items, depth + 1, fmt);
    ItemsFit(items, depth + 1, fmt);
    out := new Byte[len];
    var ptr := PutEnded(out, 0, [OPEN_ARRAY]);
    ptr := ComposeItems(out, ptr, entries, fmt, items, depth + 1);
    ptr := Put(out, ptr, [CLOSE_ARRAY]);
    ArrayText(items, depth, fmt);
    End(out, ptr, PrintTo(Arr(items), depth, fmt, []));
  }

  // ---------------------------------------------------------------- print_object

  function NameTexts(l: Members): (r: seq<Text>)
    ensures |r| == 0 <==> l == NoMember
  {
    if l == NoMember then [] else [QuoteTo(l.name, [])] + NameTexts(l.rest)
  }

  function ValueTexts(l: Members, depth: nat, fmt: bool): (r: seq<Text>)
    ensures |r| == |NameTexts(l)|
  {
    if l == NoMember then [] else [PrintTo(l.value, depth, fmt, [])] + ValueTexts(l.rest, depth, fmt)
  }

  method PrintName(name: Text) returns (n: Text)
    requires Plain(name)
    ensures n == QuoteTo(name, [])
  {
    var str := PrintString(name);
    PlainQuote(name, []);
    var a := Strlen(str, QuoteTo(name, []));
    n := str[..a];
  }

  ghost predicate MembersSoFar(names: seq<Text>, entries: seq<Text>, len: nat, child: Members, members: Members, depth: nat, fmt: bool) {
    && names + NameTexts(child) == NameTexts(members)
    && entries + ValueTexts(child, depth, fmt) == ValueTexts(members, depth, fmt)
    && len + MembersRoom(child, depth, fmt) == 7 + (if fmt then depth else 0) + MembersRoom(members, depth, fmt)
  }

  lemma MembersNext(names: seq<Text>, entries: seq<Text>, len: nat, child: Members, members: Members, depth: nat, fmt: bool)
    requires MembersSoFar(names, entries, len, child, members, depth, fmt) && child.Member?
    ensures var (n, v) := (QuoteTo(child.name, []), PrintTo(child.value, depth, fmt, []));
            MembersSoFar(names + [n], entries + [v], len + |v| + |n| + 2 + (if fmt then 2 + depth else 0), child.rest, members, depth, fmt)
  {
    var (n, v) := (QuoteTo(child.name, []), PrintTo(child.value, depth, fmt, []));
    assert names + ([n] + NameTexts(child.rest)) == (names + [n]) + NameTexts(child.rest);
    assert entries + ([v] + ValueTexts(child.rest, depth, fmt)) == (entries + [v]) + ValueTexts(child.rest, depth, fmt);
  }

  /** The members of an object, printed one by one, and the length added up for them. */
  method PrintMembers(members: Members, depth: nat, fmt: bool) returns (names: seq<Text>, entries: seq<Text>, len: nat)
    requires PrintableMembers(members)
    ensures names == NameTexts(members) && entries == ValueTexts(members, depth, fmt)
    ensures len == 7 + (if fmt then depth else 0) + MembersRoom(members, depth, fmt)
    decreases members, 0
  {
    names, entries, len := [], [], 7 + if fmt then depth else 0;
    var child := members;
    while child != NoMember
      invariant (child == members || child < members) && PrintableMembers(child)
      invariant MembersSoFar(names, entries, len, child, members, depth, fmt)
      decreases child
    {
      MembersNext(names, entries, len, child, members, depth, fmt);
      var n := PrintName(child.name);
      var v := PrintChild(child.value, depth, fmt);
      names, entries := names + [n], entries + [v];
      len := len + |v| + |n| + 2 + if fmt then 2 + depth else 0;
      child := child.rest;
    }
  }

  method PutTabs(out: array<Byte>, ptr: nat, n: int) returns (p: nat)
    requires ptr + |TabsTo(n, [])| <= out.Length
    modifies out
    ensures p == ptr + |TabsTo(n, [])| && out[..p] == old(out[..ptr]) + TabsTo(n, [])
  {
    p := ptr;
    var j := 0;
    ghost var before, all := out[..ptr], TabsTo(n, []);
    while j < n
      invariant 0 <= j && p + |TabsTo(n - j, [])| == ptr + |all| && p <= out.Length && out[..p] + TabsTo(n - j, []) == before + all
      decreases n - j
    {
      ghost var done := out[..p];
      p := Put(out, p, [TAB]);
      Assoc(done, [TAB], TabsTo(n - j - 1, []));
      j := j + 1;
    }
  }

  method PutIndent(out: array<Byte>, ptr: nat, n: int, fmt: bool) returns (p: nat)
    requires ptr + |Indent(fmt, n, [])| <= out.Length
    modifies out
    ensures p == ptr + |Indent(fmt, n, [])| && out[..p] == old(out[..ptr]) + Indent(fmt, n, [])
  {
    p := ptr;
    if fmt {
      p := PutTabs(out, ptr, n);
    }
  }

  /** One line of an object. */
  method PutMember(out: array<Byte>, start: nat, name: Text, value: Text, last: bool, depth: nat, fmt: bool, ghost t: Json, ghost key: Text)
    returns (ptr: nat)
    requires name == QuoteTo(key, []) && value == PrintTo(t, depth, fmt, [])
    requires start + |MemberLine(key, t, last, depth, fmt)| < out.Length
    modifies out
    ensures ptr == start + |MemberLine(key, t, last, depth, fmt)|
    ensures out[..ptr] == old(out[..start]) + MemberLine(key, t, last, depth, fmt)
  {
    ghost var before := out[..start];
    ptr := PutIndent(out, start, depth, fmt);
    ptr := Put(out, ptr, name);
    ptr := Put(out, ptr, ColonPart(fmt));
    ptr := PutEnded(out, ptr, value);
    ptr := PutEnded(out, ptr, EndPart(last, fmt));
    LineParts(before, Indent(fmt, depth, []), name, ColonPart(fmt), value, EndPart(last, fmt));
  }

  lemma LineParts(a: Text, i: Text, q: Text, c: Text, p: Text, e: Text)
    ensures a + i + q + c + p + e == a + (i + (q + (c + (p + e))))
  {
    Assoc(p, e, []);
    Assoc(a + i + q + c, p, e);
    Assoc(a + i + q, c, p + e);
    Assoc(a + i, q, c + (p + e));
    Assoc(a, i, q + (c + (p + e)));
  }

  /** The composing loop of `print_object` */
  method ComposeMembers(out: array<Byte>, start: nat, names: seq<Text>, entries: seq<Text>, depth: nat, fmt: bool, ghost members: Members)
    returns (ptr: nat)
    requires names == NameTexts(members) && entries == ValueTexts(members, depth, fmt)
    requires start + |MembersTo(members, depth, fmt, [])| < out.Length
    modifies out
    ensures ptr == start + |MembersTo(members, depth, fmt, [])| && out[..ptr] == old(out[..start]) + MembersTo(members, depth, fmt, [])
  {
    ptr := start;
    ghost var l := members;
    var i := 0;
    ghost var before, all := out[..start], MembersTo(members, depth, fmt, []);
    while i < |entries|
      invariant i <= |entries| == |names| && names[i..] == NameTexts(l) && entries[i..] == ValueTexts(l, depth, fmt) && ptr <= out.Length
      invariant out[..ptr] + MembersTo(l, depth, fmt, []) == before + all
      decreases |entries| - i
    {
      MembersLine(l, depth, fmt, []);
      ghost var done, more := out[..ptr], MembersTo(l.rest, depth, fmt, []);
      assert entries[i..][0] == entries[i] && entries[i..][1..] == entries[i + 1..];
      assert names[i..][0] == names[i] && names[i..][1..] == names[i + 1..];
      PrefixLength(done, MembersTo(l, depth, fmt, []), before, all);
      ptr := PutMember(out, ptr, names[i], entries[i], i == |entries| - 1, depth, fmt, l.value, l.name);
      Assoc(done, MemberLine(l.name, l.value, l.rest == NoMember, depth, fmt), more);
      l := l.rest;
      i := i + 1;
    }
  }

  /** `print_object` without members: its own room, and a newline and tabs when formatted */
  method PrintEmptyObject(depth: nat, fmt: bool) returns (out: array<Byte>)
    ensures fresh(out) && Holds(out, PrintTo(Obj(NoMember), depth, fmt, []))
  {
    IndentJoin(fmt, depth - 1, [CLOSE_OBJECT] + []);
    out := new Byte[if fmt then depth + 4 else 3];
    var ptr := Put(out, 0, [OPEN_OBJECT] + Extra(fmt, NEWLINE, []));
    ptr := PutIndent(out, ptr, depth - 1, fmt);
    ptr := Put(out, ptr, [CLOSE_OBJECT]);
    End(out, ptr, PrintTo(Obj(NoMember), depth, fmt, []));
  }

  lemma ObjectText(members: Members, depth: nat, fmt: bool)
    requires members.Member?
    ensures PrintTo(Obj(members), depth, fmt, []) == ObjectParts(members, depth, fmt)
  {
    var (inner, tabs) := (MembersTo(members, depth + 1, fmt, []), Indent(fmt, depth, []));
    var (head, close) := ([OPEN_OBJECT] + Extra(fmt, NEWLINE, []), [CLOSE_OBJECT]);
    assert close + [] == close;
    IndentJoin(fmt, depth, close);
    MembersAround(members, depth + 1, fmt, [], tabs + close);
    assert [] + (tabs + close) == tabs + close;
    ExtraJoin(fmt, NEWLINE, [], inner + (tabs + close));
    assert [] + (inner + (tabs + close)) == inner + (tabs + close);
    Assoc([OPEN_OBJECT], Extra(fmt, NEWLINE, []), inner + (tabs + close));
    Assoc(head, inner, tabs + close);
    Assoc(head + inner, tabs, close);
  }

  /** `print_object` */
  method PrintObject(members: Members, depth: nat, fmt: bool) returns (out: array<Byte>)
    requires PrintableMembers(members)
    ensures fresh(out) && Holds(out, PrintTo(Obj(members), depth, fmt, []))
    decreases members, 1
  {
    if members == NoMember {
      out := PrintEmptyObject(depth, fmt);
      return;
    }
    var names, entries, len := PrintMembers(members, depth + 1, fmt);
    ObjectFits(members, depth, fmt);
    out := new Byte[len];
    ObjectText(members, depth, fmt);
    var ptr := ComposeObject(out, names, entries, depth, fmt, members);
    End(out, ptr, PrintTo(Obj(members), depth, fmt, []));
  }

  /** The four parts of the text of an object. */
  function ObjectParts(members: Members, depth: nat, fmt: bool): Text {
    ([OPEN_OBJECT] + Extra(fmt, NEWLINE, [])) + MembersTo(members, depth + 1, fmt, []) + Indent(fmt, depth, []) + [CLOSE_OBJECT]
  }

  lemma ObjectFits(members: Members, depth: nat, fmt: bool)
    ensures |ObjectParts(members, depth, fmt)| < 7 + (if fmt then depth + 1 else 0) + MembersRoom(members, depth + 1, fmt)
  {
    MembersFit(members, depth + 1, fmt);
    IndentJoin(fmt, depth, []);
  }

  method ComposeObject(out: array<Byte>, names: seq<Text>, entries: seq<Text>, depth: nat, fmt: bool, ghost members: Members) returns (ptr: nat)
    requires names == NameTexts(members) && entries == ValueTexts(members, depth + 1, fmt)
    requires |ObjectParts(members, depth, fmt)| < out.Length
    modifies out
    ensures ptr == |ObjectParts(members, depth, fmt)| && out[..ptr] == ObjectParts(members, depth, fmt)
  {
    ghost var head, inner, tabs := [OPEN_OBJECT] + Extra(fmt, NEWLINE, []), MembersTo(members, depth + 1, fmt, []), Indent(fmt, depth, []);
    LengthOfFour(head, inner, tabs, [CLOSE_OBJECT]);
    ptr := PutEnded(out, 0, [OPEN_OBJECT] + Extra(fmt, NEWLINE, []));
    assert out[..ptr] == head;
    ptr := ComposeMembers(out, ptr, names, entries, depth + 1, fmt, members);
    assert out[..ptr] == head + inner;
    ptr := PutIndent(out, ptr, depth, fmt);
    assert out[..ptr] == head + inner + tabs;
    ptr := Put(out, ptr, [CLOSE_OBJECT]);
  }

  lemma LengthOfFour(a: Text, b: Text, c: Text, d: Text)
    ensures |a + b + c + d| == |a| + |b| + |c| + |d|
  {
  }
}
