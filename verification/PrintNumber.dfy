/** Formatting of numbers (`print_number` in `kservice.c`) into a buffer that may be too short. */
module PrintNumber {
  import opened Common

  /** The bits of `type`: ZEROPAD, SIGN, PLUS, SPACE, LEFT, LARGE. */
  datatype Flags = Flags(zeroPad: bool, signed: bool, plus: bool, space: bool, left: bool, large: bool)

  type Text = seq<char>

  const SMALL := "0123456789abcdef"
  const LARGE := "0123456789ABCDEF"

  function DigitSet(f: Flags): Text { if f.large then LARGE else SMALL }

  /** `divide` knows two bases: 10, and 16 for everything else. */
  function Quotient(n: nat, base: int): (q: nat)
    ensures 0 < n ==> q < n
    ensures 10 * q <= n
  {
    if base == 10 then n / 10 else n / 16
  }

  function Remainder(n: nat, base: int): (r: nat)
    ensures r < Base(base) && n == Base(base) * Quotient(n, base) + r
  {
    if base == 10 then n % 10 else n % 16
  }

  function Base(base: int): nat { if base == 10 then 10 else 16 }

  predicate Long(num: int) { -0x8000_0000 <= num < 0x8000_0000 }

  /** The unsigned number whose digits are printed: with SIGN the absolute value, of the most negative number, too. */
  function Magnitude(num: int, f: Flags): nat
    requires Long(num)
  {
    if num >= 0 then num else if f.signed then -num else num + 0x1_0000_0000
  }

  function Sign(num: int, f: Flags): Text {
    if !f.signed then "" else if num < 0 then "-" else if f.plus then "+" else if f.space then " " else ""
  }

  // ---------------------------------------------------------------- digits

  /** The digits of `n`, the least significant first, as they come out of `divide`; of 0 there are none. */
  function Reversed(n: nat, base: int, set16: Text): Text
    requires |set16| == 16
    decreases n
  {
    if n == 0 then [] else [set16[Remainder(n, base)]] + Reversed(Quotient(n, base), base, set16)
  }

  function Temporary(n: nat, base: int, set16: Text): (t: Text)
    requires |set16| == 16
    ensures t != []
  {
    if n == 0 then "0" else Reversed(n, base, set16)
  }

  function Flip(t: Text): (r: Text)
    ensures |r| == |t|
  {
    if t == [] then [] else Flip(t[1..]) + [t[0]]
  }

  /** The digits as they are read: the most significant first. */
  function Number(n: nat, base: int, set16: Text): Text
    requires |set16| == 16
  {
    Flip(Temporary(n, base, set16))
  }

  function DigitValue(c: char): nat {
    if '0' <= c <= '9' then (c - '0') as int
    else if 'a' <= c <= 'f' then (c - 'a') as int + 10
    else if 'A' <= c <= 'F' then (c - 'A') as int + 10 else 0
  }

  /** The number a text of digits stands for. */
  function ReadBack(t: Text, b: nat): nat {
    if t == [] then 0 else ReadBack(t[..|t| - 1], b) * b + DigitValue(t[|t| - 1])
  }

  lemma SetValues(f: Flags, d: nat)
    requires d < 16
    ensures |DigitSet(f)| == 16 && DigitValue(DigitSet(f)[d]) == d
  {
  }

  lemma FlipLast(t: Text)
    requires t != []
    ensures Flip(t)[..|t| - 1] == Flip(t[1..]) && Flip(t)[|t| - 1] == t[0]
  {
  }

  lemma {:induction false} ReversedBack(n: nat, base: int, f: Flags)
    ensures |DigitSet(f)| == 16 && ReadBack(Flip(Reversed(n, base, DigitSet(f))), Base(base)) == n
    decreases n
  {
    SetValues(f, 0);
    if n > 0 {
      var (q, r) := (Quotient(n, base), Remainder(n, base));
      ReversedBack(q, base, f);
      SetValues(f, r);
      FlipLast(Reversed(n, base, DigitSet(f)));
      assert Reversed(n, base, DigitSet(f))[1..] == Reversed(q, base, DigitSet(f));
    }
  }

  /** The printed digits read back to the number. */
  lemma NumberBack(n: nat, base: int, f: Flags)
    ensures |DigitSet(f)| == 16 && ReadBack(Number(n, base, DigitSet(f)), Base(base)) == n
  {
    ReversedBack(n, base, f);
    if n == 0 {
      assert Flip("0") == "0" && "0"[..0] == "";
      assert ReadBack("0", Base(base)) == 0;
    }
  }

  lemma {:induction false} ReversedLength(n: nat, base: int, set16: Text, k: nat)
    requires |set16| == 16 && n < Ten(k)
    ensures |Reversed(n, base, set16)| <= k
    decreases k
  {
    if n > 0 {
      assert k > 0 && Ten(k) == 10 * Ten(k - 1);
      ReversedLength(Quotient(n, base), base, set16, k - 1);
    }
  }

  /** A 32-bit number has at most ten digits: the 16 bytes of the temporary buffer are enough. */
  lemma AtMostTen(n: nat, base: int, set16: Text)
    requires |set16| == 16 && n < 0x1_0000_0000
    ensures |Temporary(n, base, set16)| <= 10
  {
    TenTens();
    ReversedLength(n, base, set16, 10);
  }

  // ---------------------------------------------------------------- layout

  function Repeat(c: char, n: int): Text { seq(if n <= 0 then 0 else n, _ => c) }

  /** Everything there is to print, whatever the buffer holds. */
  function Output(num: int, base: int, width: int, precision: int, f: Flags): Text
    requires Long(num)
  {
    SetValues(f, 0);
    Layout(Sign(num, f), Number(Magnitude(num, f), base, DigitSet(f)), width, precision, f)
  }

  /** Sign and digits in a field. */
  function Layout(sign: Text, digits: Text, width: int, precision: int, f: Flags): Text {
    var wide := Max(|digits|, precision);
    var pad := width - wide - |sign|;
    var shown := Repeat('0', wide - |digits|) + (if precision == 0 then "" else digits);
    if f.left then sign + shown + Repeat(' ', pad)
    else if f.zeroPad then sign + Repeat('0', pad) + shown
    else Repeat(' ', pad) + sign + shown
  }

  /** The length of a number in a field: the wider of the field and the number with its sign. */
  lemma OutputLength(num: int, base: int, width: int, precision: int, f: Flags)
    requires Long(num)
    ensures |DigitSet(f)| == 16
    ensures var digits := |Number(Magnitude(num, f), base, DigitSet(f))|;
            var all := Max(width, |Sign(num, f)| + Max(digits, precision));
            |Output(num, base, width, precision, f)| == if precision == 0 then all - digits else all
  {
    SetValues(f, 0);
  }

  // ---------------------------------------------------------------- reading back

  /** A digit in the letters of the flags. */
  predicate DigitIn(c: char, large: bool) { '0' <= c <= '9' || if large then 'A' <= c <= 'F' else 'a' <= c <= 'f' }

  predicate DigitsIn(t: Text, large: bool) { forall i :: 0 <= i < |t| ==> DigitIn(t[i], large) }

  function TrimStart(t: Text): Text { if t != "" && t[0] == ' ' then TrimStart(t[1..]) else t }

  function TrimEnd(t: Text): Text { if t != "" && t[|t| - 1] == ' ' then TrimEnd(t[..|t| - 1]) else t }

  /** The number a text with a sign stands for. */
  function ReadSigned(t: Text, b: nat): int {
    if t != "" && t[0] == '-' then 0 - ReadBack(t[1..], b) else if t != "" && t[0] == '+' then ReadBack(t[1..], b) else ReadBack(t, b)
  }

  lemma {:induction false} TrimFront(n: int, t: Text)
    ensures TrimStart(Repeat(' ', n) + t) == TrimStart(t)
    decreases n
  {
    if n > 0 {
      assert (Repeat(' ', n) + t)[1..] == Repeat(' ', n - 1) + t;
      TrimFront(n - 1, t);
    } else {
      assert Repeat(' ', n) + t == t;
    }
  }

  lemma {:induction false} TrimBack(t: Text, n: int)
    ensures TrimEnd(t + Repeat(' ', n)) == TrimEnd(t)
    decreases n
  {
    var s := t + Repeat(' ', n);
    if n > 0 {
      assert s[..|s| - 1] == t + Repeat(' ', n - 1);
      TrimBack(t, n - 1);
    } else {
      assert s == t;
    }
  }

  lemma {:induction false} ReversedDigits(n: nat, base: int, f: Flags)
    ensures |DigitSet(f)| == 16 && DigitsIn(Reversed(n, base, DigitSet(f)), f.large)
    decreases n
  {
    SetValues(f, 0);
    if n > 0 { ReversedDigits(Quotient(n, base), base, f); }
  }

  lemma {:induction false} FlipDigits(t: Text, large: bool)
    requires DigitsIn(t, large)
    ensures DigitsIn(Flip(t), large)
  {
    if t != [] { FlipDigits(t[1..], large); }
  }

  lemma NumberDigits(n: nat, base: int, f: Flags)
    ensures |DigitSet(f)| == 16 && DigitsIn(Number(n, base, DigitSet(f)), f.large)
  {
    ReversedDigits(n, base, f);
    FlipDigits(Temporary(n, base, DigitSet(f)), f.large);
  }

  lemma {:induction false} ZerosRead(n: int, t: Text, b: nat)
    ensures ReadBack(Repeat('0', n) + t, b) == ReadBack(t, b)
    decreases |t|, n
  {
    var s := Repeat('0', n) + t;
    if t != "" {
      assert s[..|s| - 1] == Repeat('0', n) + t[..|t| - 1];
      ZerosRead(n, t[..|t| - 1], b);
    } else if n > 0 {
      assert s[..|s| - 1] == Repeat('0', n - 1) + t;
      ZerosRead(n - 1, t, b);
    } else {
      assert s == t;
    }
  }

  /** Blanks around a sign and digits do not matter, nor does a blank for the sign. */
  lemma CoreRead(sign: Text, core: Text, front: int, behind: int, b: nat, large: bool)
    requires sign in {"", "-", "+", " "} && core != "" && DigitsIn(core, large)
    ensures ReadSigned(TrimEnd(TrimStart(Repeat(' ', front) + (sign + core) + Repeat(' ', behind))), b)
            == if sign == "-" then 0 - ReadBack(core, b) else ReadBack(core, b)
  {
    var (x, y) := (sign + core, core + Repeat(' ', behind));
    Assoc(Repeat(' ', front), x, Repeat(' ', behind));
    TrimFront(front, x + Repeat(' ', behind));
    assert DigitIn(core[0], large) && DigitIn(core[|core| - 1], large);
    Assoc(sign, core, Repeat(' ', behind));
    if sign == " " {
      assert (sign + y)[1..] == y;
      TrimBack(core, behind);
    } else {
      TrimBack(x, behind);
      assert sign == "" ==> x == core;
      assert sign != "" ==> x[1..] == core;
    }
  }

  /** A field is blanks on one side of the sign, zeros and digits; with LEFT behind them, and with ZEROPAD none in front. */
  lemma LayoutParts(sign: Text, digits: Text, width: int, precision: int, f: Flags) returns (front: int, zeros: int, behind: int)
    requires precision != 0
    ensures Layout(sign, digits, width, precision, f)
            == Repeat(' ', front) + (sign + (Repeat('0', zeros) + digits)) + Repeat(' ', behind)
    ensures (f.left || f.zeroPad ==> front == 0) && (!f.left ==> behind == 0)
  {
    var wide := Max(|digits|, precision);
    var pad := width - wide - |sign|;
    zeros := wide - |digits|;
    var shown := Repeat('0', zeros) + digits;
    assert Repeat(' ', 0) == "";
    if f.left {
      front, behind := 0, pad;
      assert "" + (sign + shown) + Repeat(' ', pad) == sign + shown + Repeat(' ', pad);
    } else if f.zeroPad {
      front, behind := 0, 0;
      MoreZeros(pad, zeros, digits);
      Assoc(sign, Repeat('0', pad), shown);
      zeros := Max(pad, 0) + Max(zeros, 0);
      assert "" + (sign + (Repeat('0', zeros) + digits)) + "" == sign + (Repeat('0', zeros) + digits);
    } else {
      front, behind := pad, 0;
      Assoc(Repeat(' ', pad), sign, shown);
      assert Repeat(' ', pad) + (sign + shown) + "" == Repeat(' ', pad) + (sign + shown);
    }
  }

  lemma MoreZeros(m: int, n: int, t: Text)
    ensures Repeat('0', m) + (Repeat('0', n) + t) == Repeat('0', Max(m, 0) + Max(n, 0)) + t
  {
  }

  /** What is printed reads back to the number, sign and all; without SIGN, to the number modulo 2^32. */
  lemma OutputBack(num: int, base: int, width: int, precision: int, f: Flags)
    requires Long(num) && precision != 0
    ensures ReadSigned(TrimEnd(TrimStart(Output(num, base, width, precision, f))), Base(base))
            == if f.signed || num >= 0 then num else num + 0x1_0000_0000
  {
    var n := Magnitude(num, f);
    NumberDigits(n, base, f);
    NumberBack(n, base, f);
    var digits := Number(n, base, DigitSet(f));
    var front, zeros, behind := LayoutParts(Sign(num, f), digits, width, precision, f);
    ZerosRead(zeros, digits, Base(base));
    CoreRead(Sign(num, f), Repeat('0', zeros) + digits, front, behind, Base(base), f.large);
  }

  /**
   * The sign in front: a minus exactly for negative numbers, a plus exactly for others with PLUS, and a blank for others
   * with SPACE only, which is the first character where no blanks pad the field in front.
   */
  lemma OutputSign(num: int, base: int, width: int, precision: int, f: Flags)
    requires Long(num) && precision != 0
    ensures var (out, t) := (Output(num, base, width, precision, f), TrimStart(Output(num, base, width, precision, f)));
            && out != "" && t != ""
            && (t[0] == '-' <==> f.signed && num < 0) && (t[0] == '+' <==> f.signed && num >= 0 && f.plus)
            && (f.left || f.zeroPad ==> (out[0] == ' ' <==> f.signed && num >= 0 && !f.plus && f.space))
  {
    var n := Magnitude(num, f);
    NumberDigits(n, base, f);
    var (sign, digits) := (Sign(num, f), Number(n, base, DigitSet(f)));
    var front, zeros, behind := LayoutParts(sign, digits, width, precision, f);
    var core := Repeat('0', zeros) + digits;
    assert DigitIn(core[0], f.large);
    var (x, tail) := (sign + core, Repeat(' ', behind));
    Assoc(Repeat(' ', front), x, tail);
    TrimFront(front, x + tail);
    Assoc(sign, core, tail);
    if sign == " " { assert (x + tail)[1..] == core + tail; }
    if front == 0 { assert Repeat(' ', 0) + (x + tail) == x + tail; }
  }

  // ---------------------------------------------------------------- writing

  /** From `start` on the buffer holds as much of the text as there is room for before `end`; the rest is as it was. */
  predicate Wrote(was: Text, now: Text, start: nat, end: nat, text: Text) {
    && |now| == |was|
    && forall k :: 0 <= k < |now| ==> now[k] == if start <= k < start + |text| && k < end then text[k - start] else was[k]
  }

  lemma WroteMore(a: Text, b: Text, c: Text, start: nat, end: nat, s: Text, t: Text)
    requires Wrote(a, b, start, end, s) && Wrote(b, c, start + |s|, end, t)
    ensures Wrote(a, c, start, end, s + t)
  {
  }

  method PutChar(buf: array<char>, pos: nat, end: nat, c: char) returns (p: nat)
    requires end <= buf.Length
    modifies buf
    ensures p == pos + 1 && Wrote(old(buf[..]), buf[..], pos, end, [c])
  {
    if pos < end {
      buf[pos] := c;
    }
    p := pos + 1;
  }

  /** `while (size-- > 0)` with a fixed character; `left` is the counter behind the loop. */
  method PutWhile(buf: array<char>, pos: nat, end: nat, c: char, size: int) returns (p: nat, left: int)
    requires end <= buf.Length
    modifies buf
    ensures p == pos + |Repeat(c, size)| && Wrote(old(buf[..]), buf[..], pos, end, Repeat(c, size))
    ensures left == if size <= 0 then size - 1 else -1
  {
    p, left := pos, size;
    ghost var n := 0;
    while left > 0
      invariant 0 <= n && left == size - n && (size <= 0 ==> n == 0) && (size > 0 ==> left >= 0)
      invariant p == pos + n && Wrote(old(buf[..]), buf[..], pos, end, Repeat(c, n))
      decreases left
    {
      ghost var b := buf[..];
      p := PutChar(buf, p, end, c);
      WroteMore(old(buf[..]), b, buf[..], pos, end, Repeat(c, n), [c]);
      assert Repeat(c, n) + [c] == Repeat(c, n + 1);
      n := n + 1;
      left := left - 1;
    }
    assert Repeat(c, n) == Repeat(c, size);
    left := left - 1;
  }

  method PutText(buf: array<char>, pos: nat, end: nat, t: Text) returns (p: nat)
    requires end <= buf.Length
    modifies buf
    ensures p == pos + |t| && Wrote(old(buf[..]), buf[..], pos, end, t)
  {
    p := pos;
    var i := 0;
    assert Wrote(old(buf[..]), buf[..], pos, end, t[..0]);
    while i < |t|
      invariant i <= |t| && p == pos + i && Wrote(old(buf[..]), buf[..], pos, end, t[..i])
    {
      ghost var b := buf[..];
      p := PutChar(buf, p, end, t[i]);
      WroteMore(old(buf[..]), b, buf[..], pos, end, t[..i], [t[i]]);
      assert t[..i] + [t[i]] == t[..i + 1];
      i := i + 1;
    }
    assert t[..i] == t;
  }

  ghost predicate DigitsSoFar(done: Text, num: nat, n: nat, base: int, set16: Text)
    requires |set16| == 16
  {
    done + Reversed(num, base, set16) == Reversed(n, base, set16)
  }

  lemma NextDigit(done: Text, num: nat, n: nat, base: int, set16: Text)
    requires |set16| == 16 && DigitsSoFar(done, num, n, base, set16) && num != 0 && |Reversed(n, base, set16)| <= 10
    ensures |done| < 10 && DigitsSoFar(done + [set16[Remainder(num, base)]], Quotient(num, base), n, base, set16)
  {
    var (d, more) := ([set16[Remainder(num, base)]], Reversed(Quotient(num, base), base, set16));
    assert done + (d + more) == (done + d) + more;
    assert |done + (d + more)| <= 10;
  }

  method DivideLoop(n: nat, base: int, set16: Text, tmp: array<char>) returns (i: nat)
    requires |set16| == 16 && |Reversed(n, base, set16)| <= 10 && tmp.Length == 16
    modifies tmp
    ensures i <= 10 && tmp[..i] == Reversed(n, base, set16)
  {
    i := 0;
    var num := n;
    ghost var done := "";
    assert DigitsSoFar(done, num, n, base, set16);
    while num != 0
      invariant i <= 10 && tmp[..i] == done && DigitsSoFar(done, num, n, base, set16)
      decreases num
    {
      NextDigit(done, num, n, base, set16);
      var c := set16[Remainder(num, base)];
      num := Quotient(num, base);
      tmp[i] := c;
      i := i + 1;
      done := done + [c];
    }
    assert done + Reversed(0, base, set16) == done;
  }

  /** The digits into the temporary buffer, the least significant first. */
  method Divide(n: nat, base: int, set16: Text, tmp: array<char>) returns (i: nat)
    requires |set16| == 16 && n < 0x1_0000_0000 && tmp.Length == 16
    modifies tmp
    ensures i <= 10 && tmp[..i] == Temporary(n, base, set16)
  {
    AtMostTen(n, base, set16);
    i := 0;
    if n == 0 {
      tmp[0] := '0';
      i := 1;
      return;
    }
    i := DivideLoop(n, base, set16, tmp);
  }

  /** `while (i-- > 0)`: the digits from the temporary buffer, the last first. */
  method PutDigits(buf: array<char>, pos: nat, end: nat, tmp: array<char>, n: nat) returns (p: nat)
    requires end <= buf.Length && n <= tmp.Length && buf != tmp
    modifies buf
    ensures p == pos + n && Wrote(old(buf[..]), buf[..], pos, end, Flip(tmp[..n]))
  {
    p := pos;
    var i := n;
    ghost var t, done := tmp[..n], "";
    assert t[..n] == t && "" + Flip(t) == Flip(t);
    while i > 0
      invariant 0 <= i <= n == |t| && p == pos + |done| && done + Flip(t[..i]) == Flip(t) && t == tmp[..n]
      invariant Wrote(old(buf[..]), buf[..], pos, end, done)
    {
      i := i - 1;
      ghost var b := buf[..];
      p := PutChar(buf, p, end, tmp[i]);
      WroteMore(old(buf[..]), b, buf[..], pos, end, done, [t[i]]);
      FlipSnoc(t, i);
      assert done + ([t[i]] + Flip(t[..i])) == (done + [t[i]]) + Flip(t[..i]);
      done := done + [t[i]];
    }
    assert t[..0] == "";
  }

  lemma {:induction false} FlipSnoc(t: Text, i: nat)
    requires i < |t|
    ensures Flip(t[..i + 1]) == [t[i]] + Flip(t[..i])
  {
    if i == 0 {
      assert t[..1] == [t[0]] && t[..0] == [] && [t[0]][1..] == [];
    } else {
      FlipSnoc(t[1..], i - 1);
      assert t[..i + 1][1..] == t[1..][..i] && t[..i][1..] == t[1..][..i - 1];
    }
  }

  // ---------------------------------------------------------------- print_number

  /** What the second half of the function prints behind the padding: zeros up to the precision, then the digits. */
  function Shown(digits: Text, precision: int): Text {
    Repeat('0', Max(|digits|, precision) - |digits|) + (if precision == 0 then "" else digits)
  }

  method PutShown(buf: array<char>, pos: nat, end: nat, tmp: array<char>, i: nat, precision: int) returns (p: nat)
    requires end <= buf.Length && i <= tmp.Length && buf != tmp
    modifies buf
    ensures p == pos + |Shown(Flip(tmp[..i]), precision)| && Wrote(old(buf[..]), buf[..], pos, end, Shown(Flip(tmp[..i]), precision))
  {
    ghost var digits := Flip(tmp[..i]);
    var wide := if i > precision then i else precision;
    var q, _ := PutWhile(buf, pos, end, '0', wide - i);
    p := q;
    ghost var b := buf[..];
    if precision != 0 {
      p := PutDigits(buf, q, end, tmp, i);
    } else {
      assert Wrote(b, b, q, end, "");
    }
    WroteMore(old(buf[..]), b, buf[..], pos, end, Repeat('0', wide - i), if precision == 0 then "" else digits);
  }

  /** The sign and the padding in front of the number; `left` is what is left of the field. */
  method PutFront(buf: array<char>, pos: nat, end: nat, sign: Text, room: int, f: Flags) returns (p: nat, left: int)
    requires end <= buf.Length && |sign| <= 1
    modifies buf
    ensures p == pos + |Front(sign, room, f)| && Wrote(old(buf[..]), buf[..], pos, end, Front(sign, room, f))
    ensures f.left ==> left == room - |sign|
    ensures !f.left ==> left <= 0
  {
    var size := room;
    p := pos;
    ghost var t := "";
    assert Wrote(old(buf[..]), buf[..], pos, end, t);
    if !f.zeroPad && !f.left {
      if sign != "" && size > 0 {
        size := size - 1;
      }
      t := Repeat(' ', size);
      p, size := PutWhile(buf, p, end, ' ', size);
    }
    ghost var b := buf[..];
    p := PutText(buf, p, end, sign);
    WroteMore(old(buf[..]), b, buf[..], pos, end, t, sign);
    t := t + sign;
    size := size - |sign|;
    if !f.left {
      b := buf[..];
      var c := if f.zeroPad then '0' else ' ';
      ghost var r := Repeat(c, size);
      p, size := PutWhile(buf, p, end, c, size);
      WroteMore(old(buf[..]), b, buf[..], pos, end, t, r);
      t := t + r;
    }
    left := size;
    assert t == Front(sign, room, f);
  }

  /** Sign and padding in front, for a field with `room` for more than the digits. */
  function Front(sign: Text, room: int, f: Flags): Text {
    if f.left then sign else if f.zeroPad then sign + Repeat('0', room - |sign|) else Repeat(' ', room - |sign|) + sign
  }

  /** The three parts the function prints one after the other. */
  function Parts(sign: Text, digits: Text, width: int, precision: int, f: Flags): Text {
    var room := width - Max(|digits|, precision);
    Front(sign, room, f) + Shown(digits, precision) + Repeat(' ', if f.left then room - |sign| else 0)
  }

  method PutParts(buf: array<char>, pos: nat, end: nat, sign: Text, tmp: array<char>, i: nat, width: int, precision: int, f: Flags)
    returns (p: nat)
    requires end <= buf.Length && |sign| <= 1 && i <= tmp.Length && buf != tmp
    modifies buf
    ensures p == pos + |Parts(sign, Flip(tmp[..i]), width, precision, f)|
    ensures Wrote(old(buf[..]), buf[..], pos, end, Parts(sign, Flip(tmp[..i]), width, precision, f))
  {
    ghost var a, digits := buf[..], Flip(tmp[..i]);
    var room := width - if i > precision then i else precision;
    var r, left := PutFrontShown(buf, pos, end, sign, tmp, i, room, precision, f);
    ghost var c := buf[..];
    p := PutBlanks(buf, r, end, left, if f.left then room - |sign| else 0);
    WroteMore(a, c, buf[..], pos, end, Front(sign, room, f) + Shown(digits, precision), Repeat(' ', if f.left then room - |sign| else 0));
  }

  method PutFrontShown(buf: array<char>, pos: nat, end: nat, sign: Text, tmp: array<char>, i: nat, room: int, precision: int, f: Flags)
    returns (p: nat, left: int)
    requires end <= buf.Length && |sign| <= 1 && i <= tmp.Length && buf != tmp
    modifies buf
    ensures p == pos + |Front(sign, room, f) + Shown(Flip(tmp[..i]), precision)|
    ensures Wrote(old(buf[..]), buf[..], pos, end, Front(sign, room, f) + Shown(Flip(tmp[..i]), precision))
    ensures if f.left then left == room - |sign| else left <= 0
  {
    var q, l := PutFront(buf, pos, end, sign, room, f);
    left := l;
    ghost var b := buf[..];
    p := PutShown(buf, q, end, tmp, i, precision);
    WroteMore(old(buf[..]), b, buf[..], pos, end, Front(sign, room, f), Shown(Flip(tmp[..i]), precision));
  }

  method PutBlanks(buf: array<char>, pos: nat, end: nat, left: int, ghost n: int) returns (p: nat)
    requires end <= buf.Length && (left == n || (left <= 0 && n == 0))
    modifies buf
    ensures p == pos + |Repeat(' ', n)| && Wrote(old(buf[..]), buf[..], pos, end, Repeat(' ', n))
  {
    assert Repeat(' ', left) == Repeat(' ', n);
    var e, _ := PutWhile(buf, pos, end, ' ', left);
    p := e;
  }

  /**
   * `print_number`: the place behind the output is that of an unbounded buffer, and the buffer holds the part of the
   * output that lies before `end`. LEFT takes ZEROPAD away.
   */
  method Print(buf: array<char>, pos: nat, end: nat, num: int, base: int, width: int, precision: int, f: Flags) returns (p: nat)
    requires end <= buf.Length && Long(num)
    modifies buf
    ensures p == pos + |Output(num, base, width, precision, f)|
    ensures Wrote(old(buf[..]), buf[..], pos, end, Output(num, base, width, precision, f))
  {
    SetValues(f, 0);
    var g := if f.left then f.(zeroPad := false) else f;
    var tmp := new char[16];
    var i := Divide(Magnitude(num, f), base, DigitSet(f), tmp);
    p := PutParts(buf, pos, end, Sign(num, f), tmp, i, width, precision, g);
    OutputParts(num, base, width, precision, f);
  }

  lemma OutputParts(num: int, base: int, width: int, precision: int, f: Flags)
    requires Long(num) && |DigitSet(f)| == 16
    ensures var g := if f.left then f.(zeroPad := false) else f;
            Output(num, base, width, precision, f) ==
            Parts(Sign(num, f), Number(Magnitude(num, f), base, DigitSet(f)), width, precision, g)
  {
    var digits := Number(Magnitude(num, f), base, DigitSet(f));
    var (sign, shown, room) := (Sign(num, f), Shown(digits, precision), width - Max(|digits|, precision));
    assert Repeat(' ', 0) == "";
    if f.left {
    } else if f.zeroPad {
      assert sign + Repeat('0', room - |sign|) + shown + "" == sign + Repeat('0', room - |sign|) + shown;
    } else {
      assert Repeat(' ', room - |sign|) + sign + shown + "" == Repeat(' ', room - |sign|) + sign + shown;
    }
  }
}
