/** `parse_string` of cJSON: a pass that measures the text, and a pass that decodes it into a buffer of that size. */
module JsonStrings {
  import opened Common
  import opened JsonModel
  import opened JsonPrinter

  predicate AtEnd(s: Text) { s == [] || s[0] == QUOTE || s[0] == 0 }

  /** The measuring pass counts an escape and the character behind it as one. */
  function Scan(s: Text): nat
    decreases |s|
  {
    if AtEnd(s) then 0 else 1 + Scan(if s[0] == BACKSLASH then Drop(s, 2) else s[1..])
  }

  /** Whether the measuring pass, not in the middle of an escape, begins one with this byte. */
  predicate Enters(mid: bool, b: Byte) { !mid && b == BACKSLASH }

  /** How many bytes the measuring pass walks to the end it finds; `mid` says that it begins behind a backslash. */
  function EndAt(s: Text, mid: bool): (e: nat)
    ensures e <= |s|
  {
    if s == [] || (!mid && AtEnd(s)) then 0 else 1 + EndAt(s[1..], Enters(mid, s[0]))
  }

  /** What it counts on the way: every byte but the backslashes that begin an escape. */
  function Room(s: Text, mid: bool): nat {
    if s == [] || (!mid && AtEnd(s)) then 0 else (if Enters(mid, s[0]) then 0 else 1) + Room(s[1..], Enters(mid, s[0]))
  }

  /** It does not skip the zero behind the text, which it does when a backslash is the last byte. */
  predicate Closed(s: Text, mid: bool) {
    if s == [] then !mid else (!mid && AtEnd(s)) || Closed(s[1..], Enters(mid, s[0]))
  }

  predicate High(u: nat) { 0xD800 <= u <= 0xDBFF }

  /** How many bytes the decoding pass takes for an escape: a long one is six, and twelve if it begins a pair. */
  function EscapeLength(s: Text): nat {
    if Peek(s, 1) != 117 then 2
    else if High(Hex4(Drop(s, 2))) && Peek(s, 6) == BACKSLASH && Peek(s, 7) == 117 then 12
    else 6
  }

  /** No escape that the decoding pass meets reaches over the end `e`. */
  predicate Below(s: Text, e: nat)
    decreases |s|
  {
    if e == 0 || AtEnd(s) then true
    else if s[0] != BACKSLASH then Below(s[1..], e - 1)
    else EscapeLength(s) <= e && Below(Drop(s, EscapeLength(s)), e - EscapeLength(s))
  }

  // ---------------------------------------------------------------- the measuring pass byte by byte

  lemma {:induction false} ScanIsRoom(s: Text)
    requires Closed(s, false)
    ensures Scan(s) == Room(s, false)
    decreases |s|
  {
    if !AtEnd(s) {
      if s[0] == BACKSLASH {
        assert s[1..] != [] && s[1..][1..] == s[2..] && Drop(s, 2) == s[2..];
        ScanIsRoom(s[2..]);
      } else {
        ScanIsRoom(s[1..]);
      }
    }
  }

  lemma OneByte(s: Text, mid: bool)
    requires Closed(s, mid) && 0 < EndAt(s, mid)
    ensures var m := Enters(mid, s[0]);
            && Closed(s[1..], m) && EndAt(s[1..], m) == EndAt(s, mid) - 1
            && Room(s[1..], m) == Room(s, mid) - (if m then 0 else 1)
  {
  }

  /** Some bytes on: the count has not grown; and for four bytes without a backslash it is down by four. */
  lemma {:induction false} SomeBytes(s: Text, mid: bool, k: nat) returns (m: bool)
    requires Closed(s, mid) && k <= EndAt(s, mid)
    ensures Closed(s[k..], m) && EndAt(s[k..], m) == EndAt(s, mid) - k && Room(s[k..], m) <= Room(s, mid)
    ensures (forall i :: 0 <= i < k ==> s[i] != BACKSLASH) ==> Room(s[k..], m) == Room(s, mid) - k
    decreases k
  {
    if k == 0 {
      m := mid;
      assert s[k..] == s;
    } else {
      OneByte(s, mid);
      m := SomeBytes(s[1..], Enters(mid, s[0]), k - 1);
      assert s[1..][k - 1..] == s[k..];
      assert forall i :: 0 <= i < k - 1 ==> s[1..][i] == s[i + 1];
    }
  }

  /** A short escape counts at least once, whether or not the passes are in step. */
  lemma ShortEscape(s: Text, mid: bool) returns (m: bool)
    requires Closed(s, mid) && 2 <= EndAt(s, mid)
    ensures Closed(s[2..], m) && EndAt(s[2..], m) == EndAt(s, mid) - 2 && Room(s[2..], m) + 1 <= Room(s, mid)
  {
    OneByte(s, mid);
    OneByte(s[1..], Enters(mid, s[0]));
    m := Enters(Enters(mid, s[0]), s[1]);
    assert s[1..][1..] == s[2..];
  }

  predicate HexAt(s: Text) {
    HexValue(Peek(s, 0)) < 16 && HexValue(Peek(s, 1)) < 16 && HexValue(Peek(s, 2)) < 16 && HexValue(Peek(s, 3)) < 16
  }

  /** The six bytes of a long escape, which count at least four if they are hexadecimal. */
  lemma LongEscape(s: Text, mid: bool) returns (m: bool)
    requires Closed(s, mid) && 6 <= EndAt(s, mid)
    ensures Closed(s[6..], m) && EndAt(s[6..], m) == EndAt(s, mid) - 6 && Room(s[6..], m) <= Room(s, mid)
    ensures HexAt(s[2..]) ==> Room(s[6..], m) + 4 <= Room(s, mid)
  {
    var l := SomeBytes(s, mid, 2);
    m := SomeBytes(s[2..], l, 4);
    assert s[2..][4..] == s[6..];
  }

  // ---------------------------------------------------------------- the decoding pass

  /** What an escape decodes to: one byte for a short one; for a long one at most three, and for a pair at most four. */
  lemma EscapeParts(s: Text)
    requires |s| >= 2 && s[0] == BACKSLASH
    ensures var (b, t) := Unescape(s[1..]);
            && t == Drop(s, EscapeLength(s)) && |b| <= 4
            && (EscapeLength(s) == 2 ==> |b| == 1)
            && (EscapeLength(s) != 2 && b != [] ==> HexAt(s[2..]))
            && (EscapeLength(s) == 6 ==> |b| <= 3)
  {
    assert s[1..][1..] == s[2..] && Drop(s, 2) == s[2..];
    if s[1] == 117 {
      Hex4Bound(s[2..]);
      LongParts(s[2..]);
      assert Drop(s[2..], 4) == Drop(s, 6) && Drop(Drop(s, 6), 6) == Drop(s, 12);
    }
  }

  lemma LongParts(s: Text)
    ensures var (b, t) := Unicode(s);
            var pair := High(Hex4(s)) && Peek(s, 4) == BACKSLASH && Peek(s, 5) == 117;
            && t == (if pair then Drop(Drop(s, 4), 6) else Drop(s, 4)) && |b| <= (if pair then 4 else 3) && (b != [] ==> HexAt(s))
  {
    Hex4Bound(s);
    assert Peek(Drop(s, 4), 0) == Peek(s, 4) && Peek(Drop(s, 4), 1) == Peek(s, 5);
  }

  lemma EscapeDecoded(s: Text)
    requires |s| >= 2 && s[0] == BACKSLASH
    ensures var (b, t) := Unescape(s[1..]); Characters(s) == (b + Characters(t).0, Characters(t).1)
  {
  }

  /** An escape that stays below the end decodes to no more than the measuring pass counts for its bytes. */
  lemma EscapeRoom(s: Text, mid: bool) returns (m: bool)
    requires Closed(s, mid) && |s| >= 2 && s[0] == BACKSLASH && EscapeLength(s) <= EndAt(s, mid)
    ensures var (k, b) := (EscapeLength(s), Unescape(s[1..]).0);
            && k <= |s| && Closed(s[k..], m) && EndAt(s[k..], m) == EndAt(s, mid) - k && |b| + Room(s[k..], m) <= Room(s, mid)
  {
    EscapeParts(s);
    var k := EscapeLength(s);
    if k == 2 {
      m := ShortEscape(s, mid);
    } else {
      m := LongEscape(s, mid);
      if k == 12 {
        m := SomeBytes(s[6..], m, 6);
        assert s[6..][6..] == s[12..];
      }
    }
  }

  /** The decoded bytes fit into what the measuring pass counts, even where the two passes are out of step. */
  lemma {:induction false} DecodedRoom(s: Text, mid: bool)
    requires Closed(s, mid) && Below(s, EndAt(s, mid))
    ensures |Characters(s).0| <= Room(s, mid)
    decreases |s|
  {
    if EndAt(s, mid) > 0 && !AtEnd(s) {
      if s[0] != BACKSLASH {
        OneByte(s, mid);
        DecodedRoom(s[1..], Enters(mid, s[0]));
      } else {
        var m := EscapeRoom(s, mid);
        EscapeParts(s);
        EscapeDecoded(s);
        DecodedRoom(s[EscapeLength(s)..], m);
      }
    }
  }

  /** The decoded string fits into the measured buffer, if no escape reaches over the end that was measured. */
  lemma DecodedFits(s: Text)
    requires Closed(s, false) && Below(s, EndAt(s, false))
    ensures |Characters(s).0| <= Scan(s)
  {
    ScanIsRoom(s);
    DecodedRoom(s, false);
  }

  // ---------------------------------------------------------------- when an escape reaches over the end

  /** The byte that ends the measuring pass: a quote or a zero, which may be the one behind the text. */
  predicate Ends(s: Text, e: nat) { e <= |s| && (Peek(s, e) == QUOTE || Peek(s, e) == 0) }

  /** The text up to the end at `e`, with something else behind it. */
  function Behind(s: Text, e: nat, rest: Text): Text
    requires e <= |s|
  {
    s[..e] + [Peek(s, e)] + rest
  }

  lemma BehindTail(s: Text, e: nat, rest: Text, k: nat)
    requires k <= e <= |s|
    ensures |Behind(s, e, rest)| == e + 1 + |rest| && Drop(Behind(s, e, rest), k) == Behind(s[k..], e - k, rest)
    ensures forall i :: 0 <= i <= e ==> Behind(s, e, rest)[i] == Peek(s, i)
  {
    var m := Behind(s, e, rest);
    assert m[k..] == s[k..][..e - k] + [Peek(s[k..], e - k)] + rest;
  }

  /** The four bytes behind `u`, where the end may come among them, read alike whatever is behind the end. */
  lemma HexLocal(s: Text, e: nat, rest: Text, k: nat)
    requires Ends(s, e) && k <= e
    ensures var m := Behind(s, e, rest); Hex4(Drop(m, k)) == Hex4(Drop(s, k)) && (e < k + 4 ==> Hex4(Drop(s, k)) == 0)
  {
    BehindTail(s, e, rest, 0);
    var m := Behind(s, e, rest);
    assert forall i :: 0 <= i < 4 ==> Peek(Drop(m, k), i) == Peek(m, k + i) && Peek(Drop(s, k), i) == Peek(s, k + i);
    assert HexValue(Peek(s, e)) == 16;
    if e < k + 4 {
      assert Peek(Drop(s, k), e - k) == Peek(s, e) == Peek(Drop(m, k), e - k);
    }
  }

  /** So is the length of an escape. */
  lemma LengthLocal(s: Text, e: nat, rest: Text)
    requires Ends(s, e) && 0 < e && s[0] == BACKSLASH
    ensures EscapeLength(Behind(s, e, rest)) == EscapeLength(s)
  {
    var m := Behind(s, e, rest);
    BehindTail(s, e, rest, 0);
    assert Peek(m, 1) == Peek(s, 1);
    if Peek(s, 1) == 117 {
      HexLocal(s, e, rest, 2);
      if High(Hex4(Drop(s, 2))) {
        assert Peek(m, 6) == Peek(s, 6);
        if e >= 7 { assert Peek(m, 7) == Peek(s, 7); }
      }
    }
  }

  lemma {:induction false} BelowLocal(s: Text, e: nat, rest: Text)
    requires Ends(s, e)
    ensures Below(Behind(s, e, rest), e) <==> Below(s, e)
    decreases |s|
  {
    var m := Behind(s, e, rest);
    BehindTail(s, e, rest, 0);
    if e > 0 && !AtEnd(s) {
      assert m[0] == s[0];
      if s[0] != BACKSLASH {
        BehindTail(s, e, rest, 1);
        BelowLocal(s[1..], e - 1, rest);
      } else {
        LengthLocal(s, e, rest);
        var k := EscapeLength(s);
        if k <= e {
          BehindTail(s, e, rest, k);
          BelowLocal(s[k..], e - k, rest);
        }
      }
    }
  }

  lemma {:induction false} MeasureLocal(s: Text, mid: bool, rest: Text)
    requires Closed(s, mid)
    ensures var (e, m) := (EndAt(s, mid), Behind(s, EndAt(s, mid), rest));
            Ends(s, e) && Closed(m, mid) && EndAt(m, mid) == e && Room(m, mid) == Room(s, mid)
    decreases |s|
  {
    var m := Behind(s, EndAt(s, mid), rest);
    BehindTail(s, EndAt(s, mid), rest, 0);
    if EndAt(s, mid) > 0 {
      OneByte(s, mid);
      BehindTail(s, EndAt(s, mid), rest, 1);
      MeasureLocal(s[1..], Enters(mid, s[0]), rest);
      assert m[0] == s[0] && m[1..] == Behind(s[1..], EndAt(s[1..], Enters(mid, s[0])), rest);
    }
  }

  function Letters(n: nat): Text { seq(n, _ => 65) }

  lemma {:induction false} LettersDecoded(n: nat)
    ensures |Characters(Letters(n)).0| == n
  {
    if n > 0 {
      assert Letters(n)[1..] == Letters(n - 1);
      LettersDecoded(n - 1);
    }
  }

  lemma EscapeShrinks(s: Text)
    requires |s| >= 2 && s[0] == BACKSLASH
    ensures |Characters(Drop(s, EscapeLength(s))).0| <= |Characters(s).0|
  {
    EscapeParts(s);
    EscapeDecoded(s);
  }

  /** What is left of the letters behind an escape that reaches over the end. */
  lemma LettersLeft(s: Text, e: nat, n: nat, k: nat)
    requires Ends(s, e) && n >= 11 && e < k <= 12
    ensures Drop(Behind(s, e, Letters(n)), k) == Letters(n - (k - e - 1))
  {
  }

  lemma {:induction false} Overruns(s: Text, e: nat, n: nat)
    requires Ends(s, e) && !Below(s, e) && n >= 11
    ensures |Characters(Behind(s, e, Letters(n))).0| >= n - 11
    decreases |s|
  {
    var m := Behind(s, e, Letters(n));
    BehindTail(s, e, Letters(n), 0);
    assert m[0] == s[0];
    if s[0] != BACKSLASH {
      BehindTail(s, e, Letters(n), 1);
      Overruns(s[1..], e - 1, n);
    } else {
      LengthLocal(s, e, Letters(n));
      var k := EscapeLength(s);
      EscapeShrinks(m);
      if k <= e {
        BehindTail(s, e, Letters(n), k);
        Overruns(s[k..], e - k, n);
      } else {
        LettersLeft(s, e, n, k);
        LettersDecoded(n - (k - e - 1));
      }
    }
  }

  /** The decoded string fits into the buffer measured for `s`, with `rest` behind the end that was found. */
  predicate FitsBefore(s: Text, rest: Text) { |Characters(Behind(s, EndAt(s, false), rest)).0| <= Scan(s) }

  /** It fits whatever is behind the end exactly if no escape reaches over it. */
  lemma FitsExactly(s: Text)
    requires Closed(s, false)
    ensures (forall rest :: FitsBefore(s, rest)) <==> Below(s, EndAt(s, false))
  {
    var e := EndAt(s, false);
    ScanIsRoom(s);
    if Below(s, e) {
      forall rest ensures FitsBefore(s, rest) {
        MeasureLocal(s, false, rest);
        BelowLocal(s, e, rest);
        DecodedRoom(Behind(s, e, rest), false);
      }
    } else {
      MeasureLocal(s, false, []);
      Overruns(s, e, Scan(s) + 12);
      assert !FitsBefore(s, Letters(Scan(s) + 12));
    }
  }

  /** A long escape cut short by the quote: one byte is measured, and at least three are decoded. */
  lemma CutEscapeOverruns(rest: Text)
    ensures var s := [BACKSLASH, 117, QUOTE, 32, 32, 32, 65, 65, 65, QUOTE] + rest;
            Closed(s, false) && !Below(s, EndAt(s, false)) && Scan(s) == 1 && |Characters(s).0| == 3
  {
    var s := [BACKSLASH, 117, QUOTE, 32, 32, 32, 65, 65, 65, QUOTE] + rest;
    var t := [65, 65, 65, QUOTE] + rest;
    assert s[1..][0] == 117 && s[1..][1..] == s[2..] && s[2..][0] == QUOTE && AtEnd(s[2..]);
    assert EndAt(s[2..], false) == 0 && EndAt(s[1..], true) == 1 && EndAt(s, false) == 2;
    assert Closed(s[1..], true) && Closed(s, false);
    assert Drop(s, 2) == s[2..] && Scan(s) == 1;
    assert Drop(s, 6) == t && Drop(s[2..], 4) == t;
    EscapeDecoded(s);
    assert Hex4(s[2..]) == 0;
    assert t[1..][1..] == t[2..] && t[2..][1..] == t[3..] && t[1..][0] == 65 && t[2..][0] == 65 && t[3..][0] == QUOTE;
    assert |Characters(t[3..]).0| == 0 && |Characters(t[2..]).0| == 1 && |Characters(t[1..]).0| == 2;
  }

  // ---------------------------------------------------------------- printed strings

  /** In the text of a printed string the measuring pass finds the quote that closes it, and no escape reaches over that. */
  lemma {:induction false} PrintedBelow(str: Text, rest: Text)
    requires Plain(str)
    ensures var s := EscapeTo(str, [QUOTE] + rest);
            Closed(s, false) && EndAt(s, false) + 1 + |rest| == |s| && Below(s, EndAt(s, false))
  {
    if str != [] {
      var more := EscapeTo(str[1..], [QUOTE] + rest);
      PrintedBelow(str[1..], rest);
      EscapePrinted(str[0], more);
    }
  }

  lemma {:induction false} PlainBytes(x: Text, more: Text)
    requires (forall i :: 0 <= i < |x| ==> x[i] != QUOTE && x[i] != 0 && x[i] != BACKSLASH) && Closed(more, false)
    ensures Closed(x + more, false) && EndAt(x + more, false) == |x| + EndAt(more, false)
  {
    if x == [] {
      assert x + more == more;
    } else {
      assert (x + more)[1..] == x[1..] + more && !Enters(false, (x + more)[0]);
      PlainBytes(x[1..], more);
    }
  }

  lemma BehindBackslash(b: Byte, more: Text)
    requires Closed(more, false)
    ensures var s := [BACKSLASH, b] + more; Closed(s, false) && EndAt(s, false) == 2 + EndAt(more, false)
  {
    var s := [BACKSLASH, b] + more;
    assert s[1..][1..] == more;
    assert Closed(s[1..], true) && EndAt(s[1..], true) == 1 + EndAt(more, false);
  }

  lemma LongPrinted(x: Text, more: Text)
    requires |x| == 4 && HexValue(x[0]) == 0 && HexAt(x) && Closed(more, false) && Below(more, EndAt(more, false))
    ensures var s := [BACKSLASH, 117] + (x + more);
            Closed(s, false) && EndAt(s, false) == 6 + EndAt(more, false) && Below(s, EndAt(s, false))
  {
    var s := [BACKSLASH, 117] + (x + more);
    PlainBytes(x, more);
    BehindBackslash(117, x + more);
    assert Drop(s, 2) == x + more && Drop(s, 6) == more;
    assert !High(Hex4(x + more));
  }

  lemma EscapePrinted(b: Byte, more: Text)
    requires b != 0 && Closed(more, false) && Below(more, EndAt(more, false))
    ensures var s := Escape(b) + more;
            Closed(s, false) && EndAt(s, false) == |Escape(b)| + EndAt(more, false) && Below(s, EndAt(s, false))
  {
    var s := Escape(b) + more;
    if Short(b) != 0 {
      BehindBackslash(Short(b), more);
      assert Drop(s, 2) == more;
    } else if b < 32 {
      var x := Escape(b)[2..];
      assert s == [BACKSLASH, 117] + (x + more);
      LongPrinted(x, more);
    } else {
      assert s[1..] == more;
    }
  }

  // ---------------------------------------------------------------- the two passes

  /** The measuring pass over the text from `start` on */
  method Measure(s: Text, start: nat) returns (len: nat)
    requires start <= |s|
    ensures len == Scan(s[start..])
  {
    len := 0;
    var i := start;
    while i < |s| && s[i] != QUOTE && s[i] != 0
      invariant start <= i <= |s| && len + Scan(s[i..]) == Scan(s[start..])
      decreases |s| - i
    {
      ScanAt(s, i);
      len := len + 1;
      if s[i] == BACKSLASH && i + 1 < |s| {
        i := i + 1;
      }
      i := i + 1;
    }
  }

  lemma ScanAt(s: Text, i: nat)
    requires i < |s| && s[i] != QUOTE && s[i] != 0
    ensures Scan(s[i..]) == 1 + Scan(if s[i] == BACKSLASH && i + 1 < |s| then s[i + 2..] else s[i + 1..])
  {
    assert s[i..][1..] == s[i + 1..];
    if i + 1 < |s| { assert Drop(s[i..], 2) == s[i + 2..]; } else { assert Drop(s[i..], 2) == []; }
  }

  lemma Shifts(u: nat)
    ensures u / 0x40 / 0x40 == u / 0x1000 && u / 0x1000 / 0x40 == u / 0x4_0000
  {
  }

  /** One continuation byte, written at `ptr + k`; the rest of the code point goes on. */
  method PutTail(out: array<Byte>, at: nat, u: nat) returns (v: nat)
    requires at < out.Length
    modifies out
    ensures v == u / 0x40 && out[..] == old(out[..])[at := 0x80 + u % 0x40]
  {
    out[at] := 0x80 + u % 0x40;
    v := u / 0x40;
  }

  /** The bytes of a code point, the last first, as the source fills them in. */
  method PutUtf8(out: array<Byte>, ptr: nat, u: nat) returns (p: nat)
    requires u < 0x11_0000 && ptr + |Utf8(u)| <= out.Length
    modifies out
    ensures p == ptr + |Utf8(u)| && out[..p] == old(out[..ptr]) + Utf8(u)
  {
    Shifts(u);
    ghost var b := out[..];
    var len := if u < 0x80 then 1 else if u < 0x800 then 2 else if u < 0x1_0000 then 3 else 4;
    p := ptr + len;
    var v := u;
    if len >= 4 {
      v := PutTail(out, ptr + 3, v);
    }
    if len >= 3 {
      v := PutTail(out, ptr + 2, v);
    }
    if len >= 2 {
      v := PutTail(out, ptr + 1, v);
    }
    out[ptr] := v + if len == 1 then 0 else if len == 2 then 0xC0 else if len == 3 then 0xE0 else 0xF0;
    FillIs(b, out[..], ptr, Utf8(u));
  }

  lemma FillIs(was: Text, now: Text, ptr: nat, t: Text)
    requires |now| == |was| && ptr + |t| <= |was|
    requires forall i :: 0 <= i < ptr ==> now[i] == was[i]
    requires forall i :: 0 <= i < |t| ==> now[ptr + i] == t[i]
    ensures now[..ptr + |t|] == was[..ptr] + t
  {
  }

  // ---------------------------------------------------------------- `parse_string`

  /** `done` is decoded, and `rest` is to come. */
  ghost predicate SoFar(done: Text, rest: Text, all: Text) {
    done + Characters(rest).0 == Characters(all).0 && Characters(rest).1 == Characters(all).1
  }

  lemma NextPlain(done: Text, rest: Text, all: Text)
    requires SoFar(done, rest, all) && !AtEnd(rest) && rest[0] != BACKSLASH
    ensures |done| < |Characters(all).0| && SoFar(done + [rest[0]], rest[1..], all)
  {
    PlainDecoded(rest);
    Assoc(done, [rest[0]], Characters(rest[1..]).0);
  }

  lemma PlainDecoded(rest: Text)
    requires !AtEnd(rest) && rest[0] != BACKSLASH
    ensures Characters(rest) == ([rest[0]] + Characters(rest[1..]).0, Characters(rest[1..]).1)
  {
  }

  /** What an escape stands for, also where the text ends behind the backslash. */
  function Escaped(rest: Text): (Text, Text)
    requires rest != [] && rest[0] == BACKSLASH
  {
    if |rest| == 1 then ([0], []) else Unescape(rest[1..])
  }

  lemma NextEscape(done: Text, rest: Text, all: Text)
    requires SoFar(done, rest, all) && rest != [] && rest[0] == BACKSLASH
    ensures var (b, t) := Escaped(rest); |done| + |b| <= |Characters(all).0| && SoFar(done + b, t, all)
  {
    var (b, t) := Escaped(rest);
    if |rest| > 1 { EscapeDecoded(rest); } else { assert Characters(rest) == ([0], []) && [0] + [] == [0]; }
    Assoc(done, b, Characters(t).0);
  }

  /** The `u` case of the switch: one code point, or a pair of surrogates, or nothing for what is neither */
  method CodePoint(s: Text, i: nat) returns (some: bool, u: nat, j: nat)
    requires i <= |s|
    ensures j <= |s| && u < 0x11_0000 && Unicode(s[i..]) == (if some then Utf8(u) else [], s[j..])
  {
    Hex4Bound(s[i..]);
    u := Hex4(s[i..]);
    some, j := false, Ahead(s, i, 4);
    if 0xDC00 <= u <= 0xDFFF || u == 0 {
      return;
    }
    if 0xD800 <= u <= 0xDBFF {
      if Peek(s, j) != BACKSLASH || Peek(s, j + 1) != 117 {
        return;
      }
      assert Drop(s[j..], 2) == s[j + 2..];
      var v := Hex4(s[j + 2..]);
      j := Ahead(s, j, 6);
      if v < 0xDC00 || v > 0xDFFF {
        return;
      }
      u := 0x1_0000 + u % 0x400 * 0x400 + v % 0x400;
    }
    some := true;
  }

  /** `k` bytes on, or the end of the text. */
  function Ahead(s: Text, i: nat, k: nat): (j: nat)
    requires i <= |s|
    ensures j <= |s| && s[j..] == Drop(s[i..], k)
  {
    var j := if i + k <= |s| then i + k else |s|;
    assert s[j..] == Drop(s[i..], k);
    j
  }

  function Utf8Length(u: nat): nat { if u < 0x80 then 1 else if u < 0x800 then 2 else if u < 0x1_0000 then 3 else 4 }

  /** The switch on the character behind a backslash; `ok` says that what it writes is within the first `len` bytes. */
  method DecodeEscape(out: array<Byte>, ptr: nat, len: nat, s: Text, i: nat) returns (ok: bool, p: nat, j: nat)
    requires i < |s| && s[i] == BACKSLASH && ptr <= len < out.Length
    modifies out
    ensures ok <==> ptr + |Escaped(s[i..]).0| <= len
    ensures ok ==> i < j <= |s| && s[j..] == Escaped(s[i..]).1 && p == ptr + |Escaped(s[i..]).0| && out[..p] == old(out[..ptr]) + Escaped(s[i..]).0
  {
    assert s[i..][1..] == s[i + 1..];
    var c := Peek(s, i + 1);
    if c == 117 {
      assert s[i + 1..][1..] == s[i + 2..];
      var some, u, k := CodePoint(s, i + 2);
      UnicodeShorter(s, i, k);
      ok, p, j := true, ptr, k;
      if some {
        ok := ptr + Utf8Length(u) <= len;
        if ok {
          p := PutUtf8(out, ptr, u);
        }
      }
      return;
    }
    ok, p, j := ptr < len, ptr, Ahead(s, i, 2);
    if ok {
      var b := if c == 98 then 8 else if c == 102 then 12 else if c == 110 then 10
               else if c == 114 then 13 else if c == 116 then 9 else c;
      p := Put(out, ptr, [b]);
    }
  }

  lemma UnicodeShorter(s: Text, i: nat, k: nat)
    requires i + 2 <= |s| && k <= |s| && s[k..] == Unicode(s[i + 2..]).1
    ensures i < k
  {
    assert |s[k..]| <= |s[i + 2..]|;
  }

  /** What `parse_string` comes to; an overrun is a write behind the buffer, which the source does not notice. */
  datatype Parsed = NotString | Decoded(out: array<Byte>, end: nat) | Overrun

  /** `parse_string`: it writes behind the measured buffer exactly if more is decoded than was measured. */
  method ParseStringAt(s: Text) returns (r: Parsed)
    ensures r.NotString? <==> JsonModel.ParseString(s) == None
    ensures !r.NotString? ==> (r.Overrun? <==> |Characters(s[1..]).0| > Scan(s[1..]))
    ensures r.Decoded? ==>
              && r.end <= |s| && fresh(r.out) && r.out.Length == Scan(s[1..]) + 1 && Holds(r.out, Characters(s[1..]).0)
              && JsonModel.ParseString(s) == Some((Characters(s[1..]).0, s[r.end..]))
  {
    if Peek(s, 0) != QUOTE {
      return NotString;
    }
    var len := Measure(s, 1);
    var out := new Byte[len + 1];
    ghost var all := s[1..];
    var ok, ptr, i := DecodeLoop(out, s, len, all);
    if !ok {
      return Overrun;
    }
    End(out, ptr, Characters(all).0);
    var end := if i < |s| && s[i] == QUOTE then i + 1 else i;
    assert i < |s| ==> s[i..][1..] == s[i + 1..];
    return Decoded(out, end);
  }

  method DecodeLoop(out: array<Byte>, s: Text, len: nat, ghost all: Text) returns (ok: bool, ptr: nat, i: nat)
    requires s != [] && all == s[1..] && out.Length == len + 1
    modifies out
    ensures ok <==> |Characters(all).0| <= len
    ensures ok ==> i <= |s| && s[i..] == Characters(all).1 && ptr <= len && out[..ptr] == Characters(all).0
  {
    ok, i, ptr := true, 1, 0;
    assert [] + Characters(all).0 == Characters(all).0;
    while i < |s| && s[i] != QUOTE && s[i] != 0
      invariant ok && 1 <= i <= |s| && ptr <= len && SoFar(out[..ptr], s[i..], all)
      decreases |s| - i
    {
      ghost var done, rest := out[..ptr], s[i..];
      if s[i] != BACKSLASH {
        NextPlain(done, rest, all);
        assert rest[1..] == s[i + 1..];
        if ptr == len {
          return false, ptr, i;
        }
        ptr := Put(out, ptr, [s[i]]);
        i := i + 1;
      } else {
        NextEscape(done, rest, all);
        var fits, p, j := DecodeEscape(out, ptr, len, s, i);
        if !fits {
          return false, ptr, i;
        }
        ptr, i := p, j;
      }
    }
    assert AtEnd(s[i..]) && out[..ptr] + [] == out[..ptr];
  }
}
