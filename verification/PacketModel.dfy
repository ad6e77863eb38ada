/**
 * The framing of the link between the boards (`packet.cxx`): a frame is the head byte, the type's hash, the value and a
 * checksum over all bytes sent before it; head and escape bytes inside a frame are escaped.
 */
module PacketModel {
  import opened Common
  import opened LittleEndian

  const HEAD: Byte := 0xA5
  const ESCAPE: Byte := 0xFF

  type Atoms = seq<Byte>    // bytes on the wire

  type Crc = n: int | 0 <= n < 0x1_0000

  const CRC_INIT: Crc := 0xFFFF

  /**
   * What both sides agree on: the step of the checksum and its final form; the types with a handler; and for each type,
   * whether its parser wants another byte after those it has read.
   */
  datatype Protocol = Protocol(step: (Crc, Byte) -> Crc, final: Crc -> Crc, known: set<nat>, more: (nat, seq<Byte>) -> bool)

  function Sum(p: Protocol, c: Crc, s: Atoms): Crc
    decreases |s|
  {
    if s == [] then c else Sum(p, p.step(c, s[0]), s[1..])
  }

  function Check(p: Protocol, s: Atoms): Crc { p.final(Sum(p, CRC_INIT, s)) }

  lemma {:induction false} SumJoin(p: Protocol, c: Crc, a: Atoms, b: Atoms)
    ensures Sum(p, c, a + b) == Sum(p, Sum(p, c, a), b)
    decreases |a|
  {
    if a == [] {
      assert a + b == b;
    } else {
      assert (a + b)[1..] == a[1..] + b;
      SumJoin(p, p.step(c, a[0]), a[1..], b);
    }
  }

  // ---------------------------------------------------------------- emitting

  function Stuff1(b: Byte): Atoms { if b == HEAD || b == ESCAPE then [ESCAPE, b] else [b] }

  function Stuff(d: seq<Byte>): Atoms { if d == [] then [] else Stuff1(d[0]) + Stuff(d[1..]) }

  /** What an emitter sends when it is made. */
  function Opening(h: nat): Atoms { [HEAD] + Stuff(Field(h, 4)) }

  /** Everything of a frame but its checksum. */
  function Body(h: nat, d: seq<Byte>): Atoms { Opening(h) + Stuff(d) }

  /** What it sends when it is destroyed. */
  function Closing(p: Protocol, h: nat, d: seq<Byte>): Atoms { Stuff(Field(Check(p, Body(h, d)), 2)) }

  function Frame(p: Protocol, h: nat, d: seq<Byte>): Atoms { Body(h, d) + Closing(p, h, d) }

  /** The wire and an emitter's checksum after some atoms. */
  function SendAtoms(p: Protocol, wire: Atoms, crc: Crc, s: Atoms): (Atoms, Crc) { (wire + s, Sum(p, crc, s)) }

  // ---------------------------------------------------------------- absorbing

  /** One byte read: a data byte, a bare head, a bad escape, or no byte there yet. */
  datatype ByteRead = Wait | Data(b: Byte, rest: Atoms) | Head(rest: Atoms) | BadEscape(rest: Atoms)

  function ReadByte(s: Atoms): (r: ByteRead)
    ensures !r.Wait? ==> |r.rest| < |s|
  {
    if s == [] then Wait
    else if s[0] == HEAD then Head(s[1..])
    else if s[0] != ESCAPE then Data(s[0], s[1..])
    else if |s| == 1 then Wait
    else if s[1] == HEAD || s[1] == ESCAPE then Data(s[1], s[2..])
    else BadEscape(s[2..])
  }

  /** Data bytes read; a failure leaves the atoms behind the offending one. */
  datatype DataRead = Starved | Read(d: seq<Byte>, rest: Atoms) | Broken(rest: Atoms)

  function ReadBytes(s: Atoms, n: nat): (r: DataRead)
    ensures !r.Starved? ==> |r.rest| <= |s|
    ensures r.Read? ==> |r.d| == n
    ensures r.Broken? ==> |r.rest| < |s|
  {
    if n == 0 then Read([], s)
    else
      var b := ReadByte(s);
      if b.Wait? then Starved
      else if !b.Data? then Broken(b.rest)
      else
        var r := ReadBytes(b.rest, n - 1);
        if r.Read? then Read([b.b] + r.d, r.rest) else r
  }

  /** The parser of a type reads on until it has what it wants. */
  function ReadValue(p: Protocol, h: nat, got: seq<Byte>, s: Atoms): (r: DataRead)
    ensures !r.Starved? ==> |r.rest| <= |s|
    decreases |s|
  {
    if !p.more(h, got) then Read(got, s)
    else
      var b := ReadByte(s);
      if b.Wait? then Starved
      else if !b.Data? then Broken(b.rest)
      else ReadValue(p, h, got + [b.b], b.rest)
  }

  datatype Handled = Blocked | Skipped(rest: Atoms) | Delivered(h: nat, d: seq<Byte>, rest: Atoms)

  /** `handleFrame`: the atoms of `s` from the front. The checksum covers what was consumed before it. */
  function HandleFrame(p: Protocol, s: Atoms): (r: Handled)
    ensures !r.Blocked? ==> |r.rest| < |s|
  {
    match ReadByte(s)
    case Wait => Blocked
    case Data(_, rest) => Skipped(rest)
    case BadEscape(rest) => Skipped(rest)
    case Head(rest) => HandleBody(p, s, rest)
  }

  function HandleBody(p: Protocol, s: Atoms, t: Atoms): (r: Handled)
    ensures !r.Blocked? ==> |r.rest| <= |t|
  {
    match ReadBytes(t, 4)
    case Starved => Blocked
    case Broken(rest) => Skipped(rest)
    case Read(hb, rest) =>
      var h := Value(hb);
      if h !in p.known then Skipped(rest) else HandleValue(p, s, h, rest)
  }

  function HandleValue(p: Protocol, s: Atoms, h: nat, t: Atoms): (r: Handled)
    ensures !r.Blocked? ==> |r.rest| <= |t|
  {
    match ReadValue(p, h, [], t)
    case Starved => Blocked
    case Broken(rest) => Skipped(rest)
    case Read(d, rest) => HandleCheck(p, s, h, d, rest)
  }

  function HandleCheck(p: Protocol, s: Atoms, h: nat, d: seq<Byte>, t: Atoms): (r: Handled)
    ensures !r.Blocked? ==> |r.rest| <= |t|
  {
    match ReadBytes(t, 2)
    case Starved => Blocked
    case Broken(rest) => Skipped(rest)
    case Read(c, rest) =>
      if |t| <= |s| && Value(c) == Check(p, s[..|s| - |t|]) then Delivered(h, d, rest) else Skipped(rest)
  }

  /** The receive loop: what is handed to the callbacks while there are atoms to read. */
  function Deliver(p: Protocol, s: Atoms): seq<(nat, seq<Byte>)>
    decreases |s|
  {
    match HandleFrame(p, s)
    case Blocked => []
    case Skipped(rest) => Deliver(p, rest)
    case Delivered(h, d, rest) => [(h, d)] + Deliver(p, rest)
  }

  // ---------------------------------------------------------------- one frame

  lemma ReadStuffed1(b: Byte, rest: Atoms)
    ensures ReadByte(Stuff1(b) + rest) == Data(b, rest)
  {
    var s := Stuff1(b) + rest;
    if b == HEAD || b == ESCAPE {
      assert s[2..] == rest;
    } else {
      assert s[1..] == rest;
    }
  }

  lemma {:induction false} ReadStuffed(d: seq<Byte>, rest: Atoms)
    ensures ReadBytes(Stuff(d) + rest, |d|) == Read(d, rest)
  {
    if d == [] {
      assert Stuff(d) + rest == rest;
    } else {
      var more := Stuff(d[1..]) + rest;
      assert Stuff(d) + rest == Stuff1(d[0]) + more;
      ReadStuffed1(d[0], more);
      ReadStuffed(d[1..], rest);
      assert d == [d[0]] + d[1..];
    }
  }

  /** The bytes are just what the parser of the type wants: it asks for each of them, and for no more. */
  ghost predicate Complete(p: Protocol, h: nat, d: seq<Byte>) {
    !p.more(h, d) && forall i :: 0 <= i < |d| ==> p.more(h, d[..i])
  }

  lemma {:induction false} ReadValueBack(p: Protocol, h: nat, d: seq<Byte>, i: nat, rest: Atoms)
    requires Complete(p, h, d) && i <= |d|
    ensures ReadValue(p, h, d[..i], Stuff(d[i..]) + rest) == Read(d, rest)
    decreases |d| - i
  {
    if i == |d| {
      assert d[..i] == d && Stuff(d[i..]) + rest == rest;
    } else {
      var more := Stuff(d[i + 1..]) + rest;
      assert d[i..][1..] == d[i + 1..];
      Assoc(Stuff1(d[i]), Stuff(d[i + 1..]), rest);
      ReadStuffed1(d[i], more);
      assert d[..i] + [d[i]] == d[..i + 1];
      ReadValueBack(p, h, d, i + 1, rest);
    }
  }

  lemma CheckBack(p: Protocol, s: Atoms, h: nat, d: seq<Byte>, c: Crc, rest: Atoms)
    requires var t := Stuff(Field(c, 2)) + rest; |t| <= |s| && c == Check(p, s[..|s| - |t|])
    ensures HandleCheck(p, s, h, d, Stuff(Field(c, 2)) + rest) == Delivered(h, d, rest)
  {
    ReadStuffed(Field(c, 2), rest);
    ValueOfField(c, 2);
  }

  lemma ValueHandled(p: Protocol, s: Atoms, h: nat, d: seq<Byte>, t: Atoms)
    requires Complete(p, h, d)
    ensures HandleValue(p, s, h, Stuff(d) + t) == HandleCheck(p, s, h, d, t)
  {
    assert d[..0] == [] && d[0..] == d;
    ReadValueBack(p, h, d, 0, t);
  }

  lemma BodyHandled(p: Protocol, s: Atoms, h: nat, t: Atoms)
    requires h < WORD && h in p.known
    ensures HandleBody(p, s, Stuff(Field(h, 4)) + t) == HandleValue(p, s, h, t)
  {
    ReadStuffed(Field(h, 4), t);
    ValueOfField(h, 4);
  }

  lemma FrameParts(p: Protocol, h: nat, d: seq<Byte>, rest: Atoms)
    ensures var t := Stuff(Field(Check(p, Body(h, d)), 2)) + rest;
            var v := Stuff(Field(h, 4)) + (Stuff(d) + t);
            var s := Frame(p, h, d) + rest;
            s == [HEAD] + v && s[1..] == v && |t| <= |s| && s[..|s| - |t|] == Body(h, d)
  {
    var c := Stuff(Field(Check(p, Body(h, d)), 2));
    assert Frame(p, h, d) + rest == Body(h, d) + (c + rest);
    assert Body(h, d) + (c + rest) == [HEAD] + (Stuff(Field(h, 4)) + (Stuff(d) + (c + rest)));
  }

  /** A frame of a known type is delivered as it was sent, and the checksums agree. */
  lemma FrameDelivered(p: Protocol, h: nat, d: seq<Byte>, rest: Atoms)
    requires h < WORD && h in p.known && Complete(p, h, d)
    ensures HandleFrame(p, Frame(p, h, d) + rest) == Delivered(h, d, rest)
  {
    var s := Frame(p, h, d) + rest;
    var c := Check(p, Body(h, d));
    var t := Stuff(Field(c, 2)) + rest;
    FrameParts(p, h, d, rest);
    BodyHandled(p, s, h, Stuff(d) + t);
    ValueHandled(p, s, h, d, t);
    CheckBack(p, s, h, d, c, rest);
  }

  /** A data byte is read only where it was sent. */
  lemma DataStuffed(s: Atoms)
    requires ReadByte(s).Data?
    ensures s == Stuff1(ReadByte(s).b) + ReadByte(s).rest
  {
  }

  lemma {:induction false} BytesStuffed(s: Atoms, n: nat)
    requires ReadBytes(s, n).Read?
    ensures s == Stuff(ReadBytes(s, n).d) + ReadBytes(s, n).rest
  {
    if n > 0 {
      var b := ReadByte(s);
      var r := ReadBytes(b.rest, n - 1);
      DataStuffed(s);
      BytesStuffed(b.rest, n - 1);
      assert ([b.b] + r.d)[1..] == r.d;
      Assoc(Stuff1(b.b), Stuff(r.d), r.rest);
    }
  }

  /** The value of a type ends where its parser has enough, and not before. */
  lemma {:induction false} ValueStuffed(p: Protocol, h: nat, got: seq<Byte>, s: Atoms)
    requires ReadValue(p, h, got, s).Read? && forall i :: 0 <= i < |got| ==> p.more(h, got[..i])
    ensures var r := ReadValue(p, h, got, s); Complete(p, h, r.d) && got <= r.d && s == Stuff(r.d[|got|..]) + r.rest
    decreases |s|
  {
    if p.more(h, got) {
      var b := ReadByte(s);
      var more := got + [b.b];
      forall i | 0 <= i < |more| ensures p.more(h, more[..i]) {
        if i < |got| { assert more[..i] == got[..i]; } else { assert more[..i] == got; }
      }
      DataStuffed(s);
      ValueStuffed(p, h, more, b.rest);
      var d := ReadValue(p, h, more, b.rest).d;
      assert d[|got|..][1..] == d[|more|..] && d[|got|..][0] == b.b;
      Assoc(Stuff1(b.b), Stuff(d[|more|..]), ReadValue(p, h, more, b.rest).rest);
    } else {
      assert got[|got|..] == [] && Stuff([]) + s == s;
    }
  }

  lemma CheckStuffed(p: Protocol, s: Atoms, h: nat, d: seq<Byte>, t: Atoms)
    requires HandleCheck(p, s, h, d, t).Delivered?
    ensures var r := HandleCheck(p, s, h, d, t);
            r.h == h && r.d == d && |t| <= |s| && t == Stuff(Field(Check(p, s[..|s| - |t|]), 2)) + r.rest
  {
    BytesStuffed(t, 2);
    FieldOfValue(ReadBytes(t, 2).d);
  }

  /** Behind the hash: the value, and the checksum of all before it. */
  lemma TailStuffed(p: Protocol, s: Atoms, h: nat, t: Atoms)
    requires HandleValue(p, s, h, t).Delivered?
    ensures var r := HandleValue(p, s, h, t);
            var n := |t| - |Stuff(r.d)|;
            && r.h == h && Complete(p, h, r.d) && 0 <= n <= |s|
            && t == Stuff(r.d) + (Stuff(Field(Check(p, s[..|s| - n]), 2)) + r.rest)
  {
    var v := ReadValue(p, h, [], t);
    ValueStuffed(p, h, [], t);
    assert v.d[0..] == v.d;
    CheckStuffed(p, s, h, v.d, v.rest);
  }

  /** Parts that carry the checksum of all before it are a frame. */
  lemma PartsFrame(p: Protocol, s: Atoms, h: nat, d: seq<Byte>, c: Crc, rest: Atoms)
    requires var t := Stuff(Field(c, 2)) + rest;
             s == [HEAD] + (Stuff(Field(h, 4)) + (Stuff(d) + t)) && |t| <= |s| && c == Check(p, s[..|s| - |t|])
    ensures s == Frame(p, h, d) + rest
  {
    Sections(s, Stuff(Field(h, 4)), Stuff(d), Stuff(Field(c, 2)), rest);
  }

  lemma Sections(s: Atoms, a: Atoms, b: Atoms, c: Atoms, rest: Atoms)
    requires s == [HEAD] + (a + (b + (c + rest)))
    ensures s == (([HEAD] + a + b) + c) + rest && s[..|s| - |c + rest|] == [HEAD] + a + b
  {
  }

  /** Behind the head: the hash of a known type. */
  lemma HashStuffed(p: Protocol, s: Atoms, t: Atoms)
    requires HandleBody(p, s, t).Delivered?
    ensures var (r, v) := (HandleBody(p, s, t), ReadBytes(t, 4));
            && v.Read? && HandleValue(p, s, r.h, v.rest) == r && r.h < WORD && r.h in p.known
            && t == Stuff(Field(r.h, 4)) + v.rest
  {
    var v := ReadBytes(t, 4);
    BytesStuffed(t, 4);
    WordValue(v.d);
    FieldOfValue(v.d);
    TailStuffed(p, s, Value(v.d), v.rest);
  }

  /** Nothing is delivered but a frame with its own checksum. */
  lemma OnlyFrames(p: Protocol, s: Atoms)
    requires HandleFrame(p, s).Delivered?
    ensures var r := HandleFrame(p, s); r.h < WORD && r.h in p.known && Complete(p, r.h, r.d) && s == Frame(p, r.h, r.d) + r.rest
  {
    var (r, v) := (HandleFrame(p, s), ReadBytes(s[1..], 4));
    HashStuffed(p, s, s[1..]);
    TailStuffed(p, s, r.h, v.rest);
    assert s == [HEAD] + s[1..];
    PartsFrame(p, s, r.h, r.d, Check(p, s[..|s| - (|v.rest| - |Stuff(r.d)|)]), r.rest);
  }

  /** `handleFrame` delivers exactly the frames of known types. */
  lemma FrameExact(p: Protocol, s: Atoms, h: nat, d: seq<Byte>, rest: Atoms)
    ensures HandleFrame(p, s) == Delivered(h, d, rest) <==> h < WORD && h in p.known && Complete(p, h, d) && s == Frame(p, h, d) + rest
  {
    if h < WORD && h in p.known && Complete(p, h, d) { FrameDelivered(p, h, d, rest); }
    if HandleFrame(p, s) == Delivered(h, d, rest) { OnlyFrames(p, s); }
  }

  // ---------------------------------------------------------------- nothing but frames

  predicate Suffix(t: Atoms, s: Atoms) { |t| <= |s| && t == s[|s| - |t|..] }

  lemma SuffixOf(a: Atoms, b: Atoms, c: Atoms)
    requires Suffix(a, b) && Suffix(b, c)
    ensures Suffix(a, c)
  {
  }

  lemma {:induction false} BytesSuffix(s: Atoms, n: nat)
    ensures !ReadBytes(s, n).Starved? ==> Suffix(ReadBytes(s, n).rest, s)
  {
    if n > 0 && ReadByte(s).Data? {
      var rest := ReadByte(s).rest;
      BytesSuffix(rest, n - 1);
      if !ReadBytes(rest, n - 1).Starved? { SuffixOf(ReadBytes(rest, n - 1).rest, rest, s); }
    }
  }

  lemma ByteSuffix(s: Atoms)
    ensures !ReadByte(s).Wait? ==> Suffix(ReadByte(s).rest, s)
  {
  }

  lemma {:induction false} ValueSuffix(p: Protocol, h: nat, got: seq<Byte>, s: Atoms)
    ensures !ReadValue(p, h, got, s).Starved? ==> Suffix(ReadValue(p, h, got, s).rest, s)
    decreases |s|
  {
    var (b, r) := (ReadByte(s), ReadValue(p, h, got, s));
    ByteSuffix(s);
    if p.more(h, got) {
      if b.Data? {
        ValueSuffix(p, h, got + [b.b], b.rest);
        assert r == ReadValue(p, h, got + [b.b], b.rest);
        if !r.Starved? { SuffixOf(r.rest, b.rest, s); }
      }
    } else {
      assert r.rest == s;
    }
  }

  lemma CheckSuffix(p: Protocol, s: Atoms, h: nat, t: Atoms)
    ensures !HandleValue(p, s, h, t).Blocked? ==> Suffix(HandleValue(p, s, h, t).rest, t)
  {
    var v := ReadValue(p, h, [], t);
    ValueSuffix(p, h, [], t);
    if v.Read? {
      BytesSuffix(v.rest, 2);
      var r := HandleCheck(p, s, h, v.d, v.rest);
      if !r.Blocked? { SuffixOf(r.rest, v.rest, t); }
    }
  }

  /** Handling a frame leaves the end of what was there. */
  lemma FrameSuffix(p: Protocol, s: Atoms)
    ensures !HandleFrame(p, s).Blocked? ==> Suffix(HandleFrame(p, s).rest, s)
  {
    if ReadByte(s).Head? {
      var (t, r) := (s[1..], HandleFrame(p, s));
      BytesSuffix(t, 4);
      var v := ReadBytes(t, 4);
      if v.Read? {
        CheckSuffix(p, s, Value(v.d), v.rest);
        if !r.Blocked? { SuffixOf(r.rest, v.rest, t); }
      }
      if !r.Blocked? { SuffixOf(r.rest, t, s); }
    }
  }

  /** The wire holds frames of these, whole, one behind the other, with anything before, between and behind them. */
  ghost predicate Carries(p: Protocol, s: Atoms, ds: seq<(nat, seq<Byte>)>)
    decreases |ds|
  {
    ds == [] || exists k: nat :: CarriesAt(p, s, ds, k)
  }

  ghost predicate CarriesAt(p: Protocol, s: Atoms, ds: seq<(nat, seq<Byte>)>, k: nat)
    requires ds != []
    decreases |ds|, 0
  {
    var f := Frame(p, ds[0].0, ds[0].1);
    k + |f| <= |s| && s[k..k + |f|] == f && Carries(p, s[k + |f|..], ds[1..])
  }

  lemma CarriesLonger(p: Protocol, t: Atoms, s: Atoms, ds: seq<(nat, seq<Byte>)>)
    requires Suffix(t, s) && Carries(p, t, ds)
    ensures Carries(p, s, ds)
  {
    if ds != [] {
      var k: nat :| CarriesAt(p, t, ds, k);
      var (n, f) := (|s| - |t|, Frame(p, ds[0].0, ds[0].1));
      assert s[n + k..n + k + |f|] == t[k..k + |f|] && s[n + k + |f|..] == t[k + |f|..];
      assert CarriesAt(p, s, ds, n + k);
    }
  }

  /** Whatever is on the wire, all that is delivered is there as whole frames with their checksums, in that order. */
  lemma {:induction false} DeliveredCarried(p: Protocol, s: Atoms)
    ensures Carries(p, s, Deliver(p, s))
    decreases |s|
  {
    var r := HandleFrame(p, s);
    if !r.Blocked? {
      DeliveredCarried(p, r.rest);
      FrameSuffix(p, s);
      if r.Skipped? {
        CarriesLonger(p, r.rest, s, Deliver(p, r.rest));
      } else {
        OnlyFrames(p, s);
        var (ds, f) := (Deliver(p, s), Frame(p, r.h, r.d));
        assert ds[1..] == Deliver(p, r.rest) && s[0..0 + |f|] == f && s[0 + |f|..] == r.rest;
        assert CarriesAt(p, s, ds, 0);
      }
    }
  }

  // ---------------------------------------------------------------- noise

  /** Escaped bytes outside a frame, and so any bytes that are neither head nor escape, are passed over. */
  lemma {:induction false} NoiseSkipped(p: Protocol, d: seq<Byte>, rest: Atoms)
    ensures Deliver(p, Stuff(d) + rest) == Deliver(p, rest)
  {
    if d == [] {
      assert Stuff(d) + rest == rest;
    } else {
      var more := Stuff(d[1..]) + rest;
      assert Stuff(d) + rest == Stuff1(d[0]) + more;
      ReadStuffed1(d[0], more);
      NoiseSkipped(p, d[1..], rest);
    }
  }

  lemma {:induction false} PlainNoise(d: seq<Byte>)
    requires HEAD !in d && ESCAPE !in d
    ensures Stuff(d) == d
  {
    if d != [] {
      PlainNoise(d[1..]);
      assert d == [d[0]] + d[1..];
    }
  }

  lemma {:induction false} StuffJoin(a: seq<Byte>, b: seq<Byte>)
    ensures Stuff(a + b) == Stuff(a) + Stuff(b)
  {
    if a == [] {
      assert a + b == b;
    } else {
      StuffJoin(a[1..], b);
      assert (a + b)[1..] == a[1..] + b;
      assert (a + b)[0] == a[0];
      Assoc(Stuff1(a[0]), Stuff(a[1..]), Stuff(b));
    }
  }

  /** A frame of a type without a handler is passed over, whatever is in it. */
  lemma UnknownSkipped(p: Protocol, h: nat, d: seq<Byte>, rest: Atoms)
    requires h < WORD && h !in p.known
    ensures Deliver(p, Frame(p, h, d) + rest) == Deliver(p, rest)
  {
    var c := Stuff(Field(Check(p, Body(h, d)), 2));
    FrameParts(p, h, d, rest);
    ReadStuffed(Field(h, 4), Stuff(d) + (c + rest));
    ValueOfField(h, 4);
    NoiseSkipped(p, d, c + rest);
    NoiseSkipped(p, Field(Check(p, Body(h, d)), 2), rest);
  }

  // ---------------------------------------------------------------- a frame cut short

  /** A bare head among data breaks the read, and is used up. */
  lemma {:induction false} ReadBroken(d: seq<Byte>, n: nat, t: Atoms)
    requires |d| < n
    ensures ReadBytes(Stuff(d) + ([HEAD] + t), n) == Broken(t)
  {
    if d == [] {
      assert Stuff(d) + ([HEAD] + t) == [HEAD] + t;
    } else {
      var more := Stuff(d[1..]) + ([HEAD] + t);
      assert Stuff(d) + ([HEAD] + t) == Stuff1(d[0]) + more;
      ReadStuffed1(d[0], more);
      ReadBroken(d[1..], n - 1, t);
    }
  }

  lemma {:induction false} ReadValueBroken(p: Protocol, h: nat, d: seq<Byte>, i: nat, k: nat, t: Atoms)
    requires Complete(p, h, d) && i <= k < |d|
    ensures ReadValue(p, h, d[..i], Stuff(d[i..k]) + ([HEAD] + t)) == Broken(t)
    decreases k - i
  {
    if i == k {
      assert Stuff(d[i..k]) + ([HEAD] + t) == [HEAD] + t;
    } else {
      var more := Stuff(d[i + 1..k]) + ([HEAD] + t);
      assert d[i..k][1..] == d[i + 1..k];
      assert Stuff(d[i..k]) + ([HEAD] + t) == Stuff1(d[i]) + more;
      ReadStuffed1(d[i], more);
      assert d[..i] + [d[i]] == d[..i + 1];
      ReadValueBroken(p, h, d, i + 1, k, t);
    }
  }

  /** The bytes of a frame behind its head. */
  function Payload(p: Protocol, h: nat, d: seq<Byte>): seq<Byte> { Field(h, 4) + (d + Field(Check(p, Body(h, d)), 2)) }

  lemma FrameIsPayload(p: Protocol, h: nat, d: seq<Byte>)
    ensures Frame(p, h, d) == [HEAD] + Stuff(Payload(p, h, d))
  {
    var c := Field(Check(p, Body(h, d)), 2);
    StuffJoin(Field(h, 4), d + c);
    StuffJoin(d, c);
    FourParts([HEAD], Stuff(Field(h, 4)), Stuff(d), Stuff(c));
  }

  /** The first `k` bytes of a payload: some of the hash, or the hash and some of what is behind it. */
  lemma CutPayload(p: Protocol, h: nat, d: seq<Byte>, k: nat)
    requires k <= |Payload(p, h, d)|
    ensures k < 4 ==> Payload(p, h, d)[..k] == Field(h, 4)[..k]
    ensures 4 <= k ==> Stuff(Payload(p, h, d)[..k]) == Stuff(Field(h, 4)) + Stuff((d + Field(Check(p, Body(h, d)), 2))[..k - 4])
  {
    var v := d + Field(Check(p, Body(h, d)), 2);
    if 4 <= k {
      assert (Field(h, 4) + v)[..k] == Field(h, 4) + v[..k - 4];
      StuffJoin(Field(h, 4), v[..k - 4]);
    } else {
      assert (Field(h, 4) + v)[..k] == Field(h, 4)[..k];
    }
  }

  /** Value and checksum of a known type, cut short by a head. */
  lemma CutValue(p: Protocol, s: Atoms, h: nat, d: seq<Byte>, c: Crc, k: nat, t: Atoms)
    requires Complete(p, h, d) && k < |d| + 2
    ensures HandleValue(p, s, h, Stuff((d + Field(c, 2))[..k]) + ([HEAD] + t)) == Skipped(t)
  {
    if k < |d| {
      assert (d + Field(c, 2))[..k] == d[0..k] && d[..0] == [];
      ReadValueBroken(p, h, d, 0, k, t);
    } else {
      var e := Field(c, 2)[..k - |d|];
      assert (d + Field(c, 2))[..k] == d + e;
      StuffJoin(d, e);
      assert Stuff(d) + Stuff(e) + ([HEAD] + t) == Stuff(d) + (Stuff(e) + ([HEAD] + t));
      ValueHandled(p, s, h, d, Stuff(e) + ([HEAD] + t));
      ReadBroken(e, 2, t);
    }
  }

  lemma HeadHandled(p: Protocol, u: Atoms)
    ensures HandleFrame(p, [HEAD] + u) == HandleBody(p, [HEAD] + u, u)
  {
    assert ([HEAD] + u)[1..] == u;
    assert ReadByte([HEAD] + u) == Head(u);
  }

  lemma HashBroken(p: Protocol, s: Atoms, u: Atoms, t: Atoms)
    requires ReadBytes(u, 4) == Broken(t)
    ensures HandleBody(p, s, u) == Skipped(t)
  {
  }

  lemma CutEarly(p: Protocol, x: seq<Byte>, t: Atoms)
    requires |x| < 4
    ensures HandleFrame(p, [HEAD] + (Stuff(x) + ([HEAD] + t))) == Skipped(t)
  {
    var u := Stuff(x) + ([HEAD] + t);
    HeadHandled(p, u);
    ReadBroken(x, 4, t);
    HashBroken(p, [HEAD] + u, u, t);
  }

  lemma HashUnknown(p: Protocol, s: Atoms, h: nat, v: Atoms)
    requires h < WORD && h !in p.known
    ensures HandleBody(p, s, Stuff(Field(h, 4)) + v) == Skipped(v)
  {
    ReadStuffed(Field(h, 4), v);
    ValueOfField(h, 4);
  }

  lemma CutLate(p: Protocol, h: nat, d: seq<Byte>, c: Crc, k: nat, t: Atoms)
    requires h < WORD && (h in p.known ==> Complete(p, h, d)) && k < |d| + 2
    ensures var s := [HEAD] + (Stuff(Field(h, 4)) + (Stuff((d + Field(c, 2))[..k]) + ([HEAD] + t)));
            if h in p.known then HandleFrame(p, s) == Skipped(t) else Deliver(p, s) == Deliver(p, [HEAD] + t)
  {
    var v := Stuff((d + Field(c, 2))[..k]) + ([HEAD] + t);
    var u := Stuff(Field(h, 4)) + v;
    HeadHandled(p, u);
    if h in p.known {
      BodyHandled(p, [HEAD] + u, h, v);
      CutValue(p, [HEAD] + u, h, d, c, k, t);
    } else {
      HashUnknown(p, [HEAD] + u, h, v);
      NoiseSkipped(p, (d + Field(c, 2))[..k], [HEAD] + t);
    }
  }

  /** The head of the next frame ends a frame that was cut short, unless its type is known to be unknown by then. */
  lemma CutHandled(p: Protocol, h: nat, d: seq<Byte>, k: nat, t: Atoms)
    requires h < WORD && (h in p.known ==> Complete(p, h, d)) && k < |Payload(p, h, d)|
    ensures var s := [HEAD] + (Stuff(Payload(p, h, d)[..k]) + ([HEAD] + t));
            if k < 4 || h in p.known then HandleFrame(p, s) == Skipped(t)
            else Deliver(p, s) == Deliver(p, [HEAD] + t)
  {
    CutPayload(p, h, d, k);
    if k < 4 {
      CutEarly(p, Payload(p, h, d)[..k], t);
    } else {
      var c := Check(p, Body(h, d));
      CutLate(p, h, d, c, k - 4, t);
      Assoc(Stuff(Field(h, 4)), Stuff((d + Field(c, 2))[..k - 4]), [HEAD] + t);
    }
  }

  /**
   * A frame that is cut short before its last byte costs the whole frame behind it, whose head is taken for the end of
   * the cut one; only if the cut one was long enough to show an unknown type is the next one safe.
   */
  lemma CutFrame(p: Protocol, h: nat, d: seq<Byte>, k: nat, g: nat, e: seq<Byte>, rest: Atoms)
    requires h < WORD && (h in p.known ==> Complete(p, h, d)) && k < |Payload(p, h, d)|
    ensures Deliver(p, [HEAD] + Stuff(Payload(p, h, d)[..k]) + Frame(p, g, e) + rest)
            == if k < 4 || h in p.known then Deliver(p, rest) else Deliver(p, Frame(p, g, e) + rest)
  {
    var t := Stuff(Payload(p, g, e)) + rest;
    FrameIsPayload(p, g, e);
    assert Frame(p, g, e) + rest == [HEAD] + t;
    assert [HEAD] + Stuff(Payload(p, h, d)[..k]) + Frame(p, g, e) + rest == [HEAD] + (Stuff(Payload(p, h, d)[..k]) + ([HEAD] + t));
    CutHandled(p, h, d, k, t);
    NoiseSkipped(p, Payload(p, g, e), rest);
  }

  // ---------------------------------------------------------------- a frame cut inside an escape

  /** How many of the bytes `v` the parser of a type takes, if they are enough for it. */
  function Need(p: Protocol, h: nat, v: seq<Byte>, i: nat): (n: Option<nat>)
    requires i <= |v|
    ensures n.Some? ==> i <= n.value <= |v| && !p.more(h, v[..n.value]) && forall j :: i <= j < n.value ==> p.more(h, v[..j])
    ensures n.None? ==> forall j :: i <= j <= |v| ==> p.more(h, v[..j])
    decreases |v| - i
  {
    if !p.more(h, v[..i]) then Some(i) else if i == |v| then None else Need(p, h, v, i + 1)
  }

  lemma NeedComplete(p: Protocol, h: nat, v: seq<Byte>, n: nat)
    requires Need(p, h, v, 0) == Some(n)
    ensures n <= |v| && Complete(p, h, v[..n])
  {
    forall i | 0 <= i < n ensures p.more(h, v[..n][..i]) { assert v[..n][..i] == v[..i]; }
  }

  /** A parser that wants more than there is before a head. */
  lemma {:induction false} ReadWantsMore(p: Protocol, h: nat, v: seq<Byte>, i: nat, t: Atoms)
    requires i <= |v| && forall j :: i <= j <= |v| ==> p.more(h, v[..j])
    ensures ReadValue(p, h, v[..i], Stuff(v[i..]) + ([HEAD] + t)) == Broken(t)
    decreases |v| - i
  {
    if i == |v| {
      assert v[i..] == [] && Stuff(v[i..]) + ([HEAD] + t) == [HEAD] + t;
    } else {
      var more := Stuff(v[i + 1..]) + ([HEAD] + t);
      assert v[i..][1..] == v[i + 1..] && v[i..][0] == v[i];
      Assoc(Stuff1(v[i]), Stuff(v[i + 1..]), [HEAD] + t);
      ReadStuffed1(v[i], more);
      assert v[..i] + [v[i]] == v[..i + 1];
      ReadWantsMore(p, h, v, i + 1, t);
    }
  }

  lemma SplitStuff(v: seq<Byte>, n: nat, rest: Atoms)
    requires n <= |v|
    ensures Stuff(v) + rest == Stuff(v[..n]) + (Stuff(v[n..]) + rest)
  {
    assert v[..n] + v[n..] == v;
    StuffJoin(v[..n], v[n..]);
    Assoc(Stuff(v[..n]), Stuff(v[n..]), rest);
  }

  /** The next two bytes are taken for the checksum. */
  lemma CheckTaken(p: Protocol, s: Atoms, h: nat, d: seq<Byte>, c: seq<Byte>, body: Atoms, rest: Atoms)
    requires |c| == 2 && s == body + (Stuff(c) + rest)
    ensures HandleCheck(p, s, h, d, Stuff(c) + rest) == if Value(c) == Check(p, body) then Delivered(h, d, rest) else Skipped(rest)
  {
    ReadStuffed(c, rest);
    assert s[..|s| - |Stuff(c) + rest|] == body;
  }

  lemma UnknownOpening(p: Protocol, h: nat, v: Atoms)
    requires h < WORD && h !in p.known
    ensures Deliver(p, Opening(h) + v) == Deliver(p, v)
  {
    Assoc([HEAD], Stuff(Field(h, 4)), v);
    HeadHandled(p, Stuff(Field(h, 4)) + v);
    HashUnknown(p, [HEAD] + (Stuff(Field(h, 4)) + v), h, v);
  }

  lemma OpeningHandled(p: Protocol, h: nat, u: Atoms)
    requires h < WORD && h in p.known
    ensures HandleFrame(p, Opening(h) + u) == HandleValue(p, Opening(h) + u, h, u)
  {
    Assoc([HEAD], Stuff(Field(h, 4)), u);
    HeadHandled(p, Stuff(Field(h, 4)) + u);
    BodyHandled(p, Opening(h) + u, h, u);
  }

  lemma ValueThenCheck(p: Protocol, h: nat, d: seq<Byte>, c: seq<Byte>, t: Atoms)
    requires h < WORD && h in p.known && Complete(p, h, d) && |c| == 2
    ensures HandleFrame(p, Opening(h) + (Stuff(d) + (Stuff(c) + t)))
            == if Value(c) == Check(p, Body(h, d)) then Delivered(h, d, t) else Skipped(t)
  {
    var s := Opening(h) + (Stuff(d) + (Stuff(c) + t));
    OpeningHandled(p, h, Stuff(d) + (Stuff(c) + t));
    ValueHandled(p, s, h, d, Stuff(c) + t);
    Assoc(Opening(h), Stuff(d), Stuff(c) + t);
    CheckTaken(p, s, h, d, c, Body(h, d), t);
  }

  /** A head and bytes that are enough for the parser and a checksum: one value, if the checksum happens to agree. */
  lemma EnoughBytes(p: Protocol, h: nat, v: seq<Byte>, n: nat, rest: Atoms)
    requires h < WORD && h in p.known && Need(p, h, v, 0) == Some(n) && n + 2 <= |v|
    ensures Deliver(p, Opening(h) + (Stuff(v) + rest))
            == (if Value(v[n..n + 2]) == Check(p, Body(h, v[..n])) then [(h, v[..n])] else []) + Deliver(p, rest)
  {
    var (d, c, w) := (v[..n], v[n..n + 2], v[n + 2..]);
    NeedComplete(p, h, v, n);
    SplitStuff(v, n, rest);
    SplitStuff(v[n..], 2, rest);
    assert v[n..][..2] == c && v[n..][2..] == w;
    ValueThenCheck(p, h, d, c, Stuff(w) + rest);
    NoiseSkipped(p, w, rest);
    assert [] + Deliver(p, rest) == Deliver(p, rest);
  }

  /** A head and bytes that are not enough: the next head is taken with them. */
  lemma TooFewBytes(p: Protocol, h: nat, v: seq<Byte>, t: Atoms)
    requires h < WORD && h in p.known && (Need(p, h, v, 0).Some? ==> |v| < Need(p, h, v, 0).value + 2)
    ensures Deliver(p, Opening(h) + (Stuff(v) + ([HEAD] + t))) == Deliver(p, t)
  {
    var u := Stuff(v) + ([HEAD] + t);
    var s := Opening(h) + u;
    OpeningHandled(p, h, u);
    if Need(p, h, v, 0).None? {
      assert v[..0] == [] && v[0..] == v;
      ReadWantsMore(p, h, v, 0, t);
    } else {
      var n := Need(p, h, v, 0).value;
      NeedComplete(p, h, v, n);
      SplitStuff(v, n, [HEAD] + t);
      ValueHandled(p, s, h, v[..n], Stuff(v[n..]) + ([HEAD] + t));
      ReadBroken(v[n..], 2, t);
    }
  }

  /** A head and at least four bytes, then nothing or another head: all that can come of it. */
  ghost predicate RunTogether(p: Protocol, y: seq<Byte>, rest: Atoms)
    requires |y| >= 4
  {
    var (h, v) := (Value(y[..4]), y[4..]);
    var got := Deliver(p, [HEAD] + Stuff(y) + rest);
    if h !in p.known then got == Deliver(p, rest)
    else match Need(p, h, v, 0)
         case Some(n) =>
           if n + 2 <= |v| then
             got == (if Value(v[n..n + 2]) == Check(p, Body(h, v[..n])) then [(h, v[..n])] else []) + Deliver(p, rest)
           else rest != [] && rest[0] == HEAD ==> got == Deliver(p, rest[1..])
         case None => rest != [] && rest[0] == HEAD ==> got == Deliver(p, rest[1..])
  }

  lemma BytesOpening(y: seq<Byte>, rest: Atoms)
    requires |y| >= 4
    ensures Value(y[..4]) < WORD && [HEAD] + Stuff(y) + rest == Opening(Value(y[..4])) + (Stuff(y[4..]) + rest)
  {
    FieldOfValue(y[..4]);
    WordValue(y[..4]);
    SplitStuff(y, 4, rest);
    Assoc([HEAD], Stuff(y), rest);
    Assoc([HEAD], Stuff(y[..4]), Stuff(y[4..]) + rest);
  }

  lemma BytesRunTogether(p: Protocol, y: seq<Byte>, rest: Atoms)
    requires |y| >= 4
    ensures RunTogether(p, y, rest)
  {
    var (h, v) := (Value(y[..4]), y[4..]);
    BytesOpening(y, rest);
    if h !in p.known {
      UnknownOpening(p, h, Stuff(v) + rest);
      NoiseSkipped(p, v, rest);
    } else if Need(p, h, v, 0).Some? && Need(p, h, v, 0).value + 2 <= |v| {
      EnoughBytes(p, h, v, Need(p, h, v, 0).value, rest);
    } else if rest != [] && rest[0] == HEAD {
      assert [HEAD] + rest[1..] == rest;
      TooFewBytes(p, h, v, rest[1..]);
    }
  }

  /**
   * A frame that is cut between an escape and the byte it escapes: the head of the next frame is read as that byte, and
   * the two frames run together.
   */
  lemma CutInEscape(p: Protocol, h: nat, d: seq<Byte>, k: nat, g: nat, e: seq<Byte>, rest: Atoms)
    requires k < |Payload(p, h, d)|
    ensures var y := Payload(p, h, d)[..k] + ([HEAD] + Payload(p, g, e));
            && [HEAD] + Stuff(Payload(p, h, d)[..k]) + [ESCAPE] + Frame(p, g, e) + rest == [HEAD] + Stuff(y) + rest
            && RunTogether(p, y, rest)
  {
    var (x, z) := (Payload(p, h, d)[..k], Payload(p, g, e));
    var y := x + ([HEAD] + z);
    FrameIsPayload(p, g, e);
    StuffJoin(x, [HEAD] + z);
    StuffJoin([HEAD], z);
    assert [HEAD][1..] == [] && Stuff([HEAD]) == [ESCAPE, HEAD] + [] == [ESCAPE] + [HEAD];
    Assoc([ESCAPE], [HEAD], Stuff(z));
    Assoc([HEAD] + Stuff(x), [ESCAPE], [HEAD] + Stuff(z));
    Assoc([HEAD], Stuff(x), [ESCAPE] + ([HEAD] + Stuff(z)));
    BytesRunTogether(p, y, rest);
  }

  // ---------------------------------------------------------------- a whole wire

  datatype Piece = Noise(bytes: seq<Byte>) | Sent(h: nat, d: seq<Byte>)

  /** Noise has no head and no escape; a frame of a known type holds a value of it. */
  ghost predicate PieceOk(p: Protocol, x: Piece) {
    match x
    case Noise(b) => HEAD !in b && ESCAPE !in b
    case Sent(h, d) => h < WORD && (h in p.known ==> Complete(p, h, d))
  }

  function PieceAtoms(p: Protocol, x: Piece): Atoms { if x.Noise? then x.bytes else Frame(p, x.h, x.d) }

  function Wire(p: Protocol, xs: seq<Piece>): Atoms { if xs == [] then [] else PieceAtoms(p, xs[0]) + Wire(p, xs[1..]) }

  function Expected(p: Protocol, xs: seq<Piece>): seq<(nat, seq<Byte>)> {
    if xs == [] then [] else (if xs[0].Sent? && xs[0].h in p.known then [(xs[0].h, xs[0].d)] else []) + Expected(p, xs[1..])
  }

  /** The receive loop delivers exactly the frames of known types, in order; noise between frames changes nothing. */
  lemma {:induction false} AllDelivered(p: Protocol, xs: seq<Piece>)
    requires forall i :: 0 <= i < |xs| ==> PieceOk(p, xs[i])
    ensures Deliver(p, Wire(p, xs)) == Expected(p, xs)
  {
    if xs != [] {
      var (x, rest) := (xs[0], Wire(p, xs[1..]));
      AllDelivered(p, xs[1..]);
      if x.Noise? {
        PlainNoise(x.bytes);
        NoiseSkipped(p, x.bytes, rest);
      } else if x.h in p.known {
        FrameDelivered(p, x.h, x.d, rest);
      } else {
        UnknownSkipped(p, x.h, x.d, rest);
      }
    }
  }
}
