/** Frames begun inside one another: what is on the wire, and what the receive loop makes of it. */
module PacketNests {
  import opened Common
  import opened LittleEndian
  import opened PacketModel

  /** What is sent at one level: data bytes of its own, and frames inside, each with a level of its own. */
  datatype Tale = End | Own(b: Byte, rest: Tale) | Inner(h: nat, body: Tale, rest: Tale)

  function OwnBytes(t: Tale): seq<Byte> {
    match t
    case End => []
    case Own(b, rest) => [b] + OwnBytes(rest)
    case Inner(_, _, rest) => OwnBytes(rest)
  }

  function Flat(p: Protocol, t: Tale): Atoms {
    match t
    case End => []
    case Own(b, rest) => Stuff1(b) + Flat(p, rest)
    case Inner(h, body, rest) => Opening(h) + (Flat(p, body) + (Closing(p, h, OwnBytes(body)) + Flat(p, rest)))
  }

  /** The frames in the order in which they are finished. */
  function Done(t: Tale): seq<Piece> {
    match t
    case End => []
    case Own(_, rest) => Done(rest)
    case Inner(h, body, rest) => Done(body) + ([Sent(h, OwnBytes(body))] + Done(rest))
  }

  predicate HasInner(t: Tale) { t.Inner? || (t.Own? && HasInner(t.rest)) }

  /** Some frame of a known type has another begun inside it. */
  predicate Crossed(p: Protocol, t: Tale) {
    match t
    case End => false
    case Own(_, rest) => Crossed(p, rest)
    case Inner(h, body, rest) => (h in p.known && HasInner(body)) || Crossed(p, body) || Crossed(p, rest)
  }

  ghost predicate Good(p: Protocol, t: Tale) {
    match t
    case End => true
    case Own(_, rest) => Good(p, rest)
    case Inner(h, body, rest) => PieceOk(p, Sent(h, OwnBytes(body))) && Good(p, body) && Good(p, rest)
  }

  function Size(t: Tale): nat {
    match t
    case End => 0
    case Own(_, rest) => 1 + Size(rest)
    case Inner(_, body, rest) => 1 + Size(body) + Size(rest)
  }

  lemma {:induction false} DoneGood(p: Protocol, t: Tale)
    requires forall x :: x in Done(t) ==> PieceOk(p, x)
    ensures Good(p, t)
  {
    match t
    case End =>
    case Own(_, rest) => DoneGood(p, rest);
    case Inner(h, body, rest) =>
      assert Sent(h, OwnBytes(body)) in Done(t);
      DoneGood(p, body);
      DoneGood(p, rest);
  }

  lemma {:induction false} FlatPlain(p: Protocol, t: Tale)
    requires !HasInner(t)
    ensures Flat(p, t) == Stuff(OwnBytes(t)) && Done(t) == []
  {
    if t.Own? {
      FlatPlain(p, t.rest);
      assert ([t.b] + OwnBytes(t.rest))[1..] == OwnBytes(t.rest);
    }
  }

  lemma {:induction false} ExpectedJoin(p: Protocol, a: seq<Piece>, b: seq<Piece>)
    ensures Expected(p, a + b) == Expected(p, a) + Expected(p, b)
  {
    if a == [] {
      assert a + b == b;
    } else {
      ExpectedJoin(p, a[1..], b);
      assert (a + b)[1..] == a[1..] + b && (a + b)[0] == a[0];
    }
  }

  function Alone(p: Protocol, h: nat, d: seq<Byte>): seq<(nat, seq<Byte>)> { if h in p.known then [(h, d)] else [] }

  lemma ExpectedInner(p: Protocol, t: Tale)
    requires t.Inner?
    ensures Expected(p, Done(t)) == Expected(p, Done(t.body)) + (Alone(p, t.h, OwnBytes(t.body)) + Expected(p, Done(t.rest)))
  {
    var x := Sent(t.h, OwnBytes(t.body));
    ExpectedJoin(p, Done(t.body), [x] + Done(t.rest));
    ExpectedJoin(p, [x], Done(t.rest));
    assert [x][1..] == [] && Expected(p, [x]) == Alone(p, t.h, OwnBytes(t.body));
  }

  // ---------------------------------------------------------------- nothing is lost

  /** The atoms of a frame with frames inside, and what follows it. */
  lemma InnerAtoms(p: Protocol, t: Tale, rest: Atoms)
    requires t.Inner?
    ensures Flat(p, t) + rest
            == Opening(t.h) + (Flat(p, t.body) + (Closing(p, t.h, OwnBytes(t.body)) + (Flat(p, t.rest) + rest)))
  {
    var (a, b, c, d) := (Opening(t.h), Flat(p, t.body), Closing(p, t.h, OwnBytes(t.body)), Flat(p, t.rest));
    Assoc(a, b + (c + d), rest);
    Assoc(b, c + d, rest);
    Assoc(c, d, rest);
  }

  lemma PlainFrame(p: Protocol, h: nat, d: seq<Byte>, rest: Atoms)
    requires h in p.known && PieceOk(p, Sent(h, d))
    ensures Deliver(p, Opening(h) + (Stuff(d) + (Closing(p, h, d) + rest))) == [(h, d)] + Deliver(p, rest)
  {
    Assoc(Opening(h), Stuff(d), Closing(p, h, d) + rest);
    Assoc(Body(h, d), Closing(p, h, d), rest);
    FrameDelivered(p, h, d, rest);
  }

  /** If no frame of a known type has another begun inside it, everything is delivered. */
  lemma {:induction false} AllArrive(p: Protocol, t: Tale, rest: Atoms)
    requires Good(p, t) && !Crossed(p, t)
    ensures Deliver(p, Flat(p, t) + rest) == Expected(p, Done(t)) + Deliver(p, rest)
    decreases t
  {
    match t
    case End => assert [] + rest == rest;
    case Own(b, more) =>
      Assoc(Stuff1(b), Flat(p, more), rest);
      SkipByte(p, b, Flat(p, more) + rest);
      AllArrive(p, more, rest);
    case Inner(h, body, more) =>
      var (c, d) := (Closing(p, h, OwnBytes(body)), OwnBytes(body));
      var v := Flat(p, more) + rest;
      InnerAtoms(p, t, rest);
      AllArrive(p, more, rest);
      if h in p.known {
        FlatPlain(p, body);
        PlainFrame(p, h, d, v);
        KnownSum(p, t, Deliver(p, rest));
      } else {
        UnknownOpening(p, h, Flat(p, body) + (c + v));
        AllArrive(p, body, c + v);
        NoiseSkipped(p, Field(Check(p, Body(h, d)), 2), v);
        UnknownSum(p, t, Deliver(p, rest));
      }
  }

  lemma UnknownSum(p: Protocol, t: Tale, x: seq<(nat, seq<Byte>)>)
    requires t.Inner? && t.h !in p.known
    ensures Expected(p, Done(t)) + x == Expected(p, Done(t.body)) + (Expected(p, Done(t.rest)) + x)
  {
    ExpectedInner(p, t);
    assert [] + Expected(p, Done(t.rest)) == Expected(p, Done(t.rest));
    Assoc(Expected(p, Done(t.body)), Expected(p, Done(t.rest)), x);
  }

  lemma KnownSum(p: Protocol, t: Tale, x: seq<(nat, seq<Byte>)>)
    requires t.Inner? && t.h in p.known && Done(t.body) == []
    ensures Expected(p, Done(t)) + x == [(t.h, OwnBytes(t.body))] + (Expected(p, Done(t.rest)) + x)
  {
    ExpectedInner(p, t);
    Assoc([(t.h, OwnBytes(t.body))], Expected(p, Done(t.rest)), x);
  }

  lemma SkipByte(p: Protocol, b: Byte, rest: Atoms)
    ensures Deliver(p, Stuff1(b) + rest) == Deliver(p, rest)
  {
    assert [b][1..] == [] && Stuff([b]) == Stuff1(b) + [] == Stuff1(b);
    NoiseSkipped(p, [b], rest);
  }

  // ---------------------------------------------------------------- something is lost

  /** The data bytes before the first frame inside, and what is sent from there on. */
  function Before(t: Tale): seq<Byte> { if t.Own? then [t.b] + Before(t.rest) else [] }

  function From(t: Tale): (f: Tale)
    ensures Size(f) <= Size(t) && Done(f) == Done(t) && (HasInner(t) ==> f.Inner?)
  {
    if t.Own? then From(t.rest) else t
  }

  lemma {:induction false} SplitAtInner(p: Protocol, t: Tale, rest: Atoms)
    ensures Flat(p, t) + rest == Stuff(Before(t)) + (Flat(p, From(t)) + rest)
  {
    if t.Own? {
      SplitAtInner(p, t.rest, rest);
      Assoc(Stuff1(t.b), Flat(p, t.rest), rest);
      assert ([t.b] + Before(t.rest))[1..] == Before(t.rest);
      Assoc(Stuff1(t.b), Stuff(Before(t.rest)), Flat(p, From(t.rest)) + rest);
    } else {
      assert Stuff([]) == [] && [] + (Flat(p, t) + rest) == Flat(p, t) + rest;
    }
  }

  lemma {:induction false} SplitData(p: Protocol, t: Tale)
    ensures OwnBytes(t) == Before(t) + OwnBytes(From(t)) && (Good(p, t) ==> Good(p, From(t)))
  {
    if t.Own? {
      SplitData(p, t.rest);
      Assoc([t.b], Before(t.rest), OwnBytes(From(t.rest)));
    } else {
      assert [] + OwnBytes(t) == OwnBytes(t);
    }
  }

  /** A frame of a known type ends at the head of the frame inside, which is lost with it. */
  lemma CrossedHandled(p: Protocol, h: nat, x: seq<Byte>, d: seq<Byte>, u: Atoms)
    requires h in p.known && PieceOk(p, Sent(h, d)) && |x| <= |d| && d[..|x|] == x
    ensures Deliver(p, Opening(h) + (Stuff(x) + ([HEAD] + u))) == Deliver(p, u)
  {
    var k := 4 + |x|;
    var y := Payload(p, h, d);
    assert y[..k] == Field(h, 4) + x;
    StuffJoin(Field(h, 4), x);
    CutHandled(p, h, d, k, u);
    Assoc([HEAD], Stuff(Field(h, 4)), Stuff(x) + ([HEAD] + u));
    Assoc(Stuff(Field(h, 4)), Stuff(x), [HEAD] + u);
  }

  /** What is left of a frame whose head is lost. */
  lemma Beheaded(p: Protocol, t: Tale, rest: Atoms)
    requires t.Inner?
    ensures var u := Stuff(Field(t.h, 4)) + (Flat(p, t.body) + (Closing(p, t.h, OwnBytes(t.body)) + (Flat(p, t.rest) + rest)));
            && Flat(p, t) + rest == [HEAD] + u
            && Deliver(p, u) == Deliver(p, Flat(p, t.body) + (Closing(p, t.h, OwnBytes(t.body)) + (Flat(p, t.rest) + rest)))
  {
    var v := Flat(p, t.body) + (Closing(p, t.h, OwnBytes(t.body)) + (Flat(p, t.rest) + rest));
    InnerAtoms(p, t, rest);
    Assoc([HEAD], Stuff(Field(t.h, 4)), v);
    NoiseSkipped(p, Field(t.h, 4), v);
  }

  /** The frame inside has lost its head, and the known one around it is not delivered: fewer arrive than were sent. */
  lemma {:induction false} NoMoreArrive(p: Protocol, t: Tale, rest: Atoms)
    requires Good(p, t)
    ensures |Deliver(p, Flat(p, t) + rest)| <= |Expected(p, Done(t))| + |Deliver(p, rest)|
    ensures Crossed(p, t) ==> |Deliver(p, Flat(p, t) + rest)| < |Expected(p, Done(t))| + |Deliver(p, rest)|
    decreases Size(t)
  {
    match t
    case End => assert [] + rest == rest;
    case Own(b, more) =>
      Assoc(Stuff1(b), Flat(p, more), rest);
      SkipByte(p, b, Flat(p, more) + rest);
      NoMoreArrive(p, more, rest);
    case Inner(h, body, more) =>
      InnerAtoms(p, t, rest);
      ExpectedInner(p, t);
      NoMoreArrive(p, more, rest);
      if h !in p.known {
        var v := Closing(p, h, OwnBytes(body)) + (Flat(p, more) + rest);
        UnknownOpening(p, h, Flat(p, body) + v);
        NoMoreArrive(p, body, v);
        NoiseSkipped(p, Field(Check(p, Body(h, OwnBytes(body))), 2), Flat(p, more) + rest);
      } else if HasInner(body) {
        CrossedFewer(p, t, rest);
      } else {
        FlatPlain(p, body);
        PlainFrame(p, h, OwnBytes(body), Flat(p, more) + rest);
        PlainNotCrossed(p, body);
      }
  }

  lemma {:induction false} PlainNotCrossed(p: Protocol, t: Tale)
    requires !HasInner(t)
    ensures !Crossed(p, t)
  {
    if t.Own? { PlainNotCrossed(p, t.rest); }
  }

  lemma {:induction false} CrossedFewer(p: Protocol, t: Tale, rest: Atoms)
    requires t.Inner? && Good(p, t) && t.h in p.known && HasInner(t.body)
    ensures |Deliver(p, Flat(p, t) + rest)| < |Expected(p, Done(t))| + |Deliver(p, rest)|
    decreases Size(t), 0
  {
    var (h, body, more) := (t.h, t.body, t.rest);
    var w := Closing(p, h, OwnBytes(body)) + (Flat(p, more) + rest);
    var f := From(body);
    SplitAtInner(p, body, w);
    SplitData(p, body);
    Beheaded(p, f, w);
    InnerAtoms(p, t, rest);
    var v := Closing(p, f.h, OwnBytes(f.body)) + (Flat(p, f.rest) + w);
    CrossedHandled(p, h, Before(body), OwnBytes(body), Stuff(Field(f.h, 4)) + (Flat(p, f.body) + v));
    NoMoreArrive(p, f.body, v);
    NoiseSkipped(p, Field(Check(p, Body(f.h, OwnBytes(f.body))), 2), Flat(p, f.rest) + w);
    NoMoreArrive(p, f.rest, w);
    NoiseSkipped(p, Field(Check(p, Body(h, OwnBytes(body))), 2), Flat(p, more) + rest);
    NoMoreArrive(p, more, rest);
    ExpectedInner(p, t);
    ExpectedInner(p, f);
  }

  /** All that was sent arrives, once and in order, exactly if no frame of a known type has another begun inside it. */
  lemma ArriveExactly(p: Protocol, t: Tale)
    requires Good(p, t)
    ensures Deliver(p, Flat(p, t)) == Expected(p, Done(t)) <==> !Crossed(p, t)
  {
    assert Flat(p, t) + [] == Flat(p, t);
    assert Deliver(p, []) == [];
    if Crossed(p, t) {
      NoMoreArrive(p, t, []);
    } else {
      AllArrive(p, t, []);
      assert Expected(p, Done(t)) + [] == Expected(p, Done(t));
    }
  }
}
