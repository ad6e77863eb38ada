/** Emitters of several threads, which take turns under the packet mutex, and of one thread inside one another. */
module EmitterRuns {
  import opened Common
  import opened LittleEndian
  import opened PacketModel
  import opened PacketNests

  /** An emitter at work: its value, how many bytes of it are sent, and its checksum so far. */
  datatype Writer = Writer(thread: nat, h: nat, d: seq<Byte>, sent: nat, crc: Crc)

  /** The emitters of the thread that holds the packet mutex, the one made last on top; `past` records what was sent at each level. */
  datatype Stack = Ground(past: Tale) | Within(w: Writer, past: Tale, below: Stack)

  /** `done` are the frames finished, in this order. */
  datatype Line = Line(wire: Atoms, done: seq<Piece>, open: Stack)

  /** An emitter is made, which locks the mutex and sends head and hash; it sends a byte; it is destroyed. */
  datatype Op = Lock(thread: nat, h: nat, d: seq<Byte>) | Put(thread: nat) | Unlock(thread: nat)

  /** The mutex lets its owner in again. */
  predicate Enabled(l: Line, op: Op) {
    match op
    case Lock(t, h, _) => h < WORD && (l.open.Within? ==> l.open.w.thread == t)
    case Put(t) => l.open.Within? && l.open.w.thread == t && l.open.w.sent < |l.open.w.d|
    case Unlock(t) => l.open.Within? && l.open.w.thread == t && l.open.w.sent == |l.open.w.d|
  }

  function Append(t: Tale, u: Tale): Tale {
    match t
    case End => u
    case Own(b, rest) => Own(b, Append(rest, u))
    case Inner(h, body, rest) => Inner(h, body, Append(rest, u))
  }

  function Record(s: Stack, u: Tale): Stack { s.(past := Append(s.past, u)) }

  function Step(p: Protocol, l: Line, op: Op): Line
    requires Enabled(l, op)
  {
    match op
    case Lock(t, h, d) =>
      var (wire, crc) := SendAtoms(p, l.wire, CRC_INIT, Opening(h));
      l.(wire := wire, open := Within(Writer(t, h, d, 0, crc), End, l.open))
    case Put(_) =>
      var w := l.open.w;
      var (wire, crc) := SendAtoms(p, l.wire, w.crc, Stuff1(w.d[w.sent]));
      l.(wire := wire, open := Record(l.open, Own(w.d[w.sent], End)).(w := w.(sent := w.sent + 1, crc := crc)))
    case Unlock(_) =>
      var w := l.open.w;
      Line(l.wire + Stuff(Field(p.final(w.crc), 2)), l.done + [Sent(w.h, w.d)], Record(l.open.below, Inner(w.h, l.open.past, End)))
  }

  // ---------------------------------------------------------------- what was sent

  lemma {:induction false} AppendData(t: Tale, u: Tale)
    ensures OwnBytes(Append(t, u)) == OwnBytes(t) + OwnBytes(u) && Done(Append(t, u)) == Done(t) + Done(u)
    ensures HasInner(Append(t, u)) <==> HasInner(t) || HasInner(u)
  {
    match t
    case End => assert [] + OwnBytes(u) == OwnBytes(u) && [] + Done(u) == Done(u);
    case Own(b, rest) =>
      AppendData(rest, u);
      Assoc([b], OwnBytes(rest), OwnBytes(u));
    case Inner(h, body, rest) =>
      AppendData(rest, u);
      Assoc([Sent(h, OwnBytes(body))], Done(rest), Done(u));
      Assoc(Done(body), [Sent(h, OwnBytes(body))] + Done(rest), Done(u));
  }

  lemma {:induction false} AppendFlat(p: Protocol, t: Tale, u: Tale)
    ensures Flat(p, Append(t, u)) == Flat(p, t) + Flat(p, u)
    ensures Crossed(p, Append(t, u)) <==> Crossed(p, t) || Crossed(p, u)
  {
    match t
    case End => assert [] + Flat(p, u) == Flat(p, u);
    case Own(b, rest) =>
      AppendFlat(p, rest, u);
      Assoc(Stuff1(b), Flat(p, rest), Flat(p, u));
    case Inner(h, body, rest) =>
      AppendFlat(p, rest, u);
      InnerAtoms(p, t, Flat(p, u));
  }

  function FlatStack(p: Protocol, s: Stack): Atoms {
    match s
    case Ground(past) => Flat(p, past)
    case Within(w, past, below) => FlatStack(p, below) + (Opening(w.h) + Flat(p, past))
  }

  function DoneStack(s: Stack): seq<Piece> {
    match s
    case Ground(past) => Done(past)
    case Within(_, past, below) => DoneStack(below) + Done(past)
  }

  /** The emitters have sent of their values what is recorded, and their checksums are right. */
  ghost predicate StackOk(p: Protocol, s: Stack) {
    s.Within? ==>
      && s.w.h < WORD && s.w.sent <= |s.w.d| && OwnBytes(s.past) == s.w.d[..s.w.sent]
      && s.w.crc == Sum(p, CRC_INIT, Body(s.w.h, OwnBytes(s.past))) && StackOk(p, s.below)
  }

  ghost predicate Inv(p: Protocol, l: Line) {
    l.wire == FlatStack(p, l.open) && l.done == DoneStack(l.open) && StackOk(p, l.open)
  }

  lemma RecordFlat(p: Protocol, s: Stack, u: Tale)
    ensures FlatStack(p, Record(s, u)) == FlatStack(p, s) + Flat(p, u) && DoneStack(Record(s, u)) == DoneStack(s) + Done(u)
  {
    AppendFlat(p, s.past, u);
    AppendData(s.past, u);
    if s.Within? {
      Assoc(Opening(s.w.h), Flat(p, s.past), Flat(p, u));
      Assoc(FlatStack(p, s.below), Opening(s.w.h) + Flat(p, s.past), Flat(p, u));
      Assoc(DoneStack(s.below), Done(s.past), Done(u));
    }
  }

  lemma LockInv(p: Protocol, l: Line, t: nat, h: nat, d: seq<Byte>)
    requires Inv(p, l) && Enabled(l, Lock(t, h, d))
    ensures Inv(p, Step(p, l, Lock(t, h, d)))
  {
    assert Opening(h) + [] == Opening(h) && l.done + [] == l.done && d[..0] == [] && Stuff([]) == [];
  }

  lemma OwnFlat(p: Protocol, b: Byte)
    ensures Flat(p, Own(b, End)) == Stuff1(b) && OwnBytes(Own(b, End)) == [b] && Done(Own(b, End)) == []
  {
    assert Stuff1(b) + [] == Stuff1(b) && [b] + [] == [b];
  }

  /** One more byte of a value: the checksum covers it. */
  lemma SumByte(p: Protocol, h: nat, d: seq<Byte>, k: nat)
    requires k < |d|
    ensures Sum(p, CRC_INIT, Body(h, d[..k + 1])) == Sum(p, Sum(p, CRC_INIT, Body(h, d[..k])), Stuff1(d[k]))
  {
    StuffJoin(d[..k], [d[k]]);
    assert d[..k] + [d[k]] == d[..k + 1] && [d[k]][1..] == [] && Stuff([d[k]]) == Stuff1(d[k]) + [] == Stuff1(d[k]);
    Assoc(Opening(h), Stuff(d[..k]), Stuff1(d[k]));
    SumJoin(p, CRC_INIT, Body(h, d[..k]), Stuff1(d[k]));
  }

  lemma PutOk(p: Protocol, s: Stack)
    requires s.Within? && StackOk(p, s) && s.w.sent < |s.w.d|
    ensures var (w, b) := (s.w, s.w.d[s.w.sent]);
            StackOk(p, Record(s, Own(b, End)).(w := w.(sent := w.sent + 1, crc := Sum(p, w.crc, Stuff1(b)))))
  {
    var (w, b) := (s.w, s.w.d[s.w.sent]);
    OwnFlat(p, b);
    AppendData(s.past, Own(b, End));
    SumByte(p, w.h, w.d, w.sent);
    assert w.d[..w.sent] + [b] == w.d[..w.sent + 1];
  }

  lemma PutInv(p: Protocol, l: Line, t: nat)
    requires Inv(p, l) && Enabled(l, Put(t))
    ensures Inv(p, Step(p, l, Put(t)))
  {
    var b := l.open.w.d[l.open.w.sent];
    OwnFlat(p, b);
    RecordFlat(p, l.open, Own(b, End));
    PutOk(p, l.open);
    assert l.done + [] == l.done;
  }

  lemma InnerFlat(p: Protocol, h: nat, body: Tale)
    ensures Flat(p, Inner(h, body, End)) == Opening(h) + (Flat(p, body) + Closing(p, h, OwnBytes(body)))
    ensures Done(Inner(h, body, End)) == Done(body) + [Sent(h, OwnBytes(body))] && OwnBytes(Inner(h, body, End)) == []
  {
    var c := Closing(p, h, OwnBytes(body));
    assert c + [] == c && [Sent(h, OwnBytes(body))] + [] == [Sent(h, OwnBytes(body))];
  }

  lemma RecordOk(p: Protocol, s: Stack, u: Tale)
    requires StackOk(p, s) && OwnBytes(u) == []
    ensures StackOk(p, Record(s, u))
  {
    AppendData(s.past, u);
    assert OwnBytes(s.past) + [] == OwnBytes(s.past);
  }

  lemma UnlockInv(p: Protocol, l: Line, t: nat)
    requires Inv(p, l) && Enabled(l, Unlock(t))
    ensures Inv(p, Step(p, l, Unlock(t)))
  {
    var (w, past, below) := (l.open.w, l.open.past, l.open.below);
    assert w.d[..w.sent] == w.d;
    InnerFlat(p, w.h, past);
    RecordFlat(p, below, Inner(w.h, past, End));
    RecordOk(p, below, Inner(w.h, past, End));
    var c := Closing(p, w.h, w.d);
    Assoc(FlatStack(p, below), Opening(w.h) + Flat(p, past), c);
    Assoc(Opening(w.h), Flat(p, past), c);
    Assoc(DoneStack(below), Done(past), [Sent(w.h, w.d)]);
  }

  lemma StepInv(p: Protocol, l: Line, op: Op)
    requires Inv(p, l) && Enabled(l, op)
    ensures Inv(p, Step(p, l, op))
  {
    match op
    case Lock(t, h, d) => LockInv(p, l, t, h, d);
    case Put(t) => PutInv(p, l, t);
    case Unlock(t) => UnlockInv(p, l, t);
  }

  // ---------------------------------------------------------------- frames begun inside frames

  /** Some frame of a known type, finished or not, has another begun inside it. */
  predicate CrossedStack(p: Protocol, s: Stack) {
    || Crossed(p, s.past)
    || (s.Within? && ((s.w.h in p.known && HasInner(s.past)) || (s.below.Within? && s.below.w.h in p.known) || CrossedStack(p, s.below)))
  }

  /** The step does not begin a frame inside one of a known type. */
  predicate Clear(p: Protocol, l: Line, op: Op) { op.Lock? && l.open.Within? ==> l.open.w.h !in p.known }

  lemma StepCrossed(p: Protocol, l: Line, op: Op)
    requires Enabled(l, op)
    ensures CrossedStack(p, Step(p, l, op).open) <==> CrossedStack(p, l.open) || !Clear(p, l, op)
  {
    match op
    case Lock(_, _, _) =>
    case Put(_) =>
      var u := Own(l.open.w.d[l.open.w.sent], End);
      AppendFlat(p, l.open.past, u);
      AppendData(l.open.past, u);
    case Unlock(_) =>
      var u := Inner(l.open.w.h, l.open.past, End);
      AppendFlat(p, l.open.below.past, u);
      AppendData(l.open.below.past, u);
  }

  ghost predicate RunOk(p: Protocol, l: Line, ops: seq<Op>)
    decreases ops
  {
    ops == [] || (Enabled(l, ops[0]) && RunOk(p, Step(p, l, ops[0]), ops[1..]))
  }

  ghost function Run(p: Protocol, l: Line, ops: seq<Op>): Line
    requires RunOk(p, l, ops)
    decreases ops
  {
    if ops == [] then l else Run(p, Step(p, l, ops[0]), ops[1..])
  }

  /** In the whole run, no frame is begun inside one of a known type. */
  ghost predicate AllClear(p: Protocol, l: Line, ops: seq<Op>)
    requires RunOk(p, l, ops)
    decreases ops
  {
    ops == [] || (Clear(p, l, ops[0]) && AllClear(p, Step(p, l, ops[0]), ops[1..]))
  }

  lemma {:induction false} RunCrossed(p: Protocol, l: Line, ops: seq<Op>)
    requires RunOk(p, l, ops) && Inv(p, l)
    ensures Inv(p, Run(p, l, ops))
    ensures CrossedStack(p, Run(p, l, ops).open) <==> CrossedStack(p, l.open) || !AllClear(p, l, ops)
    decreases ops
  {
    if ops != [] {
      StepInv(p, l, ops[0]);
      StepCrossed(p, l, ops[0]);
      RunCrossed(p, Step(p, l, ops[0]), ops[1..]);
    }
  }

  const QUIET := Line([], [], Ground(End))

  /**
   * Whatever the order in which threads emit, and one inside another: when none is in the middle of it, the other side
   * delivers each frame of a known type once, in the order in which they were finished, exactly if no frame was begun
   * inside one of a known type.
   */
  lemma EmittersTakeTurns(p: Protocol, ops: seq<Op>)
    requires RunOk(p, QUIET, ops) && Run(p, QUIET, ops).open.Ground?
    requires forall x :: x in Run(p, QUIET, ops).done ==> PieceOk(p, x)
    ensures var l := Run(p, QUIET, ops); Deliver(p, l.wire) == Expected(p, l.done) <==> AllClear(p, QUIET, ops)
  {
    RunCrossed(p, QUIET, ops);
    var past := Run(p, QUIET, ops).open.past;
    DoneGood(p, past);
    ArriveExactly(p, past);
  }

  // ---------------------------------------------------------------- whole frames

  predicate Single(l: Line, op: Op) { op.Lock? ==> l.open.Ground? }

  ghost predicate AllSingle(p: Protocol, l: Line, ops: seq<Op>)
    requires RunOk(p, l, ops)
    decreases ops
  {
    ops == [] || (Single(l, ops[0]) && AllSingle(p, Step(p, l, ops[0]), ops[1..]))
  }

  /** Whole frames, and the part of the frame whose turn it is. */
  ghost predicate WholeFrames(p: Protocol, l: Line) {
    match l.open
    case Ground(_) => l.wire == Wire(p, l.done)
    case Within(w, _, below) =>
      && below.Ground? && w.sent <= |w.d| && w.crc == Sum(p, CRC_INIT, Body(w.h, w.d[..w.sent]))
      && l.wire == Wire(p, l.done) + Body(w.h, w.d[..w.sent])
  }

  lemma {:induction false} WireSnoc(p: Protocol, xs: seq<Piece>, x: Piece)
    ensures Wire(p, xs + [x]) == Wire(p, xs) + PieceAtoms(p, x)
  {
    if xs == [] {
      assert [x][1..] == [] && Wire(p, []) == [];
      assert xs + [x] == [x];
    } else {
      assert (xs + [x])[1..] == xs[1..] + [x];
      WireSnoc(p, xs[1..], x);
      Assoc(PieceAtoms(p, xs[0]), Wire(p, xs[1..]), PieceAtoms(p, x));
    }
  }

  lemma StepWhole(p: Protocol, l: Line, op: Op)
    requires WholeFrames(p, l) && Enabled(l, op) && Single(l, op)
    ensures WholeFrames(p, Step(p, l, op))
  {
    match op
    case Lock(_, h, d) => assert d[..0] == [] && Stuff([]) == [] && Opening(h) + [] == Opening(h);
    case Put(_) =>
      var w := l.open.w;
      SumByte(p, w.h, w.d, w.sent);
      BodyByte(p, Wire(p, l.done), w.h, w.d, w.sent);
    case Unlock(_) =>
      var w := l.open.w;
      assert w.d[..w.sent] == w.d;
      WireSnoc(p, l.done, Sent(w.h, w.d));
      Assoc(Wire(p, l.done), Body(w.h, w.d), Closing(p, w.h, w.d));
  }

  lemma BodyByte(p: Protocol, wire: Atoms, h: nat, d: seq<Byte>, k: nat)
    requires k < |d|
    ensures wire + Body(h, d[..k]) + Stuff1(d[k]) == wire + Body(h, d[..k + 1])
  {
    StuffJoin(d[..k], [d[k]]);
    assert d[..k] + [d[k]] == d[..k + 1] && [d[k]][1..] == [] && Stuff([d[k]]) == Stuff1(d[k]) + [] == Stuff1(d[k]);
    Assoc(Opening(h), Stuff(d[..k]), Stuff1(d[k]));
    Assoc(wire, Body(h, d[..k]), Stuff1(d[k]));
  }

  lemma {:induction false} RunWhole(p: Protocol, l: Line, ops: seq<Op>)
    requires RunOk(p, l, ops) && AllSingle(p, l, ops) && WholeFrames(p, l)
    ensures WholeFrames(p, Run(p, l, ops))
    decreases ops
  {
    if ops != [] {
      StepWhole(p, l, ops[0]);
      RunWhole(p, Step(p, l, ops[0]), ops[1..]);
    }
  }

  // ---------------------------------------------------------------- an input

  lemma {:induction false} RunJoin(p: Protocol, l: Line, a: seq<Op>, b: seq<Op>)
    requires RunOk(p, l, a) && RunOk(p, Run(p, l, a), b)
    ensures RunOk(p, l, a + b) && Run(p, l, a + b) == Run(p, Run(p, l, a), b)
    decreases a
  {
    if a == [] {
      assert a + b == b;
    } else {
      assert (a + b)[1..] == a[1..] + b && (a + b)[0] == a[0];
      RunJoin(p, Step(p, l, a[0]), a[1..], b);
    }
  }

  lemma OneStep(p: Protocol, l: Line, op: Op)
    requires Enabled(l, op)
    ensures RunOk(p, l, [op]) && Run(p, l, [op]) == Step(p, l, op)
  {
    assert [op][1..] == [];
    assert RunOk(p, Step(p, l, op), []);
  }

  function Puts(t: nat, n: nat): seq<Op> { if n == 0 then [] else [Put(t)] + Puts(t, n - 1) }

  function Owns(d: seq<Byte>): Tale { if d == [] then End else Own(d[0], Owns(d[1..])) }

  lemma {:induction false} AppendEnd(t: Tale)
    ensures Append(t, End) == t
  {
    if !t.End? { AppendEnd(t.rest); }
  }

  lemma {:induction false} AppendOwn(t: Tale, b: Byte, u: Tale)
    ensures Append(Append(t, Own(b, End)), u) == Append(t, Own(b, u))
  {
    if !t.End? { AppendOwn(t.rest, b, u); }
  }

  /** The emitter on top has sent `n` more bytes. */
  ghost predicate SentMore(l: Line, m: Line, n: nat) {
    && l.open.Within? && l.open.w.sent + n <= |l.open.w.d| && m.done == l.done && m.open.Within? && m.open.below == l.open.below
    && m.open.w == l.open.w.(sent := l.open.w.sent + n, crc := m.open.w.crc)
    && m.open.past == Append(l.open.past, Owns(l.open.w.d[l.open.w.sent..l.open.w.sent + n]))
  }

  lemma SentNone(l: Line)
    requires l.open.Within? && l.open.w.sent <= |l.open.w.d|
    ensures SentMore(l, l, 0)
  {
    AppendEnd(l.open.past);
    assert l.open.w.d[l.open.w.sent..l.open.w.sent] == [];
  }

  lemma SentOne(p: Protocol, l: Line, m: Line, n: nat)
    requires l.open.Within? && Enabled(l, Put(l.open.w.thread)) && SentMore(Step(p, l, Put(l.open.w.thread)), m, n)
    ensures SentMore(l, m, n + 1)
  {
    var w := l.open.w;
    var d := w.d[w.sent..w.sent + n + 1];
    assert d[1..] == w.d[w.sent + 1..w.sent + 1 + n] && Owns(d) == Own(w.d[w.sent], Owns(d[1..]));
    AppendOwn(l.open.past, w.d[w.sent], Owns(d[1..]));
  }

  lemma {:induction false} PutsRun(p: Protocol, l: Line, n: nat)
    requires l.open.Within? && l.open.w.sent + n <= |l.open.w.d|
    ensures RunOk(p, l, Puts(l.open.w.thread, n)) && SentMore(l, Run(p, l, Puts(l.open.w.thread, n)), n)
    decreases n
  {
    var t := l.open.w.thread;
    if n == 0 {
      SentNone(l);
    } else {
      var k := Step(p, l, Put(t));
      PutsRun(p, k, n - 1);
      assert Puts(t, n)[1..] == Puts(t, n - 1) && Puts(t, n)[0] == Put(t);
      SentOne(p, l, Run(p, k, Puts(t, n - 1)), n - 1);
    }
  }

  /** A whole frame sent on top of what is open. */
  function Emission(t: nat, h: nat, d: seq<Byte>): seq<Op> { [Lock(t, h, d)] + (Puts(t, |d|) + [Unlock(t)]) }

  lemma EmissionRun(p: Protocol, l: Line, t: nat, h: nat, d: seq<Byte>)
    requires Enabled(l, Lock(t, h, d))
    ensures RunOk(p, l, Emission(t, h, d))
    ensures var m := Run(p, l, Emission(t, h, d)); m.done == l.done + [Sent(h, d)] && m.open == Record(l.open, Inner(h, Owns(d), End))
  {
    var a := Step(p, l, Lock(t, h, d));
    OneStep(p, l, Lock(t, h, d));
    PutsRun(p, a, |d|);
    var b := Run(p, a, Puts(t, |d|));
    assert d[0..|d|] == d;
    OneStep(p, b, Unlock(t));
    RunJoin(p, a, Puts(t, |d|), [Unlock(t)]);
    RunJoin(p, l, [Lock(t, h, d)], Puts(t, |d|) + [Unlock(t)]);
  }

  /** What follows the first `j` bytes of the outer frame: another frame, and the rest of the outer one. */
  function Nest(t: nat, d: seq<Byte>, j: nat, g: nat, e: seq<Byte>): seq<Op>
    requires j <= |d|
  {
    Emission(t, g, e) + (Puts(t, |d| - j) + [Unlock(t)])
  }

  function Nested(t: nat, h: nat, d: seq<Byte>, j: nat, g: nat, e: seq<Byte>): seq<Op>
    requires j <= |d|
  {
    [Lock(t, h, d)] + (Puts(t, j) + Nest(t, d, j, g, e))
  }

  /** What is sent: the second frame where the first stands at `j`. */
  function NestedTale(h: nat, d: seq<Byte>, j: nat, g: nat, e: seq<Byte>): Tale
    requires j <= |d|
  {
    Inner(h, Append(Append(Owns(d[..j]), Inner(g, Owns(e), End)), Owns(d[j..])), End)
  }

  lemma NestRun(p: Protocol, l: Line, j: nat, g: nat, e: seq<Byte>)
    requires l.open.Within? && l.open.w.sent == j <= |l.open.w.d| && g < WORD
    ensures var (t, w) := (l.open.w.thread, l.open.w);
            && RunOk(p, l, Nest(t, w.d, j, g, e))
            && var m := Run(p, l, Nest(t, w.d, j, g, e));
               && m.done == l.done + [Sent(g, e)] + [Sent(w.h, w.d)]
               && m.open == Record(l.open.below, Inner(w.h, Append(Append(l.open.past, Inner(g, Owns(e), End)), Owns(w.d[j..])), End))
  {
    var (t, w) := (l.open.w.thread, l.open.w);
    EmissionRun(p, l, t, g, e);
    var a := Run(p, l, Emission(t, g, e));
    PutsRun(p, a, |w.d| - j);
    var b := Run(p, a, Puts(t, |w.d| - j));
    assert w.d[j..j + (|w.d| - j)] == w.d[j..];
    OneStep(p, b, Unlock(t));
    RunJoin(p, a, Puts(t, |w.d| - j), [Unlock(t)]);
    RunJoin(p, l, Emission(t, g, e), Puts(t, |w.d| - j) + [Unlock(t)]);
  }

  lemma NestedRun(p: Protocol, t: nat, h: nat, d: seq<Byte>, j: nat, g: nat, e: seq<Byte>)
    requires h < WORD && g < WORD && j <= |d|
    ensures RunOk(p, QUIET, Nested(t, h, d, j, g, e))
    ensures var l := Run(p, QUIET, Nested(t, h, d, j, g, e));
            Inv(p, l) && l.done == [Sent(g, e), Sent(h, d)] && l.open == Ground(NestedTale(h, d, j, g, e))
  {
    var a := Step(p, QUIET, Lock(t, h, d));
    OneStep(p, QUIET, Lock(t, h, d));
    PutsRun(p, a, j);
    var b := Run(p, a, Puts(t, j));
    assert d[0..j] == d[..j];
    NestRun(p, b, j, g, e);
    RunJoin(p, a, Puts(t, j), Nest(t, d, j, g, e));
    RunJoin(p, QUIET, [Lock(t, h, d)], Puts(t, j) + Nest(t, d, j, g, e));
    RunCrossed(p, QUIET, Nested(t, h, d, j, g, e));
  }

  lemma {:induction false} OwnsFlat(p: Protocol, d: seq<Byte>)
    ensures Flat(p, Owns(d)) == Stuff(d) && OwnBytes(Owns(d)) == d
  {
    if d != [] {
      OwnsFlat(p, d[1..]);
      assert [d[0]] + d[1..] == d;
    }
  }

  lemma NestedBody(p: Protocol, x: seq<Byte>, y: seq<Byte>, g: nat, e: seq<Byte>)
    ensures var body := Append(Append(Owns(x), Inner(g, Owns(e), End)), Owns(y));
            Flat(p, body) == Stuff(x) + Frame(p, g, e) + Stuff(y) && OwnBytes(body) == x + y
  {
    var u := Inner(g, Owns(e), End);
    OwnsFlat(p, x);
    OwnsFlat(p, y);
    OwnsFlat(p, e);
    AppendFlat(p, Append(Owns(x), u), Owns(y));
    AppendFlat(p, Owns(x), u);
    AppendData(Append(Owns(x), u), Owns(y));
    AppendData(Owns(x), u);
    InnerFlat(p, g, Owns(e));
    assert x + [] == x;
    Assoc(Opening(g), Stuff(e), Closing(p, g, e));
  }

  lemma NestedFlat(p: Protocol, h: nat, d: seq<Byte>, j: nat, g: nat, e: seq<Byte>)
    requires j <= |d|
    ensures Flat(p, NestedTale(h, d, j, g, e))
            == [HEAD] + Stuff(Payload(p, h, d)[..4 + j]) + Frame(p, g, e) + Stuff(Payload(p, h, d)[4 + j..])
  {
    NestedBody(p, d[..j], d[j..], g, e);
    assert d[..j] + d[j..] == d;
    InnerFlat(p, h, Append(Append(Owns(d[..j]), Inner(g, Owns(e), End)), Owns(d[j..])));
    NestedAtoms(p, h, d, j, Frame(p, g, e));
  }

  lemma NestedAtoms(p: Protocol, h: nat, d: seq<Byte>, j: nat, f: Atoms)
    requires j <= |d|
    ensures Opening(h) + (Stuff(d[..j]) + f + Stuff(d[j..]) + Closing(p, h, d))
            == [HEAD] + Stuff(Payload(p, h, d)[..4 + j]) + f + Stuff(Payload(p, h, d)[4 + j..])
  {
    var (x, y, c) := (d[..j], d[j..], Field(Check(p, Body(h, d)), 2));
    assert Payload(p, h, d)[..4 + j] == Field(h, 4) + x && Payload(p, h, d)[4 + j..] == y + c;
    StuffJoin(Field(h, 4), x);
    StuffJoin(y, c);
    Regroup([HEAD], Stuff(Field(h, 4)), Stuff(x), f, Stuff(y), Stuff(c));
  }

  lemma Regroup(a: Atoms, b: Atoms, x: Atoms, f: Atoms, y: Atoms, c: Atoms)
    ensures (a + b) + (x + f + y + c) == a + (b + x) + f + (y + c)
  {
    Assoc(x + f, y, c);
    Assoc(x, f, y + c);
    Assoc(a + b, x, f + (y + c));
    Assoc(a, b, x);
    Assoc(a + (b + x), f, y + c);
  }

  /**
   * A thread that begins a frame at any byte of the value of its own, which the mutex lets it do: both are lost if the
   * outer one is of a known type, and none otherwise.
   */
  lemma NestedFramesLost(p: Protocol, t: nat, h: nat, d: seq<Byte>, j: nat, g: nat, e: seq<Byte>)
    requires PieceOk(p, Sent(h, d)) && PieceOk(p, Sent(g, e)) && j <= |d|
    ensures RunOk(p, QUIET, Nested(t, h, d, j, g, e))
    ensures var l := Run(p, QUIET, Nested(t, h, d, j, g, e));
            && l.open.Ground? && l.done == [Sent(g, e), Sent(h, d)]
            && Deliver(p, l.wire) == if h in p.known then [] else Alone(p, g, e)
  {
    NestedRun(p, t, h, d, j, g, e);
    NestedFlat(p, h, d, j, g, e);
    var (k, rest) := (4 + j, Stuff(Payload(p, h, d)[4 + j..]));
    CutFrame(p, h, d, k, g, e, rest);
    assert rest + [] == rest && Deliver(p, []) == [];
    NoiseSkipped(p, Payload(p, h, d)[k..], []);
    if g in p.known {
      FrameDelivered(p, g, e, rest);
    } else {
      UnknownSkipped(p, g, e, rest);
    }
  }
}
