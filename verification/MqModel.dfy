/**
 * The message queue protocol (`rt_mq_send_wait`, `rt_mq_urgent`, `rt_mq_recv`, `rt_mq_control`): one step for each
 * interrupt-disabled section. A send takes a free node in one section and links it in a second; a receive takes the
 * first message in one section and gives the node back in a second.
 */
module MqModel {
  import opened Common
  import opened RtList
  import opened WaitQueue

  /**
   * `sending` and `receiving` are the threads between their two sections, each with a node in its hands; `rWait` and
   * `sWait` the suspended receivers and senders; `rWoken` and `sWoken` those woken by the other side that have not run.
   */
  datatype Mq<T> = Mq(queue: seq<Message>, free: nat, sending: set<T>, receiving: set<T>,
                      rWait: seq<T>, sWait: seq<T>, rWoken: set<T>, sWoken: set<T>)

  datatype Outcome = Holding | Failed | Waiting

  function Init<T>(cap: nat): Mq<T> { Mq([], cap, {}, {}, [], [], {}, {}) }

  /** A waking list without its first thread, and that thread. */
  function Behind<T>(ws: seq<T>): seq<T> { if ws == [] then [] else ws[1..] }

  function First<T(==)>(ws: seq<T>): set<T> { if ws == [] then {} else {ws[0]} }

  /** First section of a send; a woken sender comes here again. */
  function SendTry<T(==)>(q: Mq<T>, prio: map<T, nat>, flag: Flag, t: T, wait: bool): (Mq<T>, Outcome)
    requires t in prio && forall w :: w in q.sWait ==> w in prio
  {
    if q.free > 0 then (q.(sWoken := q.sWoken - {t}, free := q.free - 1, sending := q.sending + {t}), Holding)
    else if !wait then (q.(sWoken := q.sWoken - {t}), Failed)
    else (q.(sWoken := q.sWoken - {t}, sWait := Enqueue(q.sWait, prio, t, flag)), Waiting)
  }

  function Joined(queue: seq<Message>, body: Message, urgent: bool): seq<Message> { if urgent then [body] + queue else queue + [body] }

  /** Second section of a send or urgent send: the message joins an end of the queue, and one receiver is woken. */
  function Commit<T(==)>(q: Mq<T>, t: T, body: Message, urgent: bool): Mq<T> {
    q.(queue := Joined(q.queue, body, urgent), sending := q.sending - {t},
       rWait := Behind(q.rWait), rWoken := q.rWoken + First(q.rWait))
  }

  /** First section of a receive; a woken receiver comes here again. */
  function RecvTry<T(==)>(q: Mq<T>, prio: map<T, nat>, flag: Flag, t: T, wait: bool): (Mq<T>, Outcome)
    requires t in prio && forall w :: w in q.rWait ==> w in prio
  {
    if q.queue != [] then (q.(rWoken := q.rWoken - {t}, queue := q.queue[1..], receiving := q.receiving + {t}), Holding)
    else if !wait then (q.(rWoken := q.rWoken - {t}), Failed)
    else (q.(rWoken := q.rWoken - {t}, rWait := Enqueue(q.rWait, prio, t, flag)), Waiting)
  }

  /** Second section of a receive: the node is free again, and one sender is woken. */
  function GiveBack<T(==)>(q: Mq<T>, t: T): Mq<T> {
    q.(free := q.free + 1, receiving := q.receiving - {t}, sWait := Behind(q.sWait), sWoken := q.sWoken + First(q.sWait))
  }

  function Expire<T(==)>(q: Mq<T>, t: T): Mq<T>
    requires t in q.rWait || t in q.sWait
  {
    if t in q.rWait then q.(rWait := Without(q.rWait, t)) else q.(sWait := Without(q.sWait, t))
  }

  /** RT_IPC_CMD_RESET: all that wait fail, and all messages are dropped. */
  function Reset<T>(q: Mq<T>): Mq<T> { q.(queue := [], free := q.free + |q.queue|, rWait := [], sWait := []) }

  // ---------------------------------------------------------------- runs

  datatype Op<T> =
    | SendTryOp(t: T, wait: bool)
    | CommitOp(t: T, body: Message, urgent: bool)
    | RecvTryOp(t: T, wait: bool)
    | GiveBackOp(t: T)
    | ExpireOp(t: T)
    | ResetOp
    | PrioOp(t: T, p: nat)

  /** A thread in none of the sets of the queue. */
  predicate Idle<T(==)>(q: Mq<T>, t: T) {
    t !in q.sending && t !in q.receiving && t !in q.rWait && t !in q.sWait && t !in q.rWoken && t !in q.sWoken
  }

  ghost predicate Enabled<T>(q: Mq<T>, prio: map<T, nat>, op: Op<T>) {
    match op
    case SendTryOp(t, _) => t in prio && (Idle(q, t) || t in q.sWoken)
    case CommitOp(t, _, _) => t in q.sending
    case RecvTryOp(t, _) => t in prio && (Idle(q, t) || t in q.rWoken)
    case GiveBackOp(t) => t in q.receiving
    case ExpireOp(t) => t in q.rWait || t in q.sWait
    case ResetOp => true
    case PrioOp(t, _) => t in prio
  }

  ghost predicate Typed<T>(q: Mq<T>, prio: map<T, nat>) {
    (forall w :: w in q.rWait ==> w in prio) && (forall w :: w in q.sWait ==> w in prio)
  }

  function Step<T(==)>(q: Mq<T>, prio: map<T, nat>, flag: Flag, op: Op<T>): Mq<T>
    requires Typed(q, prio) && Enabled(q, prio, op)
  {
    match op
    case SendTryOp(t, wait) => SendTry(q, prio, flag, t, wait).0
    case CommitOp(t, body, urgent) => Commit(q, t, body, urgent)
    case RecvTryOp(t, wait) => RecvTry(q, prio, flag, t, wait).0
    case GiveBackOp(t) => GiveBack(q, t)
    case ExpireOp(t) => Expire(q, t)
    case ResetOp => Reset(q)
    case PrioOp(_, _) => q
  }

  /** The priorities after a step. */
  function Later<T(==)>(prio: map<T, nat>, op: Op<T>): map<T, nat> { if op.PrioOp? then prio[op.t := op.p] else prio }

  /** A thread is in one place at a time. */
  ghost predicate Apart<T>(q: Mq<T>) {
    && Distinct(q.rWait) && Distinct(q.sWait)
    && (forall t :: t in q.rWait ==> t !in q.sWait)
    && (forall t :: t in q.rWait ==> t !in q.sending && t !in q.receiving && t !in q.rWoken && t !in q.sWoken)
    && (forall t :: t in q.sWait ==> t !in q.sending && t !in q.receiving && t !in q.rWoken && t !in q.sWoken)
    && q.sending !! q.receiving && q.sending !! q.rWoken && q.sending !! q.sWoken
    && q.receiving !! q.rWoken && q.receiving !! q.sWoken && q.rWoken !! q.sWoken
  }

  /** No lost wake-up: behind a suspended thread there is no more to be had than threads on their way to have it. */
  ghost predicate Awake<T>(q: Mq<T>) {
    (q.rWait != [] ==> |q.queue| <= |q.rWoken|) && (q.sWait != [] ==> q.free <= |q.sWoken|)
  }

  ghost predicate Counted<T>(q: Mq<T>, cap: nat) { q.free + |q.queue| + |q.sending| + |q.receiving| == cap }

  ghost predicate Inv<T>(q: Mq<T>, prio: map<T, nat>, cap: nat) {
    Typed(q, prio) && Apart(q) && Awake(q) && Counted(q, cap)
  }

  lemma SendTryApart<T>(q: Mq<T>, prio: map<T, nat>, flag: Flag, t: T, wait: bool)
    requires Typed(q, prio) && Apart(q) && Enabled(q, prio, SendTryOp(t, wait))
    ensures Typed(SendTry(q, prio, flag, t, wait).0, prio) && Apart(SendTry(q, prio, flag, t, wait).0)
  {
    if q.free == 0 && wait { InsertMembers(q.sWait, Place(q.sWait, prio, prio[t], flag), t); }
  }

  lemma SendTryInv<T>(q: Mq<T>, prio: map<T, nat>, flag: Flag, cap: nat, t: T, wait: bool)
    requires Inv(q, prio, cap) && Enabled(q, prio, SendTryOp(t, wait))
    ensures Inv(SendTry(q, prio, flag, t, wait).0, prio, cap)
  {
    var p := SendTry(q, prio, flag, t, wait).0;
    SendTryApart(q, prio, flag, t, wait);
    assert t !in q.sending;
    assert Counted(p, cap) && Awake(p);
  }

  lemma CommitApart<T>(q: Mq<T>, prio: map<T, nat>, t: T, body: Message, urgent: bool)
    requires Typed(q, prio) && Apart(q) && t in q.sending
    ensures Typed(Commit(q, t, body, urgent), prio) && Apart(Commit(q, t, body, urgent))
  {
    if q.rWait != [] {
      assert q.rWait[0] in q.rWait;
      FirstMembers(q.rWait);
    }
  }

  lemma CommitInv<T>(q: Mq<T>, prio: map<T, nat>, cap: nat, t: T, body: Message, urgent: bool)
    requires Inv(q, prio, cap) && t in q.sending
    ensures Inv(Commit(q, t, body, urgent), prio, cap)
  {
    var p := Commit(q, t, body, urgent);
    CommitApart(q, prio, t, body, urgent);
    assert q.rWait != [] ==> q.rWait[0] in q.rWait && q.rWait[0] !in q.rWoken;
    assert Counted(p, cap) && Awake(p);
  }

  lemma RecvTryApart<T>(q: Mq<T>, prio: map<T, nat>, flag: Flag, t: T, wait: bool)
    requires Typed(q, prio) && Apart(q) && Enabled(q, prio, RecvTryOp(t, wait))
    ensures Typed(RecvTry(q, prio, flag, t, wait).0, prio) && Apart(RecvTry(q, prio, flag, t, wait).0)
  {
    if q.queue == [] && wait { InsertMembers(q.rWait, Place(q.rWait, prio, prio[t], flag), t); }
  }

  lemma RecvTryInv<T>(q: Mq<T>, prio: map<T, nat>, flag: Flag, cap: nat, t: T, wait: bool)
    requires Inv(q, prio, cap) && Enabled(q, prio, RecvTryOp(t, wait))
    ensures Inv(RecvTry(q, prio, flag, t, wait).0, prio, cap)
  {
    var p := RecvTry(q, prio, flag, t, wait).0;
    RecvTryApart(q, prio, flag, t, wait);
    assert t !in q.receiving;
    assert Counted(p, cap) && Awake(p);
  }

  lemma GiveBackInv<T>(q: Mq<T>, prio: map<T, nat>, cap: nat, t: T)
    requires Inv(q, prio, cap) && t in q.receiving
    ensures Inv(GiveBack(q, t), prio, cap)
  {
    if q.sWait != [] {
      assert q.sWait[0] in q.sWait;
      FirstMembers(q.sWait);
    }
  }

  lemma ExpireInv<T>(q: Mq<T>, prio: map<T, nat>, cap: nat, t: T)
    requires Inv(q, prio, cap) && (t in q.rWait || t in q.sWait)
    ensures Inv(Expire(q, t), prio, cap)
  {
    if t in q.rWait { RemoveMembers(q.rWait, IndexOf(q.rWait, t)); } else { RemoveMembers(q.sWait, IndexOf(q.sWait, t)); }
  }

  lemma StepInv<T>(q: Mq<T>, prio: map<T, nat>, flag: Flag, cap: nat, op: Op<T>)
    requires Inv(q, prio, cap) && Enabled(q, prio, op)
    ensures Inv(Step(q, prio, flag, op), prio, cap)
  {
    match op
    case SendTryOp(t, wait) => SendTryInv(q, prio, flag, cap, t, wait);
    case CommitOp(t, body, urgent) => CommitInv(q, prio, cap, t, body, urgent);
    case RecvTryOp(t, wait) => RecvTryInv(q, prio, flag, cap, t, wait);
    case GiveBackOp(t) => GiveBackInv(q, prio, cap, t);
    case ExpireOp(t) => ExpireInv(q, prio, cap, t);
    case ResetOp =>
    case PrioOp(_, _) =>
  }

  ghost predicate RunOk<T>(q: Mq<T>, prio: map<T, nat>, flag: Flag, ops: seq<Op<T>>)
    decreases ops
  {
    ops == [] || (Typed(q, prio) && Enabled(q, prio, ops[0]) && RunOk(Step(q, prio, flag, ops[0]), Later(prio, ops[0]), flag, ops[1..]))
  }

  ghost function Run<T>(q: Mq<T>, prio: map<T, nat>, flag: Flag, ops: seq<Op<T>>): Mq<T>
    requires RunOk(q, prio, flag, ops)
    decreases ops
  {
    if ops == [] then q else Run(Step(q, prio, flag, ops[0]), Later(prio, ops[0]), flag, ops[1..])
  }

  lemma {:induction false} RunInv<T>(q: Mq<T>, prio: map<T, nat>, flag: Flag, cap: nat, ops: seq<Op<T>>)
    requires Inv(q, prio, cap) && RunOk(q, prio, flag, ops)
    ensures Inv(Run(q, prio, flag, ops), prio, cap)
    decreases ops
  {
    if ops != [] {
      StepInv(q, prio, flag, cap, ops[0]);
      RunInv(Step(q, prio, flag, ops[0]), Later(prio, ops[0]), flag, cap, ops[1..]);
    }
  }

  /**
   * After every run: nodes are free, queued or held, a suspended receiver has a woken one before it for each queued
   * message, a suspended sender has one for each free node; so a queue with messages and suspended receivers has a
   * receiver about to run.
   */
  lemma NoLostWakeUp<T>(cap: nat, prio: map<T, nat>, flag: Flag, ops: seq<Op<T>>)
    requires RunOk(Init<T>(cap), prio, flag, ops)
    ensures var q := Run(Init<T>(cap), prio, flag, ops);
            && Awake(q) && Counted(q, cap)
            && (q.rWait != [] && q.queue != [] ==> q.rWoken != {}) && (q.sWait != [] && q.free > 0 ==> q.sWoken != {})
  {
    RunInv(Init<T>(cap), prio, flag, cap, ops);
  }

  /** A thread leaves its list when the other side finds it first, and is then on its way, or by a timeout or a reset, and is not. */
  lemma Leaves<T>(q: Mq<T>, prio: map<T, nat>, flag: Flag, op: Op<T>, w: T)
    requires Typed(q, prio) && Enabled(q, prio, op) && Apart(q)
    ensures var r := Step(q, prio, flag, op);
            && (w in q.rWait ==>
                  && (w !in r.rWait <==> (op.CommitOp? && w == q.rWait[0]) || op == ExpireOp(w) || op == ResetOp)
                  && (w in r.rWoken <==> op.CommitOp? && w == q.rWait[0]))
            && (w in q.sWait ==>
                  && (w !in r.sWait <==> (op.GiveBackOp? && w == q.sWait[0]) || op == ExpireOp(w) || op == ResetOp)
                  && (w in r.sWoken <==> op.GiveBackOp? && w == q.sWait[0]))
  {
    match op
    case SendTryOp(t, wait) => if q.free == 0 && wait { InsertMembers(q.sWait, Place(q.sWait, prio, prio[t], flag), t); }
    case CommitOp(t, body, urgent) => if q.rWait != [] { FirstMembers(q.rWait); }
    case RecvTryOp(t, wait) => if q.queue == [] && wait { InsertMembers(q.rWait, Place(q.rWait, prio, prio[t], flag), t); }
    case GiveBackOp(t) => if q.sWait != [] { FirstMembers(q.sWait); }
    case ExpireOp(t) =>
      if t in q.rWait { RemoveMembers(q.rWait, IndexOf(q.rWait, t)); } else { RemoveMembers(q.sWait, IndexOf(q.sWait, t)); }
    case ResetOp =>
    case PrioOp(_, _) =>
  }

  /** How the first section of a send ends: with a node, exactly if not all are queued or held; or with none; or in the list. */
  lemma SendOutcome<T>(q: Mq<T>, prio: map<T, nat>, flag: Flag, t: T, wait: bool, cap: nat)
    requires Typed(q, prio) && Enabled(q, prio, SendTryOp(t, wait)) && Apart(q) && Counted(q, cap)
    ensures var (s, r) := SendTry(q, prio, flag, t, wait);
            && (r == Holding <==> |q.queue| + |q.sending| + |q.receiving| < cap) && (r == Holding <==> t in s.sending)
            && (r == Failed ==> !wait && Idle(s, t)) && (r == Waiting ==> wait) && (r == Waiting <==> t in s.sWait)
            && t !in s.sWoken && s.queue == q.queue
  {
    if q.free == 0 && wait { InsertMembers(q.sWait, Place(q.sWait, prio, prio[t], flag), t); }
  }

  /** And of a receive: with a message, exactly if there is one. */
  lemma RecvOutcome<T>(q: Mq<T>, prio: map<T, nat>, flag: Flag, t: T, wait: bool)
    requires Typed(q, prio) && Enabled(q, prio, RecvTryOp(t, wait)) && Apart(q)
    ensures var (s, r) := RecvTry(q, prio, flag, t, wait);
            && (r == Holding <==> |q.queue| > 0) && (r == Holding <==> t in s.receiving)
            && (r == Failed ==> !wait && Idle(s, t)) && (r == Waiting ==> wait) && (r == Waiting <==> t in s.rWait)
            && t !in s.rWoken && s.free == q.free
  {
    if q.queue == [] && wait { InsertMembers(q.rWait, Place(q.rWait, prio, prio[t], flag), t); }
  }

  /** Every step but a change of priorities keeps both lists in waking order. */
  lemma KeepsOrder<T>(q: Mq<T>, prio: map<T, nat>, flag: Flag, op: Op<T>, since: map<T, nat>, now: nat)
    requires Typed(q, prio) && Enabled(q, prio, op) && Apart(q) && !op.PrioOp?
    requires Ordered(q.rWait, prio, since, flag) && Ordered(q.sWait, prio, since, flag)
    requires (forall w :: w in q.rWait ==> since[w] < now) && (forall w :: w in q.sWait ==> since[w] < now)
    ensures var r := Step(q, prio, flag, op);
            var later := if op.SendTryOp? || op.RecvTryOp? then since[op.t := now] else since;
            Ordered(r.rWait, prio, later, flag) && Ordered(r.sWait, prio, later, flag)
  {
    match op
    case SendTryOp(t, wait) =>
      OrderedLater(q.rWait, prio, since, flag, t, now);
      OrderedLater(q.sWait, prio, since, flag, t, now);
      EnqueueOrdered(q.sWait, prio, since, flag, t, now);
    case CommitOp(t, body, urgent) => if q.rWait != [] { FirstLeaves(q.rWait, prio, since, flag); }
    case RecvTryOp(t, wait) =>
      OrderedLater(q.rWait, prio, since, flag, t, now);
      OrderedLater(q.sWait, prio, since, flag, t, now);
      EnqueueOrdered(q.rWait, prio, since, flag, t, now);
    case GiveBackOp(t) => if q.sWait != [] { FirstLeaves(q.sWait, prio, since, flag); }
    case ExpireOp(t) =>
      if t in q.rWait { RemoveOrdered(q.rWait, prio, since, flag, IndexOf(q.rWait, t)); }
      else { RemoveOrdered(q.sWait, prio, since, flag, IndexOf(q.sWait, t)); }
    case ResetOp =>
  }

  // ---------------------------------------------------------------- order of messages

  /** The message a step puts in, and the one it takes out. */
  function Put<T>(op: Op<T>): seq<Message> { if op.CommitOp? then [op.body] else [] }

  function Got<T>(q: Mq<T>, op: Op<T>): seq<Message> { if op.RecvTryOp? && q.queue != [] then [q.queue[0]] else [] }

  ghost function Sent<T>(ops: seq<Op<T>>): seq<Message> { if ops == [] then [] else Put(ops[0]) + Sent(ops[1..]) }

  ghost function Taken<T>(q: Mq<T>, prio: map<T, nat>, flag: Flag, ops: seq<Op<T>>): seq<Message>
    requires RunOk(q, prio, flag, ops)
    decreases ops
  {
    if ops == [] then [] else Got(q, ops[0]) + Taken(Step(q, prio, flag, ops[0]), Later(prio, ops[0]), flag, ops[1..])
  }

  predicate Orderly<T>(op: Op<T>) { !op.ResetOp? && (op.CommitOp? ==> !op.urgent) }

  lemma StepOrder<T>(q: Mq<T>, prio: map<T, nat>, flag: Flag, op: Op<T>)
    requires Typed(q, prio) && Enabled(q, prio, op) && Orderly(op)
    ensures q.queue + Put(op) == Got(q, op) + Step(q, prio, flag, op).queue
  {
  }

  lemma Regroup(a: seq<Message>, b: seq<Message>, c: seq<Message>, d: seq<Message>, e: seq<Message>, f: seq<Message>, g: seq<Message>)
    requires a + b == c + d && d + e == f + g
    ensures a + (b + e) == (c + f) + g
  {
    assert a + (b + e) == (a + b) + e;
    assert (c + d) + e == c + (d + e);
    assert c + (f + g) == (c + f) + g;
  }

  /** Without urgent messages and resets, what is taken out is what was put in, in that order; the rest is queued. */
  lemma {:induction false} FirstInFirstOut<T>(q: Mq<T>, prio: map<T, nat>, flag: Flag, ops: seq<Op<T>>)
    requires RunOk(q, prio, flag, ops) && (forall i :: 0 <= i < |ops| ==> Orderly(ops[i]))
    ensures q.queue + Sent(ops) == Taken(q, prio, flag, ops) + Run(q, prio, flag, ops).queue
    decreases ops
  {
    if ops != [] {
      var (op, next, later, rest) := (ops[0], Step(q, prio, flag, ops[0]), Later(prio, ops[0]), ops[1..]);
      FirstInFirstOut(next, later, flag, rest);
      StepOrder(q, prio, flag, op);
      Regroup(q.queue, Put(op), Got(q, op), next.queue, Sent(rest), Taken(next, later, flag, rest), Run(next, later, flag, rest).queue);
    }
  }

  /** Two lanes: urgent messages, the latest first, and behind them the others, the oldest first. */
  datatype Lanes = Lanes(urgent: seq<Message>, normal: seq<Message>)

  function Moved<T>(l: Lanes, op: Op<T>): Lanes {
    match op
    case CommitOp(_, body, urgent) => if urgent then l.(urgent := [body] + l.urgent) else l.(normal := l.normal + [body])
    case RecvTryOp(_, _) =>
      if l.urgent != [] then l.(urgent := l.urgent[1..]) else if l.normal != [] then l.(normal := l.normal[1..]) else l
    case ResetOp => Lanes([], [])
    case _ => l
  }

  function MovedAll<T>(l: Lanes, ops: seq<Op<T>>): Lanes
    decreases ops
  {
    if ops == [] then l else MovedAll(Moved(l, ops[0]), ops[1..])
  }

  /** In every run the queue is the two lanes: a receive takes the latest urgent message, or else the oldest other one. */
  lemma {:induction false} UrgentFirst<T>(q: Mq<T>, prio: map<T, nat>, flag: Flag, ops: seq<Op<T>>, l: Lanes)
    requires RunOk(q, prio, flag, ops) && q.queue == l.urgent + l.normal
    ensures var m := MovedAll(l, ops); Run(q, prio, flag, ops).queue == m.urgent + m.normal
    decreases ops
  {
    if ops != [] {
      var (next, m) := (Step(q, prio, flag, ops[0]), Moved(l, ops[0]));
      assert next.queue == m.urgent + m.normal;
      UrgentFirst(next, Later(prio, ops[0]), flag, ops[1..], m);
    }
  }
}
