/** Event flags (`rt_event_send`, `rt_event_recv`): one step for each interrupt-disabled section. */
module EventModel {
  import opened RtList
  import opened WaitQueue

  /** A 32-bit mask, as the numbers of its bits. */
  type Mask = set<nat>

  /**
   * What a thread asks for: flags, and the bits of the option (RT_EVENT_FLAG_AND, _OR, _CLEAR).
   * After waking, `bits` holds the flags it received.
   */
  datatype Want = Want(bits: Mask, all: bool, any: bool, clear: bool)

  datatype Event<T> = Event(bits: Mask, waiters: seq<T>, want: map<T, Want>, failed: set<T>)

  datatype Outcome = Received(flags: Mask) | TimedOut | Waiting | Refused

  predicate Satisfied(bits: Mask, w: Want) {
    if w.all then w.bits <= bits else w.any && bits * w.bits != {}
  }

  /** An immediate receive returns these flags ... */
  function Got(bits: Mask, w: Want): Mask { bits * w.bits }

  /** ... and leaves these. */
  function Rest(bits: Mask, w: Want): Mask { if w.clear then bits - w.bits else bits }

  function Receive<T(==)>(e: Event<T>, prio: map<T, nat>, flag: Flag, t: T, w: Want, wait: bool): (Event<T>, Outcome)
    requires t in prio && t in e.want && forall x :: x in e.waiters ==> x in prio
  {
    if w.bits == {} then (e, Refused)
    else if Satisfied(e.bits, w) then (e.(bits := Rest(e.bits, w), failed := e.failed - {t}), Received(Got(e.bits, w)))
    else if !wait then (e.(failed := e.failed + {t}), TimedOut)
    else (e.(want := e.want[t := w], waiters := Enqueue(e.waiters, prio, t, flag), failed := e.failed - {t}), Waiting)
  }

  /** What the walk stores in a thread it wakes: an OR wait keeps the flags that are set, an AND wait keeps all its own. */
  function Stored(bits: Mask, w: Want): Mask { if w.all then w.bits else w.bits * bits }

  function Cleared(bits: Mask, w: Want): Mask { if w.clear then bits - Stored(bits, w) else bits }

  datatype Walked<T> = Walked(bits: Mask, left: seq<T>, want: map<T, Want>)

  /** The walk of `rt_event_send` over the waiting list: wake, clear, go on with what is left. */
  function Walk<T(==)>(bits: Mask, ws: seq<T>, want: map<T, Want>): Walked<T>
    requires forall w :: w in ws ==> w in want
  {
    if ws == [] then Walked(bits, [], want)
    else
      var (t, w) := (ws[0], want[ws[0]]);
      if Satisfied(bits, w) then Walk(Cleared(bits, w), ws[1..], want[t := w.(bits := Stored(bits, w))])
      else var r := Walk(bits, ws[1..], want); r.(left := [t] + r.left)
  }

  /** A walk has come to `rest`, with `bits` and `want` as they are there, and `kept` behind it. */
  ghost predicate Remaining<T>(walk: Walked<T>, bits: Mask, kept: seq<T>, rest: seq<T>, want: map<T, Want>)
    requires forall w :: w in rest ==> w in want
  {
    var r := Walk(bits, rest, want);
    walk.bits == r.bits && walk.left == kept + r.left && walk.want == r.want
  }

  lemma RemainingStep<T>(walk: Walked<T>, bits: Mask, kept: seq<T>, rest: seq<T>, want: map<T, Want>)
    requires (forall w :: w in rest ==> w in want) && Remaining(walk, bits, kept, rest, want) && rest != []
    ensures var (t, w) := (rest[0], want[rest[0]]);
            if Satisfied(bits, w) then
              Remaining(walk, Cleared(bits, w), kept, rest[1..], want[t := w.(bits := Stored(bits, w))])
            else Remaining(walk, bits, kept + [t], rest[1..], want)
  {
    if !Satisfied(bits, want[rest[0]]) {
      var r := Walk(bits, rest[1..], want);
      assert kept + ([rest[0]] + r.left) == kept + [rest[0]] + r.left;
    }
  }

  function Send<T(==)>(e: Event<T>, bits: Mask): (Event<T>, bool)
    requires forall w :: w in e.waiters ==> w in e.want
  {
    if bits == {} then (e, false)
    else
      var r := Walk(e.bits + bits, e.waiters, e.want);
      (e.(bits := r.bits, waiters := r.left, want := r.want), true)
  }

  function Expire<T(==)>(e: Event<T>, t: T): Event<T>
    requires t in e.waiters
  {
    e.(waiters := Without(e.waiters, t), failed := e.failed + {t})
  }

  function Reset<T(==)>(e: Event<T>): Event<T> {
    e.(bits := {}, waiters := [], failed := e.failed + set w | w in e.waiters)
  }

  // ---------------------------------------------------------------- the walk is a retry of each receive

  /** A waking leaves the flags, and gives the thread the flags, of an immediate receive at that moment. */
  lemma WakeIsReceive(bits: Mask, w: Want)
    requires Satisfied(bits, w)
    ensures Cleared(bits, w) == Rest(bits, w) && Stored(bits, w) == Got(bits, w)
  {
    assert bits - (w.bits * bits) == bits - w.bits;
    assert w.bits * bits == bits * w.bits;
    if w.all { assert bits * w.bits == w.bits; }
  }

  datatype Retried<T> = Retried(bits: Mask, left: seq<T>, got: map<T, Mask>)

  /** Each waiting thread in turn tries its receive again, without waiting. */
  function Retry<T(==)>(bits: Mask, ws: seq<T>, want: map<T, Want>): Retried<T>
    requires forall w :: w in ws ==> w in want
  {
    if ws == [] then Retried(bits, [], map[])
    else
      var (t, w) := (ws[0], want[ws[0]]);
      if Satisfied(bits, w) then var r := Retry(Rest(bits, w), ws[1..], want); r.(got := r.got[t := Got(bits, w)])
      else var r := Retry(bits, ws[1..], want); r.(left := [t] + r.left)
  }

  /** The flags received by woken threads, written over their wants. */
  function Overlay<T(==)>(want: map<T, Want>, got: map<T, Mask>): map<T, Want> {
    map t | t in want :: if t in got then want[t].(bits := got[t]) else want[t]
  }

  lemma {:induction false} RetryOnly<T>(bits: Mask, ws: seq<T>, want: map<T, Want>, other: map<T, Want>)
    requires forall w :: w in ws ==> w in want && w in other && want[w] == other[w]
    ensures Retry(bits, ws, want) == Retry(bits, ws, other)
  {
    if ws != [] {
      var w := want[ws[0]];
      RetryOnly(if Satisfied(bits, w) then Rest(bits, w) else bits, ws[1..], want, other);
    }
  }

  lemma {:induction false} RetryParts<T>(bits: Mask, ws: seq<T>, want: map<T, Want>)
    requires (forall w :: w in ws ==> w in want) && Distinct(ws)
    ensures var r := Retry(bits, ws, want);
            && Distinct(r.left) && (forall t :: t in ws <==> t in r.left || t in r.got) && (forall t :: t in r.got ==> t !in r.left)
  {
    if ws != [] {
      var w := want[ws[0]];
      var next := if Satisfied(bits, w) then Rest(bits, w) else bits;
      RetryParts(next, ws[1..], want);
      assert ws == [ws[0]] + ws[1..] && ws[0] !in ws[1..];
      assert ws[0] !in Retry(next, ws[1..], want).left;
    }
  }

  /** The walk does to flags, list and threads what the retries do. */
  lemma {:induction false} WalkIsRetry<T>(bits: Mask, ws: seq<T>, want: map<T, Want>)
    requires (forall w :: w in ws ==> w in want) && Distinct(ws)
    ensures var (a, b) := (Walk(bits, ws, want), Retry(bits, ws, want));
            a.bits == b.bits && a.left == b.left && a.want == Overlay(want, b.got)
  {
    if ws == [] {
      assert Overlay(want, map[]) == want;
    } else {
      var (t, w, rest) := (ws[0], want[ws[0]], ws[1..]);
      if Satisfied(bits, w) {
        WakeIsReceive(bits, w);
        var next := want[t := w.(bits := Stored(bits, w))];
        WalkIsRetry(Rest(bits, w), rest, next);
        RetryOnly(Rest(bits, w), rest, next, want);
        RetryParts(Rest(bits, w), rest, want);
        var got := Retry(Rest(bits, w), rest, want).got;
        assert t !in got;
        assert Overlay(next, got) == Overlay(want, got[t := Got(bits, w)]);
      } else {
        WalkIsRetry(bits, rest, want);
      }
    }
  }

  // ---------------------------------------------------------------- bit by bit

  /** Whether what is asked for is there: every bit, if all are wanted, or some bit. */
  ghost predicate Found(bits: Mask, w: Want) {
    if w.all then forall b :: b in w.bits ==> b in bits else exists b :: b in w.bits && b in bits
  }

  lemma SatisfiedBits(bits: Mask, w: Want)
    requires w.all || w.any
    ensures Satisfied(bits, w) <==> Found(bits, w)
  {
    if !w.all && Found(bits, w) {
      var b :| b in w.bits && b in bits;
      assert b in bits * w.bits;
    }
    if !w.all && Satisfied(bits, w) {
      var b :| b in bits * w.bits;
      assert b in w.bits && b in bits;
    }
  }

  /**
   * A receive returns flags exactly if all, or some, of its bits are set: those that are, and with the clear option these
   * and no others are cleared. Otherwise it fails or waits, and no flag changes.
   */
  lemma ReceiveBits<T>(e: Event<T>, prio: map<T, nat>, flag: Flag, t: T, w: Want, wait: bool)
    requires t in prio && t in e.want && (forall x :: x in e.waiters ==> x in prio) && (w.all || w.any) && w.bits != {}
    ensures var (f, r) := Receive(e, prio, flag, t, w, wait);
            && (r.Received? <==> Found(e.bits, w))
            && (forall b :: b in f.bits <==> b in e.bits && !(r.Received? && w.clear && b in w.bits))
            && (r.Received? ==> (forall b :: b in r.flags <==> b in e.bits && b in w.bits) && f.waiters == e.waiters && t !in f.failed)
            && (r == TimedOut <==> !Found(e.bits, w) && !wait) && (r == TimedOut ==> f.waiters == e.waiters && t in f.failed)
            && (r == Waiting <==> !Found(e.bits, w) && wait) && (r == Waiting ==> t in f.waiters && f.want[t] == w && t !in f.failed)
  {
    SatisfiedBits(e.bits, w);
    if !Satisfied(e.bits, w) && wait { assert Enqueue(e.waiters, prio, t, flag)[Place(e.waiters, prio, prio[t], flag)] == t; }
  }

  /** Each waiting thread in turn: it is woken exactly if what those before it have left is what it asks for. */
  lemma {:induction false} RetryAt<T>(bits: Mask, ws: seq<T>, want: map<T, Want>, i: nat)
    requires (forall w :: w in ws ==> w in want && (want[w].all || want[w].any)) && Distinct(ws) && i < |ws|
    ensures var (t, got) := (ws[i], Retry(bits, ws, want).got);
            var (before, after) := (Retry(bits, ws[..i], want).bits, Retry(bits, ws[..i + 1], want).bits);
            && (t in got <==> Found(before, want[t]))
            && (t in got ==> forall b :: b in got[t] <==> b in before && b in want[t].bits)
            && (forall b :: b in after <==> b in before && !(t in got && want[t].clear && b in want[t].bits))
    decreases i
  {
    var w := want[ws[0]];
    var next := if Satisfied(bits, w) then Rest(bits, w) else bits;
    if i == 0 {
      assert ws[..0] == [] && ws[..1] == [ws[0]] && ws[..1][1..] == [];
      assert Retry(next, [], want).bits == next;
      SatisfiedBits(bits, w);
      RetryParts(next, ws[1..], want);
      assert ws[0] !in Retry(next, ws[1..], want).got;
    } else {
      assert ws[..i][1..] == ws[1..][..i - 1] && ws[..i + 1][1..] == ws[1..][..i] && ws[1..][i - 1] == ws[i] && ws[i] != ws[0];
      RetryAt(next, ws[1..], want, i - 1);
    }
  }

  /** A thread that waited, and does not any more, asked for this bit to be cleared. */
  ghost predicate ClearedBy<T>(want: map<T, Want>, was: seq<T>, now: seq<T>, b: nat) {
    exists t :: t in was && t !in now && t in want && want[t].clear && b in want[t].bits
  }

  lemma {:induction false} RetryBit<T>(bits: Mask, ws: seq<T>, want: map<T, Want>, b: nat)
    requires (forall w :: w in ws ==> w in want) && Distinct(ws)
    ensures var r := Retry(bits, ws, want); b in r.bits <==> b in bits && !ClearedBy(want, ws, r.left, b)
  {
    if ws != [] {
      var (t, w) := (ws[0], want[ws[0]]);
      var next := if Satisfied(bits, w) then Rest(bits, w) else bits;
      RetryBit(next, ws[1..], want, b);
      RetryParts(bits, ws, want);
      RetryParts(next, ws[1..], want);
      assert ws == [t] + ws[1..] && t !in ws[1..];
      var left := Retry(next, ws[1..], want).left;
      if ClearedBy(want, ws[1..], left, b) {
        var x :| x in ws[1..] && x !in left && x in want && want[x].clear && b in want[x].bits;
        assert x in ws && x != t;
      }
      if Satisfied(bits, w) && w.clear && b in w.bits { assert t in ws && t !in left; }
    }
  }

  /** A send adds its flags to those there, and of all these only the ones asked for by threads it wakes to clear are gone. */
  lemma SendBits<T>(e: Event<T>, bits: Mask)
    requires (forall w :: w in e.waiters ==> w in e.want) && Distinct(e.waiters)
    ensures var (f, ok) := Send(e, bits);
            && (ok <==> bits != {}) && (!ok ==> f == e) && f.failed == e.failed
            && forall b :: b in f.bits <==> (b in e.bits || b in bits) && !ClearedBy(e.want, e.waiters, f.waiters, b)
  {
    if bits != {} {
      WalkIsRetry(e.bits + bits, e.waiters, e.want);
      forall b ensures b in Send(e, bits).0.bits <==>
                       (b in e.bits || b in bits) && !ClearedBy(e.want, e.waiters, Send(e, bits).0.waiters, b) {
        RetryBit(e.bits + bits, e.waiters, e.want, b);
      }
    }
  }

  // ---------------------------------------------------------------- no satisfied thread waits

  /** Fewer flags satisfy no more. */
  lemma SatisfiedMonotone(bits: Mask, less: Mask, w: Want)
    requires less <= bits && Satisfied(less, w) && w.bits != {}
    ensures Satisfied(bits, w)
  {
    if !w.all {
      var b :| b in less * w.bits;
      assert b in bits * w.bits;
    }
  }

  predicate NoneReady<T(==)>(bits: Mask, ws: seq<T>, want: map<T, Want>)
    requires forall w :: w in ws ==> w in want
  {
    forall w :: w in ws ==> want[w].bits != {} && !Satisfied(bits, want[w])
  }

  lemma NoneReadyLess<T>(bits: Mask, less: Mask, ws: seq<T>, want: map<T, Want>)
    requires (forall w :: w in ws ==> w in want) && NoneReady(bits, ws, want) && less <= bits
    ensures NoneReady(less, ws, want)
  {
    forall w | w in ws ensures !Satisfied(less, want[w]) {
      if Satisfied(less, want[w]) { SatisfiedMonotone(bits, less, want[w]); }
    }
  }

  /** Flags are only cleared on the way, so a thread passed over stays unsatisfied to the end. */
  lemma {:induction false} RetryNoneReady<T>(bits: Mask, ws: seq<T>, want: map<T, Want>)
    requires (forall w :: w in ws ==> w in want && want[w].bits != {}) && Distinct(ws)
    ensures var r := Retry(bits, ws, want);
            (forall t :: t in r.left ==> t in want) && NoneReady(r.bits, r.left, want) && r.bits <= bits
  {
    if ws != [] {
      var (t, w) := (ws[0], want[ws[0]]);
      var next := if Satisfied(bits, w) then Rest(bits, w) else bits;
      RetryNoneReady(next, ws[1..], want);
      var r := Retry(next, ws[1..], want);
      if !Satisfied(bits, w) && Satisfied(r.bits, w) { SatisfiedMonotone(bits, r.bits, w); }
    }
  }

  // ---------------------------------------------------------------- runs

  datatype Op<T> =
    ReceiveOp(t: T, w: Want, wait: bool) | SendOp(bits: Mask) | ExpireOp(t: T) | ResetOp | FinishOp(t: T) | PrioOp(t: T, p: nat)

  /** An event with, for each thread woken by a send but not yet run, the flags an immediate receive would have returned. */
  datatype State<T> = State(e: Event<T>, due: map<T, Mask>)

  /** A thread that waits or is about to return from waiting starts no call; a receive asks for all or any; priorities may change. */
  ghost predicate Enabled<T>(st: State<T>, op: Op<T>) {
    match op
    case ReceiveOp(t, w, _) => t in st.e.want && t !in st.e.waiters && t !in st.due && (w.all || w.any)
    case SendOp(_) => true
    case ExpireOp(t) => t in st.e.waiters
    case ResetOp => true
    case FinishOp(t) => t in st.due
    case PrioOp(t, _) => t in st.e.want
  }

  ghost predicate Typed<T>(st: State<T>, prio: map<T, nat>) {
    (forall t :: t in st.e.want ==> t in prio) && (forall w :: w in st.e.waiters ==> w in st.e.want)
  }

  function Step<T(==)>(st: State<T>, prio: map<T, nat>, flag: Flag, op: Op<T>): State<T>
    requires Typed(st, prio) && Enabled(st, op)
  {
    match op
    case ReceiveOp(t, w, wait) => st.(e := Receive(st.e, prio, flag, t, w, wait).0)
    case SendOp(bits) =>
      if bits == {} then st
      else State(Send(st.e, bits).0, st.due + Retry(st.e.bits + bits, st.e.waiters, st.e.want).got)
    case ExpireOp(t) => st.(e := Expire(st.e, t))
    case ResetOp => st.(e := Reset(st.e))
    case FinishOp(t) => st.(due := st.due - {t})
    case PrioOp(_, _) => st
  }

  /** The priorities after a step. */
  function Later<T(==)>(prio: map<T, nat>, op: Op<T>): map<T, nat> { if op.PrioOp? then prio[op.t := op.p] else prio }

  ghost predicate Inv<T>(st: State<T>, prio: map<T, nat>) {
    && Typed(st, prio) && Distinct(st.e.waiters) && NoneReady(st.e.bits, st.e.waiters, st.e.want)
    && (forall w :: w in st.e.waiters ==> w !in st.e.failed && (st.e.want[w].all || st.e.want[w].any))
    && (forall t :: t in st.due ==> t in st.e.want && t !in st.e.waiters && t !in st.e.failed && st.e.want[t].bits == st.due[t])
  }

  lemma ReceiveInv<T>(st: State<T>, prio: map<T, nat>, flag: Flag, t: T, w: Want, wait: bool)
    requires Inv(st, prio) && Enabled(st, ReceiveOp(t, w, wait))
    ensures Inv(Step(st, prio, flag, ReceiveOp(t, w, wait)), prio)
  {
    var ws := st.e.waiters;
    if Satisfied(st.e.bits, w) {
      NoneReadyLess(st.e.bits, Rest(st.e.bits, w), ws, st.e.want);
    } else if wait {
      InsertMembers(ws, Place(ws, prio, prio[t], flag), t);
    }
  }

  lemma SendInv<T>(st: State<T>, prio: map<T, nat>, flag: Flag, bits: Mask)
    requires Inv(st, prio) && bits != {}
    ensures Inv(Step(st, prio, flag, SendOp(bits)), prio)
  {
    var (ws, want) := (st.e.waiters, st.e.want);
    WalkIsRetry(st.e.bits + bits, ws, want);
    RetryParts(st.e.bits + bits, ws, want);
    RetryNoneReady(st.e.bits + bits, ws, want);
    var (got, s) := (Retry(st.e.bits + bits, ws, want).got, Step(st, prio, flag, SendOp(bits)));
    forall t | t in s.due ensures t in s.e.want && t !in s.e.waiters && t !in s.e.failed && s.e.want[t].bits == s.due[t] {
      if t in got { assert t in ws; } else { assert t in st.due; }
    }
  }

  lemma ExpireInv<T>(st: State<T>, prio: map<T, nat>, flag: Flag, t: T)
    requires Inv(st, prio) && t in st.e.waiters
    ensures Inv(Step(st, prio, flag, ExpireOp(t)), prio)
  {
    RemoveMembers(st.e.waiters, IndexOf(st.e.waiters, t));
  }

  lemma StepInv<T>(st: State<T>, prio: map<T, nat>, flag: Flag, op: Op<T>)
    requires Inv(st, prio) && Enabled(st, op)
    ensures Inv(Step(st, prio, flag, op), prio)
  {
    match op
    case ReceiveOp(t, w, wait) => ReceiveInv(st, prio, flag, t, w, wait);
    case SendOp(bits) => if bits != {} { SendInv(st, prio, flag, bits); }
    case ExpireOp(t) => ExpireInv(st, prio, flag, t);
    case ResetOp =>
    case FinishOp(t) =>
    case PrioOp(_, _) =>
  }

  lemma {:induction false} RetryOrdered<T>(bits: Mask, ws: seq<T>, want: map<T, Want>, prio: map<T, nat>, since: map<T, nat>, flag: Flag)
    requires (forall w :: w in ws ==> w in want) && Distinct(ws) && Ordered(ws, prio, since, flag)
    ensures Ordered(Retry(bits, ws, want).left, prio, since, flag)
  {
    if ws != [] {
      var w := want[ws[0]];
      var next := if Satisfied(bits, w) then Rest(bits, w) else bits;
      FirstLeaves(ws, prio, since, flag);
      RetryOrdered(next, ws[1..], want, prio, since, flag);
      RetryParts(next, ws[1..], want);
      var left := Retry(next, ws[1..], want).left;
      forall j | 0 <= j < |left| ensures left[j] in prio && left[j] in since && Before(prio, since, flag, ws[0], left[j]) {
        assert left[j] in left && left[j] in ws[1..];
        var k :| 0 <= k < |ws[1..]| && ws[1..][k] == left[j];
        assert ws[k + 1] == left[j] && Before(prio, since, flag, ws[0], ws[k + 1]);
      }
    }
  }

  /** Every step but a change of priorities keeps the list in waking order. */
  lemma KeepsOrder<T>(st: State<T>, prio: map<T, nat>, flag: Flag, op: Op<T>, since: map<T, nat>, now: nat)
    requires Inv(st, prio) && Enabled(st, op) && !op.PrioOp? && Ordered(st.e.waiters, prio, since, flag)
    requires forall w :: w in st.e.waiters ==> since[w] < now
    ensures Ordered(Step(st, prio, flag, op).e.waiters, prio, if op.ReceiveOp? then since[op.t := now] else since, flag)
  {
    var ws := st.e.waiters;
    match op
    case ReceiveOp(t, x, wait) =>
      EnqueueOrdered(ws, prio, since, flag, t, now);
      OrderedLater(ws, prio, since, flag, t, now);
    case SendOp(bits) =>
      WalkIsRetry(st.e.bits + bits, ws, st.e.want);
      RetryOrdered(st.e.bits + bits, ws, st.e.want, prio, since, flag);
    case ExpireOp(t) => RemoveOrdered(ws, prio, since, flag, IndexOf(ws, t));
    case ResetOp =>
    case FinishOp(t) =>
  }

  ghost predicate RunOk<T>(st: State<T>, prio: map<T, nat>, flag: Flag, ops: seq<Op<T>>)
    decreases ops
  {
    ops == [] || (Typed(st, prio) && Enabled(st, ops[0]) && RunOk(Step(st, prio, flag, ops[0]), Later(prio, ops[0]), flag, ops[1..]))
  }

  ghost function Run<T>(st: State<T>, prio: map<T, nat>, flag: Flag, ops: seq<Op<T>>): State<T>
    requires RunOk(st, prio, flag, ops)
    decreases ops
  {
    if ops == [] then st else Run(Step(st, prio, flag, ops[0]), Later(prio, ops[0]), flag, ops[1..])
  }

  lemma {:induction false} RunInv<T>(st: State<T>, prio: map<T, nat>, flag: Flag, ops: seq<Op<T>>)
    requires Inv(st, prio) && RunOk(st, prio, flag, ops)
    ensures Inv(Run(st, prio, flag, ops), prio)
    decreases ops
  {
    if ops != [] {
      StepInv(st, prio, flag, ops[0]);
      RunInv(Step(st, prio, flag, ops[0]), Later(prio, ops[0]), flag, ops[1..]);
    }
  }

  /** A thread joins the list exactly by a receive that may wait and does not find what it asks for. */
  lemma Joins<T>(st: State<T>, prio: map<T, nat>, flag: Flag, op: Op<T>, t: T)
    requires Inv(st, prio) && Enabled(st, op) && t !in st.e.waiters
    ensures t in Step(st, prio, flag, op).e.waiters
            <==> op.ReceiveOp? && op.t == t && op.wait && op.w.bits != {} && !Found(st.e.bits, op.w)
  {
    var ws := st.e.waiters;
    match op
    case ReceiveOp(x, w, wait) =>
      SatisfiedBits(st.e.bits, w);
      if !Satisfied(st.e.bits, w) && wait { InsertMembers(ws, Place(ws, prio, prio[x], flag), x); }
    case SendOp(bits) =>
      WalkIsRetry(st.e.bits + bits, ws, st.e.want);
      RetryParts(st.e.bits + bits, ws, st.e.want);
    case ExpireOp(x) => RemoveMembers(ws, IndexOf(ws, x));
    case ResetOp =>
    case FinishOp(x) =>
    case PrioOp(_, _) =>
  }

  /** A thread leaves the list woken by a send, and then without an error, or by a timeout or a reset, with one. */
  lemma Leaves<T>(st: State<T>, prio: map<T, nat>, flag: Flag, op: Op<T>, w: T)
    requires Inv(st, prio) && Enabled(st, op) && w in st.e.waiters
    ensures var s := Step(st, prio, flag, op);
            && (w !in s.e.waiters <==> w in s.due || op == ExpireOp(w) || op.ResetOp?)
            && (w in s.due ==> op.SendOp?) && (w in s.e.failed <==> op == ExpireOp(w) || op.ResetOp?)
            && (op.ResetOp? ==> s.e.bits == {})
  {
    var ws := st.e.waiters;
    match op
    case ReceiveOp(t, x, wait) =>
      if x.bits != {} && !Satisfied(st.e.bits, x) && wait { InsertMembers(ws, Place(ws, prio, prio[t], flag), t); }
    case SendOp(bits) =>
      WalkIsRetry(st.e.bits + bits, ws, st.e.want);
      RetryParts(st.e.bits + bits, ws, st.e.want);
    case ExpireOp(t) => RemoveMembers(ws, IndexOf(ws, t));
    case ResetOp =>
    case FinishOp(t) =>
    case PrioOp(_, _) =>
  }

  function Fresh<T>(want: map<T, Want>): State<T> { State(Event({}, [], want, {}), map[]) }

  /**
   * After every run: a thread that waits for all its flags lacks one, and one that waits for any has none; a thread woken
   * by a send will return the flags due to it.
   */
  lemma EventSafe<T>(want: map<T, Want>, prio: map<T, nat>, flag: Flag, ops: seq<Op<T>>)
    requires (forall t :: t in want ==> t in prio) && RunOk(Fresh(want), prio, flag, ops)
    ensures var st := Run(Fresh(want), prio, flag, ops);
            && Typed(st, prio) && (forall t :: t in st.e.waiters ==> !Found(st.e.bits, st.e.want[t]))
            && (forall t :: t in st.due ==> t in st.e.want && st.e.want[t].bits == st.due[t] && t !in st.e.failed)
  {
    RunInv(Fresh(want), prio, flag, ops);
    var st := Run(Fresh(want), prio, flag, ops);
    forall t | t in st.e.waiters ensures !Found(st.e.bits, st.e.want[t]) { SatisfiedBits(st.e.bits, st.e.want[t]); }
  }
}
