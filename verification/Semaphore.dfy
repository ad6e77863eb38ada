/** Counting semaphores (`rt_sem_take`, `rt_sem_release`, `rt_sem_control`): one step for each interrupt-disabled section. */
module SemaphoreModel {
  import opened RtList
  import opened WaitQueue

  const LIMIT := 0x10000    // the value is a 16-bit counter

  /** `failed` are the threads whose error is set: a thread that waited returns it on waking. */
  datatype Sem<T> = Sem(value: nat, waiters: seq<T>, failed: set<T>)

  datatype Outcome = Granted | TimedOut | Waiting

  function Take<T(==)>(s: Sem<T>, prio: map<T, nat>, flag: Flag, t: T, wait: bool): (Sem<T>, Outcome)
    requires t in prio && forall w :: w in s.waiters ==> w in prio
  {
    if s.value > 0 then (s.(value := s.value - 1), Granted)
    else if !wait then (s, TimedOut)
    else (s.(waiters := Enqueue(s.waiters, prio, t, flag), failed := s.failed - {t}), Waiting)
  }

  function Release<T>(s: Sem<T>): Sem<T> {
    if s.waiters != [] then s.(waiters := s.waiters[1..]) else s.(value := (s.value + 1) % LIMIT)
  }

  function Expire<T(==)>(s: Sem<T>, t: T): Sem<T>
    requires t in s.waiters
  {
    s.(waiters := Without(s.waiters, t), failed := s.failed + {t})
  }

  function Reset<T(==)>(s: Sem<T>, v: nat): Sem<T> {
    Sem(v % LIMIT, [], s.failed + (set w | w in s.waiters))
  }

  // ---------------------------------------------------------------- runs

  datatype Op<T> = TakeOp(t: T, wait: bool) | ReleaseOp | ExpireOp(t: T) | ResetOp(v: nat) | PrioOp(t: T, p: nat)

  /** A semaphore with its books: the priorities, the value last set, and what happened since. */
  datatype State<T> = State(sem: Sem<T>, prio: map<T, nat>, now: nat, since: map<T, nat>, base: nat, releases: nat, grants: nat, wraps: nat)

  function Start<T>(value: nat, prio: map<T, nat>): State<T> { State(Sem(value, [], {}), prio, 0, map[], value, 0, 0, 0) }

  /**
   * A thread that waits does not run; only a waiting thread's timer fires. A thread's priority may change at any time, also
   * while it waits, when it owns a mutex: its place in the list stays.
   */
  ghost predicate Enabled<T>(st: State<T>, op: Op<T>) {
    && (forall w :: w in st.sem.waiters ==> w in st.prio)
    && match op
       case TakeOp(t, _) => t in st.prio && t !in st.sem.waiters
       case ReleaseOp => true
       case ExpireOp(t) => t in st.sem.waiters
       case ResetOp(_) => true
       case PrioOp(t, _) => t in st.prio
  }

  function Step<T(==)>(st: State<T>, flag: Flag, op: Op<T>): State<T>
    requires Enabled(st, op)
  {
    match op
    case TakeOp(t, wait) =>
      var (s, r) := Take(st.sem, st.prio, flag, t, wait);
      st.(sem := s, now := st.now + 1, since := st.since[t := st.now], grants := st.grants + if r == Granted then 1 else 0)
    case ReleaseOp =>
      st.(sem := Release(st.sem), releases := st.releases + 1,
          grants := st.grants + (if st.sem.waiters != [] then 1 else 0),
          wraps := st.wraps + if st.sem.waiters == [] && st.sem.value == LIMIT - 1 then 1 else 0)
    case ExpireOp(t) => st.(sem := Expire(st.sem, t))
    case ResetOp(v) => st.(sem := Reset(st.sem, v), base := v % LIMIT, releases := 0, grants := 0, wraps := 0)
    case PrioOp(t, p) => st.(prio := st.prio[t := p])
  }

  ghost predicate Inv<T>(st: State<T>) {
    && st.sem.value < LIMIT && Distinct(st.sem.waiters)
    && (st.sem.value > 0 ==> st.sem.waiters == [])
    && (forall w :: w in st.sem.waiters ==> w in st.prio && w in st.since && st.since[w] < st.now && w !in st.sem.failed)
    && st.base + st.releases == st.sem.value + st.grants + LIMIT * st.wraps
  }

  /** The list is in waking order by the current priorities. */
  ghost predicate InOrder<T>(st: State<T>, flag: Flag) { Ordered(st.sem.waiters, st.prio, st.since, flag) }

  ghost predicate RunOk<T>(st: State<T>, flag: Flag, ops: seq<Op<T>>)
    decreases ops
  {
    ops == [] || (Enabled(st, ops[0]) && RunOk(Step(st, flag, ops[0]), flag, ops[1..]))
  }

  ghost function Run<T>(st: State<T>, flag: Flag, ops: seq<Op<T>>): State<T>
    requires RunOk(st, flag, ops)
    decreases ops
  {
    if ops == [] then st else Run(Step(st, flag, ops[0]), flag, ops[1..])
  }

  lemma TakeInv<T>(st: State<T>, flag: Flag, t: T, wait: bool)
    requires Inv(st) && Enabled(st, TakeOp(t, wait))
    ensures Inv(Step(st, flag, TakeOp(t, wait)))
  {
    var ws := st.sem.waiters;
    if st.sem.value == 0 && wait { InsertMembers(ws, Place(ws, st.prio, st.prio[t], flag), t); }
  }

  lemma StepInv<T>(st: State<T>, flag: Flag, op: Op<T>)
    requires Inv(st) && Enabled(st, op)
    ensures Inv(Step(st, flag, op))
  {
    var ws := st.sem.waiters;
    match op
    case TakeOp(t, wait) => TakeInv(st, flag, t, wait);
    case ReleaseOp => if ws != [] { FirstMembers(ws); }
    case ExpireOp(t) => RemoveMembers(ws, IndexOf(ws, t));
    case ResetOp(v) =>
    case PrioOp(t, p) =>
  }

  /** In every state of every run: no waiter while the value is positive, and the books balance but for wraps. */
  lemma {:induction false} RunInv<T>(st: State<T>, flag: Flag, ops: seq<Op<T>>)
    requires Inv(st) && RunOk(st, flag, ops)
    ensures Inv(Run(st, flag, ops))
    decreases ops
  {
    if ops != [] {
      StepInv(st, flag, ops[0]);
      RunInv(Step(st, flag, ops[0]), flag, ops[1..]);
    }
  }

  /**
   * The law of the semaphore, for every run from its creation: what was put in is what is there or was granted,
   * exactly if no release met the value 65535 without a waiter since the value was last set.
   */
  lemma Conservation<T>(value: nat, prio: map<T, nat>, flag: Flag, ops: seq<Op<T>>)
    requires value < LIMIT && RunOk(Start(value, prio), flag, ops)
    ensures var st := Run(Start(value, prio), flag, ops);
            && (st.sem.value > 0 ==> st.sem.waiters == [])
            && (st.base + st.releases == st.sem.value + st.grants <==> st.wraps == 0)
  {
    RunInv(Start(value, prio), flag, ops);
  }

  /**
   * A take is granted at once exactly if more has been put in than was granted, after every run in which none was lost;
   * otherwise it fails, or joins the list.
   */
  lemma TakeGranted<T>(value: nat, prio: map<T, nat>, flag: Flag, ops: seq<Op<T>>, t: T, wait: bool)
    requires value < LIMIT && RunOk(Start(value, prio), flag, ops)
    requires var st := Run(Start(value, prio), flag, ops); Enabled(st, TakeOp(t, wait)) && st.wraps == 0
    ensures var st := Run(Start(value, prio), flag, ops);
            var (s, r) := Take(st.sem, st.prio, flag, t, wait);
            && (r == Granted <==> st.grants < st.base + st.releases)
            && (r == TimedOut <==> st.grants == st.base + st.releases && !wait) && (r == Waiting <==> t in s.waiters)
            && (r == TimedOut ==> s == st.sem)
  {
    RunInv(Start(value, prio), flag, ops);
    var st := Run(Start(value, prio), flag, ops);
    if st.sem.value == 0 && wait {
      assert Enqueue(st.sem.waiters, st.prio, t, flag)[Place(st.sem.waiters, st.prio, st.prio[t], flag)] == t;
    }
  }

  /** A release at the largest value loses the whole count. */
  lemma Overflow<T>(s: Sem<T>)
    requires s.waiters == [] && s.value == LIMIT - 1
    ensures Release(s).value == 0
  {
  }

  /** A thread leaves the list when a release finds it first, and then without an error, or by a timeout or a reset, with one. */
  lemma Leaves<T>(st: State<T>, flag: Flag, op: Op<T>, w: T)
    requires Inv(st) && Enabled(st, op) && w in st.sem.waiters
    ensures var s := Step(st, flag, op).sem;
            && (w !in s.waiters <==> (op == ReleaseOp && w == st.sem.waiters[0]) || op == ExpireOp(w) || op.ResetOp?)
            && (w in s.failed <==> op == ExpireOp(w) || op.ResetOp?)
            && (op.ResetOp? ==> s.value == op.v % LIMIT)
  {
    var ws := st.sem.waiters;
    match op
    case TakeOp(t, wait) => if st.sem.value == 0 && wait { InsertMembers(ws, Place(ws, st.prio, st.prio[t], flag), t); }
    case ReleaseOp => FirstMembers(ws);
    case ExpireOp(t) => RemoveMembers(ws, IndexOf(ws, t));
    case ResetOp(v) =>
    case PrioOp(t, p) =>
  }

  // ---------------------------------------------------------------- waking order

  /** A thread of priority `p` between its neighbours in the list. */
  predicate Between<T(==)>(ws: seq<T>, prio: map<T, nat>, since: map<T, nat>, k: nat, p: nat)
    requires k < |ws| && forall w :: w in ws ==> w in prio && w in since
  {
    && (k > 0 ==> prio[ws[k - 1]] < p || (prio[ws[k - 1]] == p && since[ws[k - 1]] < since[ws[k]]))
    && (k + 1 < |ws| ==> p < prio[ws[k + 1]] || (p == prio[ws[k + 1]] && since[ws[k]] < since[ws[k + 1]]))
  }

  /** The step is not a change of priority that takes a waiting thread past its neighbours. */
  ghost predicate Calm<T>(st: State<T>, flag: Flag, op: Op<T>)
    requires Inv(st)
  {
    op.PrioOp? && op.t in st.sem.waiters && flag == Prio ==>
      Between(st.sem.waiters, st.prio, st.since, IndexOf(st.sem.waiters, op.t), op.p)
  }

  lemma BeforeTransitive<T>(prio: map<T, nat>, since: map<T, nat>, flag: Flag, a: T, b: T, c: T)
    requires a in prio && b in prio && c in prio && a in since && b in since && c in since
    requires Before(prio, since, flag, a, b) && Before(prio, since, flag, b, c)
    ensures Before(prio, since, flag, a, c)
  {
  }

  /** Every thread but the one whose priority changed is where it was; it is in order if it is between its neighbours. */
  lemma ChangedPair<T>(ws: seq<T>, prio: map<T, nat>, since: map<T, nat>, k: nat, p: nat, i: nat, j: nat)
    requires Ordered(ws, prio, since, Prio) && Distinct(ws) && k < |ws| && Between(ws, prio, since, k, p) && i < j < |ws|
    ensures ws[i] in ws && ws[j] in ws && Before(prio[ws[k] := p], since, Prio, ws[i], ws[j])
  {
    var later := prio[ws[k] := p];
    assert ws[i] in ws && ws[j] in ws && Before(prio, since, Prio, ws[i], ws[j]);
    if j == k {
      assert ws[k - 1] in ws && ws[k - 1] != ws[k];
      if i < k - 1 {
        assert Before(prio, since, Prio, ws[i], ws[k - 1]) && ws[i] != ws[k];
        BeforeTransitive(later, since, Prio, ws[i], ws[k - 1], ws[k]);
      }
    } else if i == k {
      assert ws[k + 1] in ws && ws[k + 1] != ws[k];
      if k + 1 < j {
        assert Before(prio, since, Prio, ws[k + 1], ws[j]) && ws[j] != ws[k];
        BeforeTransitive(later, since, Prio, ws[k], ws[k + 1], ws[j]);
      }
    } else {
      assert ws[i] != ws[k] && ws[j] != ws[k];
    }
  }

  lemma ChangeOrder<T>(ws: seq<T>, prio: map<T, nat>, since: map<T, nat>, k: nat, p: nat)
    requires Ordered(ws, prio, since, Prio) && Distinct(ws) && k < |ws|
    ensures Ordered(ws, prio[ws[k] := p], since, Prio) <==> Between(ws, prio, since, k, p)
  {
    var later := prio[ws[k] := p];
    if Between(ws, prio, since, k, p) {
      forall i, j | 0 <= i < j < |ws| ensures Before(later, since, Prio, ws[i], ws[j]) {
        ChangedPair(ws, prio, since, k, p, i, j);
      }
    }
    if Ordered(ws, later, since, Prio) {
      if k > 0 { assert Before(later, since, Prio, ws[k - 1], ws[k]) && ws[k - 1] != ws[k]; }
      if k + 1 < |ws| { assert Before(later, since, Prio, ws[k], ws[k + 1]) && ws[k + 1] != ws[k]; }
    }
  }

  lemma OrderedElsewhere<T>(ws: seq<T>, prio: map<T, nat>, since: map<T, nat>, flag: Flag, t: T, p: nat)
    requires Ordered(ws, prio, since, flag) && (t !in ws || flag == Fifo)
    ensures Ordered(ws, prio[t := p], since, flag)
  {
    forall i, j | 0 <= i < j < |ws| ensures Before(prio[t := p], since, flag, ws[i], ws[j]) {
      assert ws[i] in ws && ws[j] in ws && Before(prio, since, flag, ws[i], ws[j]);
    }
  }

  /** A step keeps waking order exactly if it does not take a waiting thread past its neighbours. */
  lemma StepOrder<T>(st: State<T>, flag: Flag, op: Op<T>)
    requires Inv(st) && InOrder(st, flag) && Enabled(st, op)
    ensures InOrder(Step(st, flag, op), flag) <==> Calm(st, flag, op)
  {
    var ws := st.sem.waiters;
    match op
    case TakeOp(t, wait) =>
      if st.sem.value == 0 && wait { EnqueueOrdered(ws, st.prio, st.since, flag, t, st.now); }
      else { OrderedLater(ws, st.prio, st.since, flag, t, st.now); }
    case ReleaseOp => if ws != [] { FirstLeaves(ws, st.prio, st.since, flag); }
    case ExpireOp(t) => RemoveOrdered(ws, st.prio, st.since, flag, IndexOf(ws, t));
    case ResetOp(v) =>
    case PrioOp(t, p) =>
      if t in ws && flag == Prio { ChangeOrder(ws, st.prio, st.since, IndexOf(ws, t), p); }
      else { OrderedElsewhere(ws, st.prio, st.since, flag, t, p); }
  }

  /** Waking order in every state of the run. */
  ghost predicate AllInOrder<T>(st: State<T>, flag: Flag, ops: seq<Op<T>>)
    requires RunOk(st, flag, ops)
    decreases ops
  {
    InOrder(st, flag) && (ops == [] || AllInOrder(Step(st, flag, ops[0]), flag, ops[1..]))
  }

  ghost predicate AllCalm<T>(st: State<T>, flag: Flag, ops: seq<Op<T>>)
    requires RunOk(st, flag, ops) && Inv(st)
    decreases ops
  {
    ops == [] || (Calm(st, flag, ops[0]) && (StepInv(st, flag, ops[0]); AllCalm(Step(st, flag, ops[0]), flag, ops[1..])))
  }

  /** The list is in waking order throughout a run exactly if no change of priority takes a waiting thread past its neighbours. */
  lemma {:induction false} RunOrder<T>(st: State<T>, flag: Flag, ops: seq<Op<T>>)
    requires RunOk(st, flag, ops) && Inv(st) && InOrder(st, flag)
    ensures AllInOrder(st, flag, ops) <==> AllCalm(st, flag, ops)
    decreases ops
  {
    if ops != [] {
      StepInv(st, flag, ops[0]);
      StepOrder(st, flag, ops[0]);
      if Calm(st, flag, ops[0]) { RunOrder(Step(st, flag, ops[0]), flag, ops[1..]); }
    }
  }

  /** What a release does to one thread that waits: in waking order it is woken, without an error, exactly if it is the first. */
  lemma ReleaseWakes<T>(st: State<T>, flag: Flag, t: T)
    requires Inv(st) && t in st.sem.waiters
    ensures t !in Release(st.sem).waiters <==> t == st.sem.waiters[0]
    ensures InOrder(st, flag) ==>
              (t == st.sem.waiters[0] <==> forall w :: w in st.sem.waiters && w != t ==> Before(st.prio, st.since, flag, t, w))
    ensures t !in Release(st.sem).failed
  {
    var ws := st.sem.waiters;
    FirstMembers(ws);
    if InOrder(st, flag) { FirstInOrder(st, flag, t); }
  }

  lemma FirstInOrder<T>(st: State<T>, flag: Flag, t: T)
    requires Inv(st) && InOrder(st, flag) && t in st.sem.waiters
    ensures t == st.sem.waiters[0] <==> forall w :: w in st.sem.waiters && w != t ==> Before(st.prio, st.since, flag, t, w)
  {
    var ws := st.sem.waiters;
    if t == ws[0] {
      forall w | w in ws && w != t ensures Before(st.prio, st.since, flag, t, w) {
        var j :| 0 <= j < |ws| && ws[j] == w;
        assert 0 < j;
      }
    } else {
      var j :| 0 <= j < |ws| && ws[j] == t;
      assert Before(st.prio, st.since, flag, ws[0], ws[j]) && ws[0] in ws;
      assert !Before(st.prio, st.since, flag, t, ws[0]);
    }
  }

  const THREE: map<int, nat> := map[1 := 5, 2 := 7, 3 := 8]

  /** Threads 1 and 2 wait, in this order; then the priority of 2 is raised above that of 1. */
  const PASSED: seq<Op<int>> := [TakeOp(1, true), TakeOp(2, true), PrioOp(2, 3)]

  lemma TwoWait()
    ensures RunOk(Start(0, THREE), Prio, [TakeOp(1, true), TakeOp(2, true)])
    ensures var st := Run(Start(0, THREE), Prio, [TakeOp(1, true), TakeOp(2, true)]);
            st.sem == Sem(0, [1, 2], {}) && st.prio == THREE && st.since == map[1 := 0, 2 := 1] && st.now == 2
  {
    var s1 := Step(Start(0, THREE), Prio, TakeOp(1, true));
    assert s1.sem == Sem(0, [1], {});
    var s2 := Step(s1, Prio, TakeOp(2, true));
    assert s2.sem == Sem(0, [1, 2], {});
    assert [TakeOp(1, true), TakeOp(2, true)][1..] == [TakeOp(2, true)];
    assert [TakeOp(2, true)][1..] == [] && RunOk(s2, Prio, []);
  }

  lemma {:induction false} RunSnoc<T>(st: State<T>, flag: Flag, ops: seq<Op<T>>, op: Op<T>)
    requires RunOk(st, flag, ops) && Enabled(Run(st, flag, ops), op)
    ensures RunOk(st, flag, ops + [op]) && Run(st, flag, ops + [op]) == Step(Run(st, flag, ops), flag, op)
    decreases ops
  {
    if ops == [] {
      assert ops + [op] == [op] && [op][1..] == [];
      assert RunOk(Step(st, flag, op), flag, []);
    } else {
      assert (ops + [op])[1..] == ops[1..] + [op] && (ops + [op])[0] == ops[0];
      RunSnoc(Step(st, flag, ops[0]), flag, ops[1..], op);
    }
  }

  /** The next release then wakes thread 1, although 2 is more urgent. */
  lemma UrgentPassedOver()
    ensures RunOk(Start(0, THREE), Prio, PASSED)
    ensures var st := Run(Start(0, THREE), Prio, PASSED);
            && st.sem.waiters == [1, 2] && st.prio[2] < st.prio[1] && !InOrder(st, Prio) && Release(st.sem).waiters == [2]
  {
    TwoWait();
    RunSnoc(Start(0, THREE), Prio, [TakeOp(1, true), TakeOp(2, true)], PrioOp(2, 3));
    assert [TakeOp(1, true), TakeOp(2, true)] + [PrioOp(2, 3)] == PASSED;
    var st := Run(Start(0, THREE), Prio, PASSED);
    assert !Before(st.prio, st.since, Prio, st.sem.waiters[0], st.sem.waiters[1]);
  }

  /** Nor is the order that of the priorities at joining: 3 joins with 8 before 1, which joined with 5 and has 9 now. */
  lemma JoiningOrderLost()
    ensures var ops := [TakeOp(1, true), TakeOp(2, true)] + [PrioOp(1, 9)] + [TakeOp(3, true)];
            RunOk(Start(0, THREE), Prio, ops) && Run(Start(0, THREE), Prio, ops).sem.waiters == [3, 1, 2]
  {
    TwoWait();
    var ops := [TakeOp(1, true), TakeOp(2, true)];
    RunSnoc(Start(0, THREE), Prio, ops, PrioOp(1, 9));
    var st := Run(Start(0, THREE), Prio, ops + [PrioOp(1, 9)]);
    assert st.sem.waiters == [1, 2] && st.prio[1] == 9 && st.prio[3] == 8;
    RunSnoc(Start(0, THREE), Prio, ops + [PrioOp(1, 9)], TakeOp(3, true));
  }
}

/** The semaphore object, updated in place. */
module Semaphores {
  import opened RtList
  import opened WaitQueue
  import M = SemaphoreModel

  class Semaphore {
    const list: WaitList
    var value: nat
    ghost const threads: set<Link>

    ghost predicate Valid()
      reads this, list, list.head, list.waiters
    {
      value < M.LIMIT && list.Valid() && list.threads == threads
    }

    ghost function View(): M.Sem<Link>
      reads this, list, threads`failed
    {
      M.Sem(value, list.waiters, Failed(threads))
    }

    /** `rt_sem_init` */
    constructor (v: nat, f: Flag, ghost ts: set<Link>)
      requires v < M.LIMIT
      ensures Valid() && list.flag == f && threads == ts && value == v && list.waiters == [] && fresh(list)
    {
      list := new WaitList(f, ts);
      value, threads := v, ts;
    }

    /** `rt_sem_take` up to the point where the thread runs on or waits */
    method Take(t: Link, wait: bool) returns (r: M.Outcome)
      requires Valid() && t in threads && t !in list.waiters
      modifies this, list, list.head, threads`next, threads`prev, threads`failed
      ensures Valid() && (View(), r) == M.Take(old(View()), Priorities(threads), list.flag, t, wait)
    {
      if value > 0 {
        value := value - 1;
        return M.Granted;
      }
      if !wait {
        return M.TimedOut;
      }
      SetFailed(t, false, threads);
      list.Join(t);
      return M.Waiting;
    }

    /** `rt_sem_release` */
    method Release()
      requires Valid()
      modifies this, list, list.head, threads`next, threads`prev
      ensures Valid() && View() == M.Release(old(View()))
    {
      var empty := list.Empty();
      if !empty {
        var _ := list.WakeFirst();
      } else {
        value := (value + 1) % M.LIMIT;
      }
    }

    /** `rt_thread_timeout` of a thread that waits for this semaphore */
    method Expire(t: Link)
      requires Valid() && t in list.waiters
      modifies this, list, list.head, threads`next, threads`prev, threads`failed
      ensures Valid() && View() == M.Expire(old(View()), t)
    {
      SetFailed(t, true, threads);
      list.Leave(t, IndexOf(list.waiters, t));
    }

    /** `rt_sem_control` with RT_IPC_CMD_RESET */
    method Reset(v: nat)
      requires Valid()
      modifies this, list, list.head, threads`next, threads`prev, threads`failed
      ensures Valid() && View() == M.Reset(old(View()), v)
    {
      list.FailAll();
      value := v % M.LIMIT;
      assert Failed(threads) == old(Failed(threads)) + set w | w in old(list.waiters);
    }
  }
}
