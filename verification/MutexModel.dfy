/** Recursive mutexes with priority inheritance (`rt_mutex_take`, `rt_mutex_release`): one step for each interrupt-disabled section. */
module MutexModel {
  import opened Common
  import opened RtList
  import opened WaitQueue

  const NO_PRIORITY := 0xFF

  /** `cur` are the current priorities of all threads; `failed` those whose error is set. `hold` is an 8-bit counter. */
  datatype Mutex<T> = Mutex(value: nat, owner: Option<T>, hold: nat, orig: nat, waiters: seq<T>, cur: map<T, nat>, failed: set<T>)

  datatype Outcome = Granted | Refused | Waiting

  function Init<T>(base: map<T, nat>): Mutex<T> { Mutex(1, None, 0, NO_PRIORITY, [], base, {}) }

  /** The threads of the mutex are known, and an unavailable mutex has an owner. */
  ghost predicate Typed<T>(m: Mutex<T>) {
    && (forall w :: w in m.waiters ==> w in m.cur)
    && (m.owner.Some? ==> m.owner.value in m.cur)
    && (m.value == 0 ==> m.owner.Some?)
  }

  /** Waiting lends the owner the priority of `t` if that is more urgent. */
  function Boosted<T(==)>(cur: map<T, nat>, owner: T, t: T): map<T, nat>
    requires owner in cur && t in cur
  {
    if cur[t] < cur[owner] then cur[owner := cur[t]] else cur
  }

  function Take<T(==)>(m: Mutex<T>, flag: Flag, t: T, wait: bool): (Mutex<T>, Outcome)
    requires Typed(m) && t in m.cur
  {
    if m.owner == Some(t) then (m.(hold := (m.hold + 1) % 0x100, failed := m.failed - {t}), Granted)
    else if m.value > 0 then
      (m.(value := m.value - 1, owner := Some(t), orig := m.cur[t], hold := (m.hold + 1) % 0x100, failed := m.failed - {t}), Granted)
    else if !wait then (m.(failed := m.failed + {t}), Refused)
    else
      var cur := Boosted(m.cur, m.owner.value, t);
      (m.(cur := cur, waiters := Enqueue(m.waiters, cur, t, flag), failed := m.failed - {t}), Waiting)
  }

  function Release<T(==)>(m: Mutex<T>, t: T): (Mutex<T>, Outcome)
    requires Typed(m)
  {
    if m.owner != Some(t) then (m.(failed := m.failed + {t}), Refused)
    else
      var hold := (m.hold + 0xFF) % 0x100;
      if hold != 0 then (m.(hold := hold), Granted)
      else
        var cur := m.cur[t := m.orig];
        if m.waiters != [] then
          var w := m.waiters[0];
          (m.(owner := Some(w), orig := cur[w], hold := 1, waiters := m.waiters[1..], cur := cur), Granted)
        else
          (m.(value := (m.value + 1) % 0x10000, owner := None, orig := NO_PRIORITY, hold := 0, cur := cur), Granted)
  }

  function Expire<T(==)>(m: Mutex<T>, t: T): Mutex<T>
    requires t in m.waiters
  {
    m.(waiters := Without(m.waiters, t), failed := m.failed + {t})
  }

  // ---------------------------------------------------------------- runs

  datatype Op<T> = TakeOp(t: T, wait: bool) | ReleaseOp(t: T) | ExpireOp(t: T)

  datatype State<T> = State(m: Mutex<T>, now: nat, since: map<T, nat>)

  /** A thread that waits does not run; only a waiting thread's timer fires. */
  ghost predicate Enabled<T>(st: State<T>, op: Op<T>) {
    && Typed(st.m)
    && match op
       case TakeOp(t, _) => t in st.m.cur && t !in st.m.waiters
       case ReleaseOp(t) => t in st.m.cur && t !in st.m.waiters
       case ExpireOp(t) => t in st.m.waiters
  }

  function Step<T(==)>(st: State<T>, flag: Flag, op: Op<T>): State<T>
    requires Enabled(st, op)
  {
    match op
    case TakeOp(t, wait) => State(Take(st.m, flag, t, wait).0, st.now + 1, st.since[t := st.now])
    case ReleaseOp(t) => st.(m := Release(st.m, t).0)
    case ExpireOp(t) => st.(m := Expire(st.m, t))
  }

  /** One take too many by the owner: the 8-bit hold count goes round to 0. */
  predicate Overflows<T(==)>(m: Mutex<T>, op: Op<T>) { op.TakeOp? && m.owner == Some(op.t) && m.hold == 0xFF }

  /** Value, owner and hold count agree; the owner holds its base priority for later, and all others are at theirs. */
  ghost predicate Owned<T>(m: Mutex<T>, base: map<T, nat>) {
    && m.cur.Keys == base.Keys && m.hold < 0x100
    && (m.value == if m.owner == None then 1 else 0) && (m.owner == None <==> m.hold == 0)
    && (m.owner == None ==> m.waiters == [])
    && (m.owner.Some? ==>
          var o := m.owner.value; o in base && o !in m.waiters && m.orig == base[o] && m.cur[o] <= base[o])
    && (forall t :: t in base && m.owner != Some(t) ==> m.cur[t] == base[t])
  }

  ghost predicate Queued<T>(st: State<T>, flag: Flag) {
    && Distinct(st.m.waiters) && Ordered(st.m.waiters, st.m.cur, st.since, flag)
    && (forall w :: w in st.m.waiters ==> st.since[w] < st.now && w !in st.m.failed)
  }

  /** The owner is at least as urgent as every thread that waits for it. */
  ghost predicate Urgent<T>(m: Mutex<T>)
    requires Typed(m)
  {
    m.owner.Some? ==> forall w :: w in m.waiters ==> m.cur[m.owner.value] <= m.cur[w]
  }

  ghost predicate Inv<T>(st: State<T>, base: map<T, nat>, flag: Flag) {
    Typed(st.m) && Owned(st.m, base) && Queued(st, flag)
  }

  // ---------------------------------------------------------------- one step

  lemma OrderedSame<T>(ws: seq<T>, p: map<T, nat>, q: map<T, nat>, since: map<T, nat>, flag: Flag)
    requires Ordered(ws, p, since, flag) && forall w :: w in ws ==> w in q && q[w] == p[w]
    ensures Ordered(ws, q, since, flag)
  {
    forall i, j | 0 <= i < j < |ws| ensures Before(q, since, flag, ws[i], ws[j]) {
      assert ws[i] in ws && ws[j] in ws;
    }
  }

  lemma WaitInv<T>(st: State<T>, base: map<T, nat>, flag: Flag, t: T)
    requires Inv(st, base, flag) && Enabled(st, TakeOp(t, true)) && st.m.owner != Some(t) && st.m.value == 0
    ensures var s := Step(st, flag, TakeOp(t, true));
            && Inv(s, base, flag) && s.m.owner == st.m.owner && s.m.cur == Boosted(st.m.cur, st.m.owner.value, t)
            && (forall w :: w in s.m.waiters <==> w in st.m.waiters || w == t)
  {
    var (ws, o) := (st.m.waiters, st.m.owner.value);
    var cur := Boosted(st.m.cur, o, t);
    OrderedSame(ws, st.m.cur, cur, st.since, flag);
    EnqueueOrdered(ws, cur, st.since, flag, t, st.now);
    InsertMembers(ws, Place(ws, cur, cur[t], flag), t);
  }

  lemma HandOver<T>(st: State<T>, base: map<T, nat>, flag: Flag, t: T)
    requires Inv(st, base, flag) && st.m.owner == Some(t) && st.m.hold == 1 && st.m.waiters != []
    ensures var s := Step(st, flag, ReleaseOp(t));
            && Inv(s, base, flag) && s.m.owner == Some(st.m.waiters[0]) && s.m.cur == base
            && (forall w :: w in s.m.waiters <==> w in st.m.waiters && w != st.m.waiters[0])
  {
    var ws := st.m.waiters;
    var cur := st.m.cur[t := st.m.orig];
    assert cur == base;
    assert ws[0] in ws;
    OrderedSame(ws, st.m.cur, cur, st.since, flag);
    FirstLeaves(ws, cur, st.since, flag);
    FirstMembers(ws);
  }

  lemma ExpireInv<T>(st: State<T>, base: map<T, nat>, flag: Flag, t: T)
    requires Inv(st, base, flag) && t in st.m.waiters
    ensures Inv(Step(st, flag, ExpireOp(t)), base, flag)
    ensures forall w :: w in Expire(st.m, t).waiters ==> w in st.m.waiters
  {
    RemoveOrdered(st.m.waiters, st.m.cur, st.since, flag, IndexOf(st.m.waiters, t));
    RemoveMembers(st.m.waiters, IndexOf(st.m.waiters, t));
  }

  lemma TakeInv<T>(st: State<T>, base: map<T, nat>, flag: Flag, t: T, wait: bool)
    requires Inv(st, base, flag) && Enabled(st, TakeOp(t, wait))
    ensures Inv(Step(st, flag, TakeOp(t, wait)), base, flag) <==> !Overflows(st.m, TakeOp(t, wait))
  {
    if st.m.owner != Some(t) && st.m.value == 0 && wait {
      WaitInv(st, base, flag, t);
    } else {
      QueuedSame(st, flag, TakeOp(t, wait));
    }
  }

  lemma ReleaseInv<T>(st: State<T>, base: map<T, nat>, flag: Flag, t: T)
    requires Inv(st, base, flag) && Enabled(st, ReleaseOp(t))
    ensures Inv(Step(st, flag, ReleaseOp(t)), base, flag)
  {
    if st.m.owner == Some(t) && st.m.hold == 1 && st.m.waiters != [] {
      HandOver(st, base, flag, t);
    }
  }

  /** A step keeps the invariant exactly if it is not the owner's 256th nested take. */
  lemma StepInv<T>(st: State<T>, base: map<T, nat>, flag: Flag, op: Op<T>)
    requires Inv(st, base, flag) && Enabled(st, op)
    ensures Inv(Step(st, flag, op), base, flag) <==> !Overflows(st.m, op)
  {
    match op
    case TakeOp(t, wait) => TakeInv(st, base, flag, t, wait);
    case ReleaseOp(t) => ReleaseInv(st, base, flag, t);
    case ExpireOp(t) => ExpireInv(st, base, flag, t);
  }

  lemma QueuedSame<T>(st: State<T>, flag: Flag, op: Op<T>)
    requires Enabled(st, op) && op.TakeOp? && Queued(st, flag) && Take(st.m, flag, op.t, op.wait).1 != Waiting
    ensures Queued(Step(st, flag, op), flag)
  {
    var s := Step(st, flag, op);
    assert s.m.waiters == st.m.waiters && s.m.cur == st.m.cur;
    forall i, j | 0 <= i < j < |st.m.waiters| ensures Before(s.m.cur, s.since, flag, st.m.waiters[i], st.m.waiters[j]) {
      assert st.m.waiters[i] in st.m.waiters && st.m.waiters[j] in st.m.waiters;
    }
  }

  /** A release that hands the mutex to a thread while a more urgent one waits. */
  ghost predicate Demotes<T>(m: Mutex<T>, op: Op<T>)
    requires Typed(m)
  {
    op.ReleaseOp? && m.owner == Some(op.t) && m.hold == 1 && m.waiters != [] &&
    exists w :: w in m.waiters && m.cur[w] < m.cur[m.waiters[0]]
  }

  lemma ReleaseUrgent<T>(st: State<T>, base: map<T, nat>, flag: Flag, t: T)
    requires Inv(st, base, flag) && Enabled(st, ReleaseOp(t)) && Urgent(st.m)
    ensures Typed(Release(st.m, t).0) && (Urgent(Release(st.m, t).0) <==> !Demotes(st.m, ReleaseOp(t)))
  {
    if st.m.owner == Some(t) && st.m.hold == 1 && st.m.waiters != [] {
      HandOver(st, base, flag, t);
      assert forall w :: w in st.m.waiters ==> st.m.cur[w] == base[w];
    }
  }

  /** A step keeps the owner urgent exactly if it is not such a release. */
  lemma StepUrgent<T>(st: State<T>, base: map<T, nat>, flag: Flag, op: Op<T>)
    requires Inv(st, base, flag) && Enabled(st, op) && Urgent(st.m) && !Overflows(st.m, op)
    ensures Inv(Step(st, flag, op), base, flag)
    ensures Urgent(Step(st, flag, op).m) <==> !Demotes(st.m, op)
  {
    StepInv(st, base, flag, op);
    match op
    case TakeOp(t, wait) => if st.m.owner != Some(t) && st.m.value == 0 && wait { WaitInv(st, base, flag, t); }
    case ReleaseOp(t) => ReleaseUrgent(st, base, flag, t);
    case ExpireOp(t) => ExpireInv(st, base, flag, t);
  }

  /** In priority order no release demotes. */
  lemma PrioNeverDemotes<T>(st: State<T>, op: Op<T>)
    requires Typed(st.m) && Queued(st, Prio)
    ensures !Demotes(st.m, op)
  {
    var (ws, cur) := (st.m.waiters, st.m.cur);
    forall w | w in ws ensures cur[ws[0]] <= cur[w] {
      var j :| 0 <= j < |ws| && ws[j] == w;
      assert j > 0 ==> Before(cur, st.since, Prio, ws[0], ws[j]);
    }
  }

  /** The last release gives the thread back the priority it had when it took the mutex, whatever it inherited meanwhile. */
  lemma ReleaseRestores<T>(st: State<T>, base: map<T, nat>, flag: Flag, t: T)
    requires Inv(st, base, flag) && st.m.owner == Some(t) && st.m.hold == 1
    ensures Release(st.m, t).0.cur == base && Release(st.m, t).0.owner != Some(t)
    ensures Release(st.m, t).0.owner == None <==> st.m.waiters == []
  {
    assert st.m.waiters != [] ==> st.m.waiters[0] in st.m.waiters;
    assert Release(st.m, t).0.cur == base;
  }

  /** How a take ends: it is granted to make `t` the owner or to keep it so, and of all threads only `t` may have its error changed. */
  lemma TakeOutcome<T>(st: State<T>, base: map<T, nat>, flag: Flag, t: T, wait: bool)
    requires Inv(st, base, flag) && Enabled(st, TakeOp(t, wait)) && !Overflows(st.m, TakeOp(t, wait))
    ensures var (m, r) := Take(st.m, flag, t, wait);
            && (r == Granted <==> m.owner == Some(t)) && (r == Granted <==> st.m.owner == None || st.m.owner == Some(t))
            && (r == Waiting <==> t in m.waiters) && (r == Waiting ==> wait) && (r == Refused ==> !wait)
            && (forall x :: x in m.failed <==> if x == t then r == Refused else x in st.m.failed)
  {
    if st.m.owner != Some(t) && st.m.value == 0 && wait { WaitInv(st, base, flag, t); }
  }

  /** Only the owner can release, and to anybody else the call fails and changes nothing but the error. */
  lemma ReleaseOutcome<T>(st: State<T>, base: map<T, nat>, flag: Flag, t: T)
    requires Inv(st, base, flag) && Enabled(st, ReleaseOp(t))
    ensures var (m, r) := Release(st.m, t);
            && (r == Granted <==> st.m.owner == Some(t)) && (r == Granted ==> m.failed == st.m.failed)
            && (r != Granted ==> r == Refused && m == st.m.(failed := m.failed))
            && (r != Granted ==> forall x :: x in m.failed <==> x == t || x in st.m.failed)
  {
  }

  /** A thread leaves the list when the mutex is handed to it, and then without an error, or by a timeout, with one. */
  lemma Leaves<T>(st: State<T>, base: map<T, nat>, flag: Flag, op: Op<T>, w: T)
    requires Inv(st, base, flag) && Enabled(st, op) && w in st.m.waiters
    ensures var m := Step(st, flag, op).m;
            && (w !in m.waiters <==> m.owner == Some(w) || op == ExpireOp(w)) && (w in m.failed <==> op == ExpireOp(w))
            && (m.owner == Some(w) <==> op.ReleaseOp? && st.m.owner == Some(op.t) && st.m.hold == 1 && w == st.m.waiters[0])
  {
    match op
    case TakeOp(t, wait) => if st.m.owner != Some(t) && st.m.value == 0 && wait { WaitInv(st, base, flag, t); }
    case ReleaseOp(t) => if st.m.owner == Some(t) && st.m.hold == 1 { HandOver(st, base, flag, t); }
    case ExpireOp(t) => RemoveMembers(st.m.waiters, IndexOf(st.m.waiters, t));
  }

  // ---------------------------------------------------------------- whole runs

  ghost predicate RunOk<T>(st: State<T>, flag: Flag, ops: seq<Op<T>>)
    decreases ops
  {
    ops == [] || (Enabled(st, ops[0]) && RunOk(Step(st, flag, ops[0]), flag, ops[1..]))
  }

  ghost function Last<T>(st: State<T>, flag: Flag, ops: seq<Op<T>>): State<T>
    requires RunOk(st, flag, ops)
    decreases ops
  {
    if ops == [] then st else Last(Step(st, flag, ops[0]), flag, ops[1..])
  }

  ghost predicate Shallow<T>(st: State<T>, flag: Flag, ops: seq<Op<T>>)
    requires RunOk(st, flag, ops)
    decreases ops
  {
    ops == [] || (!Overflows(st.m, ops[0]) && Shallow(Step(st, flag, ops[0]), flag, ops[1..]))
  }

  /** The invariant in every state of the run. */
  ghost predicate AllInv<T>(st: State<T>, base: map<T, nat>, flag: Flag, ops: seq<Op<T>>)
    requires RunOk(st, flag, ops)
    decreases ops
  {
    Inv(st, base, flag) && (ops == [] || AllInv(Step(st, flag, ops[0]), base, flag, ops[1..]))
  }

  /** The invariant and an urgent owner in every state of the run. */
  ghost predicate AllUrgent<T>(st: State<T>, base: map<T, nat>, flag: Flag, ops: seq<Op<T>>)
    requires RunOk(st, flag, ops)
    decreases ops
  {
    Inv(st, base, flag) && Urgent(st.m) && (ops == [] || AllUrgent(Step(st, flag, ops[0]), base, flag, ops[1..]))
  }

  /** A run keeps the invariant throughout exactly if no owner nests 256 takes. */
  lemma {:induction false} RunInv<T>(st: State<T>, base: map<T, nat>, flag: Flag, ops: seq<Op<T>>)
    requires RunOk(st, flag, ops) && Inv(st, base, flag)
    ensures AllInv(st, base, flag, ops) <==> Shallow(st, flag, ops)
    decreases ops
  {
    if ops != [] {
      StepInv(st, base, flag, ops[0]);
      if !Overflows(st.m, ops[0]) {
        RunInv(Step(st, flag, ops[0]), base, flag, ops[1..]);
      }
    }
  }

  lemma {:induction false} RunUrgent<T>(st: State<T>, base: map<T, nat>, ops: seq<Op<T>>)
    requires RunOk(st, Prio, ops) && Inv(st, base, Prio) && Urgent(st.m) && Shallow(st, Prio, ops)
    ensures AllUrgent(st, base, Prio, ops)
    decreases ops
  {
    if ops != [] {
      PrioNeverDemotes(st, ops[0]);
      StepUrgent(st, base, Prio, ops[0]);
      RunUrgent(Step(st, Prio, ops[0]), base, ops[1..]);
    }
  }

  function Fresh<T>(base: map<T, nat>): State<T> { State(Init(base), 0, map[]) }

  /** Every state of every run of a mutex created with RT_IPC_FLAG_PRIO. */
  lemma PrioMutexSafe<T>(base: map<T, nat>, ops: seq<Op<T>>)
    requires RunOk(Fresh(base), Prio, ops)
    ensures AllUrgent(Fresh(base), base, Prio, ops) <==> Shallow(Fresh(base), Prio, ops)
  {
    RunInv(Fresh(base), base, Prio, ops);
    if Shallow(Fresh(base), Prio, ops) {
      RunUrgent(Fresh(base), base, ops);
    } else if AllUrgent(Fresh(base), base, Prio, ops) {
      UrgentInv(Fresh(base), base, ops);
    }
  }

  // ---------------------------------------------------------------- takes and releases are counted

  /** What a step adds to the takes that `t` has been granted and has not released; a thread woken has been granted its take. */
  function Credit<T(==)>(st: State<T>, flag: Flag, op: Op<T>, t: T): int
    requires Enabled(st, op)
  {
    match op
    case TakeOp(x, wait) => if x == t && Take(st.m, flag, x, wait).1 == Granted then 1 else 0
    case ReleaseOp(x) =>
      (if x == t && Release(st.m, x).1 == Granted then -1 else 0) + Woken(st.m.waiters, Release(st.m, x).0.waiters, t)
    case ExpireOp(_) => 0
  }

  function Woken<T(==)>(was: seq<T>, now: seq<T>, t: T): int { if t in was && t !in now then 1 else 0 }

  ghost function Balance<T>(st: State<T>, flag: Flag, ops: seq<Op<T>>, t: T): int
    requires RunOk(st, flag, ops)
    decreases ops
  {
    if ops == [] then 0 else Credit(st, flag, ops[0], t) + Balance(Step(st, flag, ops[0]), flag, ops[1..], t)
  }

  /** How often `t` has to release the mutex to be rid of it. */
  function Depth<T(==)>(m: Mutex<T>, t: T): nat { if m.owner == Some(t) then m.hold else 0 }

  lemma StepCounts<T>(st: State<T>, base: map<T, nat>, flag: Flag, op: Op<T>, t: T)
    requires Inv(st, base, flag) && Enabled(st, op) && !Overflows(st.m, op)
    ensures Depth(Step(st, flag, op).m, t) == Depth(st.m, t) + Credit(st, flag, op, t)
  {
    match op
    case TakeOp(x, wait) =>
    case ReleaseOp(x) =>
      if st.m.owner == Some(x) && st.m.hold == 1 && st.m.waiters != [] {
        HandOver(st, base, flag, x);
        assert st.m.waiters[0] in st.m.waiters;
      }
    case ExpireOp(_) =>
  }

  lemma {:induction false} RunCounts<T>(st: State<T>, base: map<T, nat>, flag: Flag, ops: seq<Op<T>>, t: T)
    requires RunOk(st, flag, ops) && Inv(st, base, flag) && Shallow(st, flag, ops)
    ensures Inv(Last(st, flag, ops), base, flag)
    ensures Depth(Last(st, flag, ops).m, t) == Depth(st.m, t) + Balance(st, flag, ops, t)
    decreases ops
  {
    if ops != [] {
      StepInv(st, base, flag, ops[0]);
      StepCounts(st, base, flag, ops[0], t);
      RunCounts(Step(st, flag, ops[0]), base, flag, ops[1..], t);
    }
  }

  /**
   * The law of the mutex, for every run from its creation in which no owner nests 256 takes: a thread owns it exactly if
   * it has been granted more takes than it has released, and the hold count is by how many.
   */
  lemma MutexCounts<T>(base: map<T, nat>, flag: Flag, ops: seq<Op<T>>, t: T)
    requires RunOk(Fresh(base), flag, ops) && Shallow(Fresh(base), flag, ops)
    ensures var m := Last(Fresh(base), flag, ops).m;
            && 0 <= Balance(Fresh(base), flag, ops, t)
            && (m.owner == Some(t) <==> Balance(Fresh(base), flag, ops, t) > 0)
            && (m.owner == Some(t) ==> m.hold == Balance(Fresh(base), flag, ops, t))
  {
    RunCounts(Fresh(base), base, flag, ops, t);
  }

  /** A release of a nested take changes nothing but the hold count, which is one less. */
  lemma NestedRelease<T>(st: State<T>, base: map<T, nat>, flag: Flag, t: T)
    requires Inv(st, base, flag) && st.m.owner == Some(t) && st.m.hold > 1
    ensures Release(st.m, t) == (st.m.(hold := st.m.hold - 1), Granted)
  {
  }

  /** `n` takes by `t`, then `k` releases. */
  function InAndOut<T>(t: T, n: nat, k: nat): seq<Op<T>> { seq(n, _ => TakeOp(t, false)) + seq(k, _ => ReleaseOp(t)) }

  lemma InAndOutTail<T>(t: T, n: nat, k: nat)
    requires n + k > 0
    ensures InAndOut(t, n, k)[0] == (if n > 0 then TakeOp(t, false) else ReleaseOp(t))
    ensures InAndOut(t, n, k)[1..] == if n > 0 then InAndOut(t, n - 1, k) else InAndOut(t, 0, k - 1)
  {
  }

  lemma {:induction false} OutFrom<T>(st: State<T>, base: map<T, nat>, flag: Flag, t: T, k: nat)
    requires Inv(st, base, flag) && t in base && st.m.waiters == [] && (st.m.owner == None || st.m.owner == Some(t))
    ensures RunOk(st, flag, InAndOut(t, 0, k)) && (Last(st, flag, InAndOut(t, 0, k)).m.owner == Some(t) <==> k < st.m.hold)
    decreases k
  {
    if k > 0 {
      InAndOutTail(t, 0, k);
      var s := Step(st, flag, ReleaseOp(t));
      ReleaseInv(st, base, flag, t);
      if st.m.hold > 1 { NestedRelease(st, base, flag, t); }
      OutFrom(s, base, flag, t, k - 1);
    } else {
      assert InAndOut(t, 0, k) == [];
    }
  }

  lemma {:induction false} InAndOutFrom<T>(st: State<T>, base: map<T, nat>, flag: Flag, t: T, n: nat, k: nat)
    requires Inv(st, base, flag) && t in base && st.m.waiters == [] && (st.m.owner == None || st.m.owner == Some(t))
    requires st.m.hold + n <= 0xFF
    ensures RunOk(st, flag, InAndOut(t, n, k))
    ensures Last(st, flag, InAndOut(t, n, k)).m.owner == Some(t) <==> k < st.m.hold + n
    decreases n
  {
    if n > 0 {
      InAndOutTail(t, n, k);
      TakeInv(st, base, flag, t, false);
      InAndOutFrom(Step(st, flag, TakeOp(t, false)), base, flag, t, n - 1, k);
    } else {
      OutFrom(st, base, flag, t, k);
    }
  }

  /** After `n` nested takes and `k` releases a thread owns the mutex exactly if `k < n`. */
  lemma OwnsUntilReleased<T>(base: map<T, nat>, flag: Flag, t: T, n: nat, k: nat)
    requires t in base && n <= 0xFF
    ensures RunOk(Fresh(base), flag, InAndOut(t, n, k))
    ensures Last(Fresh(base), flag, InAndOut(t, n, k)).m.owner == Some(t) <==> k < n
  {
    InAndOutFrom(Fresh(base), base, flag, t, n, k);
  }

  // ---------------------------------------------------------------- one take too many

  /** `n` takes by thread 0. */
  function Nested(n: nat): seq<Op<int>> { seq(n, _ => TakeOp(0, false)) }

  const ALONE: map<int, nat> := map[0 := 10]

  /** Thread 0 has taken the mutex `hold` times. */
  function Held(hold: nat, now: nat, since: map<int, nat>): State<int> {
    State(Mutex(0, Some(0), hold, 10, [], ALONE, {}), now, since)
  }

  lemma TakeAgain(hold: nat, now: nat, since: map<int, nat>)
    requires hold <= 0xFF
    ensures var (s, op) := (Held(hold, now, since), TakeOp(0, false));
            && Enabled(s, op) && (Overflows(s.m, op) <==> hold == 0xFF)
            && Step(s, Prio, op) == Held((hold + 1) % 0x100, now + 1, since[0 := now])
  {
  }

  lemma {:induction false} NestedFrom(hold: nat, now: nat, since: map<int, nat>, n: nat)
    requires hold <= 0xFF && hold + n <= 0x100
    ensures var s := Held(hold, now, since); RunOk(s, Prio, Nested(n)) && (Shallow(s, Prio, Nested(n)) <==> hold + n <= 0xFF)
    decreases n
  {
    if n > 0 {
      TakeAgain(hold, now, since);
      assert Nested(n)[1..] == Nested(n - 1) && Nested(n)[0] == TakeOp(0, false);
      if hold < 0xFF { NestedFrom(hold + 1, now + 1, since[0 := now], n - 1); } else { assert Nested(n - 1) == []; }
    }
  }

  /** 255 nested takes by one thread are counted; the next one leaves an owner with hold count 0. */
  lemma HoldOverflows(n: nat)
    requires n <= 0x100
    ensures RunOk(Fresh(ALONE), Prio, Nested(n))
    ensures Shallow(Fresh(ALONE), Prio, Nested(n)) <==> n <= 0xFF
    ensures AllUrgent(Fresh(ALONE), ALONE, Prio, Nested(n)) <==> n <= 0xFF
  {
    if n > 0 {
      var op := TakeOp(0, false);
      assert Nested(n)[1..] == Nested(n - 1) && Nested(n)[0] == op;
      assert Step(Fresh(ALONE), Prio, op) == Held(1, 1, map[0 := 0]);
      NestedFrom(1, 1, map[0 := 0], n - 1);
    }
    PrioMutexSafe(ALONE, Nested(n));
  }

  /** The priorities of the run below: thread 0 runs at 10, thread 1 at 9, thread 2 at 5. */
  const BASE: map<int, nat> := map[0 := 10, 1 := 9, 2 := 5]

  /** Thread 0 holds the mutex at priority 5; threads 1 and 2 wait in this order. */
  const INHERITED: Mutex<int> := Mutex(0, Some(0), 1, 10, [1, 2], BASE[0 := 5], {})

  lemma FifoMutexQueues()
    ensures var ops := [TakeOp(0, true), TakeOp(1, true), TakeOp(2, true)];
            RunOk(Fresh(BASE), Fifo, ops) && Shallow(Fresh(BASE), Fifo, ops) && Last(Fresh(BASE), Fifo, ops).m == INHERITED
  {
    var s1 := Step(Fresh(BASE), Fifo, TakeOp(0, true));
    assert s1.m == Mutex(0, Some(0), 1, 10, [], BASE, {});
    var s2 := Step(s1, Fifo, TakeOp(1, true));
    assert s2.m == Mutex(0, Some(0), 1, 10, [1], BASE[0 := 9], {});
    var s3 := Step(s2, Fifo, TakeOp(2, true));
    assert s3.m == INHERITED;
  }

  /** In arrival order the claim fails: after the release thread 2 waits at priority 5 for thread 1, which runs at 9. */
  lemma FifoMutexInverts(st: State<int>)
    requires st.m == INHERITED
    ensures Urgent(st.m) && Enabled(st, ReleaseOp(0)) && Demotes(st.m, ReleaseOp(0)) && !Urgent(Step(st, Fifo, ReleaseOp(0)).m)
  {
    assert 2 in st.m.waiters;
    var m := Step(st, Fifo, ReleaseOp(0)).m;
    assert m.waiters == [2] && 2 in m.waiters && m.owner == Some(1);
  }

  lemma {:induction false} UrgentInv<T>(st: State<T>, base: map<T, nat>, ops: seq<Op<T>>)
    requires RunOk(st, Prio, ops) && AllUrgent(st, base, Prio, ops)
    ensures AllInv(st, base, Prio, ops)
    decreases ops
  {
    if ops != [] { UrgentInv(Step(st, Prio, ops[0]), base, ops[1..]); }
  }
}
