/** The waiting lists of kernel objects: the order threads wait in, and the list operations of `ipc.c` that keep it. */
module WaitQueue {
  import opened RtList

  datatype Flag = Fifo | Prio    // RT_IPC_FLAG_FIFO, RT_IPC_FLAG_PRIO

  /** The first place whose thread is strictly less urgent than `p`, or the end. */
  function Slot<T(==)>(ws: seq<T>, prio: map<T, nat>, p: nat): (k: nat)
    requires forall w :: w in ws ==> w in prio
    ensures k <= |ws|
    ensures forall i :: 0 <= i < k ==> prio[ws[i]] <= p
    ensures k < |ws| ==> p < prio[ws[k]]
  {
    if ws == [] || p < prio[ws[0]] then 0 else 1 + Slot(ws[1..], prio, p)
  }

  function Place<T(==)>(ws: seq<T>, prio: map<T, nat>, p: nat, flag: Flag): (k: nat)
    requires flag == Prio ==> forall w :: w in ws ==> w in prio
    ensures k <= |ws|
  {
    if flag == Fifo then |ws| else Slot(ws, prio, p)
  }

  function Enqueue<T(==)>(ws: seq<T>, prio: map<T, nat>, t: T, flag: Flag): seq<T>
    requires t in prio && forall w :: w in ws ==> w in prio
  {
    InsertAt(ws, Place(ws, prio, prio[t], flag), t)
  }

  lemma EnqueueMembers<T>(ws: seq<T>, prio: map<T, nat>, t: T, flag: Flag)
    requires t in prio && forall w :: w in ws ==> w in prio
    ensures forall w :: w in Enqueue(ws, prio, t, flag) ==> w in ws || w == t
  {
  }

  function Without<T(==)>(ws: seq<T>, t: T): seq<T>
    requires t in ws
  {
    RemoveAt(ws, IndexOf(ws, t))
  }

  function IndexOf<T(==)>(ws: seq<T>, t: T): (k: nat)
    requires t in ws
    ensures k < |ws| && ws[k] == t
  {
    if ws[0] == t then 0 else 1 + IndexOf(ws[1..], t)
  }

  /** Whether `a` is to be woken before `b`: more urgent, or as urgent and waiting for longer. */
  predicate Before<T(==)>(prio: map<T, nat>, since: map<T, nat>, flag: Flag, a: T, b: T)
    requires a in prio && b in prio && a in since && b in since
  {
    (flag == Prio && prio[a] < prio[b]) || ((flag == Fifo || prio[a] == prio[b]) && since[a] < since[b])
  }

  /** The waiting list is in waking order. `since` holds the time each thread began to wait. */
  ghost predicate Ordered<T>(ws: seq<T>, prio: map<T, nat>, since: map<T, nat>, flag: Flag) {
    && (forall w :: w in ws ==> w in prio && w in since)
    && (forall i, j :: 0 <= i < j < |ws| ==> Before(prio, since, flag, ws[i], ws[j]))
  }

  lemma EnqueuePair<T>(ws: seq<T>, prio: map<T, nat>, since: map<T, nat>, flag: Flag, t: T, now: nat, k: nat, i: nat, j: nat)
    requires Ordered(ws, prio, since, flag) && t in prio && t !in ws && k == Place(ws, prio, prio[t], flag)
    requires (forall w :: w in ws ==> since[w] < now) && i < j <= |ws|
    ensures var (r, later) := (InsertAt(ws, k, t), since[t := now]);
            && r[i] in prio && r[j] in prio && r[i] in later && r[j] in later && Before(prio, later, flag, r[i], r[j])
  {
    if j == k {
      assert ws[i] in ws;
    } else if i == k {
      assert ws[j - 1] in ws;
      if k < j - 1 { assert Before(prio, since, flag, ws[k], ws[j - 1]); }
    } else {
      var (a, b) := (if i < k then i else i - 1, if j < k then j else j - 1);
      assert ws[a] in ws && ws[b] in ws && Before(prio, since, flag, ws[a], ws[b]);
    }
  }

  /** A thread that begins to wait now goes behind its equals: the order is kept. */
  lemma EnqueueOrdered<T>(ws: seq<T>, prio: map<T, nat>, since: map<T, nat>, flag: Flag, t: T, now: nat)
    requires Ordered(ws, prio, since, flag) && t in prio && t !in ws
    requires forall w :: w in ws ==> since[w] < now
    ensures Ordered(Enqueue(ws, prio, t, flag), prio, since[t := now], flag)
  {
    var k := Place(ws, prio, prio[t], flag);
    var (r, later) := (InsertAt(ws, k, t), since[t := now]);
    EnqueueMembers(ws, prio, t, flag);
    forall i, j | 0 <= i < j < |r| ensures Before(prio, later, flag, r[i], r[j]) {
      EnqueuePair(ws, prio, since, flag, t, now, k, i, j);
    }
  }

  lemma RemoveOrdered<T>(ws: seq<T>, prio: map<T, nat>, since: map<T, nat>, flag: Flag, k: nat)
    requires Ordered(ws, prio, since, flag) && k < |ws|
    ensures Ordered(RemoveAt(ws, k), prio, since, flag)
  {
    var r := RemoveAt(ws, k);
    forall i, j | 0 <= i < j < |r| ensures Before(prio, since, flag, r[i], r[j]) {
      var (a, b) := (if i < k then i else i + 1, if j < k then j else j + 1);
      assert r[i] == ws[a] && r[j] == ws[b];
    }
  }

  /** Waiting times of other threads do not matter. */
  lemma OrderedLater<T>(ws: seq<T>, prio: map<T, nat>, since: map<T, nat>, flag: Flag, t: T, now: nat)
    requires Ordered(ws, prio, since, flag) && t !in ws
    ensures Ordered(ws, prio, since[t := now], flag)
  {
    forall i, j | 0 <= i < j < |ws| ensures Before(prio, since[t := now], flag, ws[i], ws[j]) {
      assert ws[i] in ws && ws[j] in ws && Before(prio, since, flag, ws[i], ws[j]);
    }
  }

  lemma FirstLeaves<T>(ws: seq<T>, prio: map<T, nat>, since: map<T, nat>, flag: Flag)
    requires Ordered(ws, prio, since, flag) && ws != []
    ensures Ordered(ws[1..], prio, since, flag)
  {
    assert RemoveAt(ws, 0) == ws[1..];
    RemoveOrdered(ws, prio, since, flag, 0);
  }

  lemma FirstMembers<T>(ws: seq<T>)
    requires Distinct(ws) && ws != []
    ensures Distinct(ws[1..]) && (forall w :: w in ws[1..] <==> w in ws && w != ws[0])
  {
    assert RemoveAt(ws, 0) == ws[1..];
    RemoveMembers(ws, 0);
  }

  lemma RemoveMembers<T>(ws: seq<T>, k: nat)
    requires Distinct(ws) && k < |ws|
    ensures Distinct(RemoveAt(ws, k)) && (forall w :: w in RemoveAt(ws, k) <==> w in ws && w != ws[k])
  {
    var r := RemoveAt(ws, k);
    forall w | w in ws && w != ws[k] ensures w in r {
      var i :| 0 <= i < |ws| && ws[i] == w;
      assert r[if i < k then i else i - 1] == w;
    }
  }

  lemma InsertMembers<T>(ws: seq<T>, k: nat, t: T)
    requires Distinct(ws) && k <= |ws| && t !in ws
    ensures Distinct(InsertAt(ws, k, t)) && (forall w :: w in InsertAt(ws, k, t) <==> w in ws || w == t)
  {
    var r := InsertAt(ws, k, t);
    forall w | w in ws ensures w in r {
      var i :| 0 <= i < |ws| && ws[i] == w;
      assert r[if i < k then i else i + 1] == w;
    }
    assert r[k] == t;
  }

  // ---------------------------------------------------------------- the list operations

  ghost function Priorities(threads: set<Link>): map<Link, nat>
    reads threads`priority
  {
    map t | t in threads :: t.priority
  }

  /** The ring of a list: its head, then the waiting threads in waking order. */
  ghost function RingOf(head: Link, ws: seq<Link>): seq<Link> { [head] + ws }

  /** The search of `rt_ipc_list_suspend` for the first thread less urgent than `p`; the head if there is none. */
  method FindSlot(head: Link, p: nat, ghost ws: seq<Link>, ghost prio: map<Link, nat>) returns (n: Link, ghost i: nat)
    requires Ring(RingOf(head, ws)) && (forall w :: w in ws ==> w in prio && prio[w] == w.priority)
    ensures i == Slot(ws, prio, p) && n == Succ(RingOf(head, ws), i)
  {
    ghost var r := RingOf(head, ws);
    n, i := head.next, 0;
    assert LinkedAt(r, 0);
    while n != head && !(p < n.priority)
      invariant i <= |ws| && n == Succ(r, i)
      invariant forall j :: 0 <= j < i ==> prio[ws[j]] <= p
      decreases |ws| - i
    {
      assert LinkedAt(r, i + 1);
      n := n.next;
      i := i + 1;
    }
  }

  /** Links `t` before `n`, the link at place `i` of the list or the head. */
  method LinkBefore(head: Link, n: Link, t: Link, ghost ws: seq<Link>, ghost i: nat)
    requires Ring(RingOf(head, ws)) && t !in RingOf(head, ws) && i <= |ws| && n == Succ(RingOf(head, ws), i)
    modifies head`next, head`prev, ws`next, ws`prev, t`next, t`prev
    ensures Ring(RingOf(head, InsertAt(ws, i, t)))
  {
    ghost var r := RingOf(head, ws);
    InsertBefore(n, t, r, if i < |ws| then i + 1 else 0);
    assert InsertAt(r, i + 1, t) == RingOf(head, InsertAt(ws, i, t));
  }

  /** `rt_ipc_list_suspend`, after the thread itself is suspended */
  method Suspend(head: Link, t: Link, flag: Flag, ghost ws: seq<Link>, ghost threads: set<Link>)
    requires Ring(RingOf(head, ws)) && t !in RingOf(head, ws) && t in threads && (forall w :: w in ws ==> w in threads)
    modifies head`next, head`prev, ws`next, ws`prev, t`next, t`prev
    ensures Ring(RingOf(head, Enqueue(ws, Priorities(threads), t, flag)))
  {
    ghost var prio := Priorities(threads);
    match flag {
      case Fifo => LinkBefore(head, head, t, ws, |ws|);
      case Prio =>
        var n, i := FindSlot(head, t.priority, ws, prio);
        LinkBefore(head, n, t, ws, i);
    }
  }

  /** `rt_ipc_list_resume`: the first thread leaves the list (`rt_thread_resume` unlinks it). */
  method Resume(head: Link, ghost ws: seq<Link>) returns (t: Link)
    requires Ring(RingOf(head, ws)) && ws != []
    modifies head`next, head`prev, ws`next, ws`prev
    ensures t == ws[0] && Ring(RingOf(head, ws[1..])) && Ring([t])
  {
    ghost var r := RingOf(head, ws);
    assert LinkedAt(r, 0);
    t := head.next;
    Remove(t, r, 1);
    assert RemoveAt(r, 1) == RingOf(head, ws[1..]);
  }

  /** `rt_thread_timeout` and `rt_thread_resume` unlink a waiting thread wherever it is. */
  method Unlink(head: Link, t: Link, ghost ws: seq<Link>, ghost k: nat)
    requires Ring(RingOf(head, ws)) && k < |ws| && t == ws[k]
    modifies head`next, head`prev, ws`next, ws`prev
    ensures Ring(RingOf(head, RemoveAt(ws, k))) && Ring([t])
  {
    ghost var r := RingOf(head, ws);
    Remove(t, r, k + 1);
    assert RemoveAt(r, k + 1) == RingOf(head, RemoveAt(ws, k));
  }

  /** `rt_ipc_list_resume_all`: every waiting thread leaves with its error set. */
  method ResumeAll(head: Link, ghost ws: seq<Link>)
    requires Ring(RingOf(head, ws))
    modifies head`next, head`prev, ws`next, ws`prev, ws`failed
    ensures Ring(RingOf(head, [])) && forall w :: w in ws ==> w.failed
  {
    ghost var rest := ws;
    ghost var done := 0;
    assert LinkedAt(RingOf(head, ws), 0);
    while head.next != head
      invariant done <= |ws| && rest == ws[done..] && Ring(RingOf(head, rest))
      invariant forall i :: 0 <= i < done ==> ws[i].failed
      decreases |ws| - done
    {
      assert LinkedAt(RingOf(head, rest), 0);
      head.next.failed := true;
      var t := Resume(head, rest);
      rest, done := rest[1..], done + 1;
    }
    assert LinkedAt(RingOf(head, rest), 0);
    assert rest == [];
  }

  /** The threads whose error is set. */
  ghost function Failed(threads: set<Link>): set<Link>
    reads threads`failed
  {
    set t | t in threads && t.failed
  }

  method SetFailed(t: Link, b: bool, ghost threads: set<Link>)
    requires t in threads
    modifies threads`failed
    ensures Failed(threads) == if b then old(Failed(threads)) + {t} else old(Failed(threads)) - {t}
  {
    t.failed := b;
  }

  /** One waiting list in place, for threads from a given set. */
  class WaitList {
    const head: Link
    const flag: Flag
    ghost var waiters: seq<Link>
    ghost const threads: set<Link>

    ghost predicate Valid()
      reads this, head`next, head`prev, waiters`next, waiters`prev
    {
      && head !in threads && (forall i :: 0 <= i < |waiters| ==> waiters[i] in threads)
      && Ring(RingOf(head, waiters))
    }

    /** `rt_ipc_object_init` */
    constructor (f: Flag, ghost ts: set<Link>)
      ensures Valid() && flag == f && threads == ts && waiters == [] && fresh(head)
    {
      var l := new Link(0);
      head, flag, threads, waiters := l, f, ts, [];
      new;
      assert RingOf(head, waiters) == [head];
    }

    method Empty() returns (b: bool)
      requires Valid()
      ensures b <==> waiters == []
    {
      b := IsEmpty(head, RingOf(head, waiters));
    }

    method Join(t: Link)
      requires Valid() && t in threads && t !in waiters
      modifies this, head`next, head`prev, waiters`next, waiters`prev, t`next, t`prev
      ensures Valid() && waiters == Enqueue(old(waiters), Priorities(threads), t, flag)
      ensures forall w :: w in waiters ==> w in old(waiters) || w == t
    {
      ghost var ws, prio := waiters, Priorities(threads);
      EnqueueMembers(ws, prio, t, flag);
      Suspend(head, t, flag, ws, threads);
      assert Priorities(threads) == prio;
      waiters := Enqueue(ws, prio, t, flag);
    }

    method WakeFirst() returns (t: Link)
      requires Valid() && waiters != []
      modifies this, head`next, head`prev, waiters`next, waiters`prev
      ensures Valid() && t == old(waiters[0]) && waiters == old(waiters)[1..]
      ensures forall w :: w in waiters ==> w in old(waiters)
    {
      t := Resume(head, waiters);
      waiters := waiters[1..];
    }

    method FailAll()
      requires Valid()
      modifies this, head`next, head`prev, waiters`next, waiters`prev, waiters`failed
      ensures Valid() && waiters == [] && forall w :: w in old(waiters) ==> w.failed
    {
      ResumeAll(head, waiters);
      waiters := [];
    }

    method Leave(t: Link, ghost k: nat)
      requires Valid() && k < |waiters| && t == waiters[k]
      modifies this, head`next, head`prev, waiters`next, waiters`prev
      ensures Valid() && waiters == RemoveAt(old(waiters), k)
      ensures forall w :: w in waiters ==> w in old(waiters)
    {
      Unlink(head, t, waiters, k);
      waiters := RemoveAt(waiters, k);
    }
  }
}
