/** The mutex object, updated in place. */
module Mutexes {
  import opened Common
  import opened RtList
  import opened WaitQueue
  import M = MutexModel

  class MutexObject {
    const list: WaitList
    var value: nat
    var owner: Link?
    var hold: nat
    var originalPriority: nat
    ghost const threads: set<Link>

    /** Every thread that waits is on the ring behind the head, and an unavailable mutex has an owner to inherit. */
    ghost predicate Valid()
      reads this, list, list.head, list.waiters
    {
      && hold < 0x100 && list.Valid() && list.threads == threads
      && (owner != null ==> owner in threads) && (value == if owner == null then 1 else 0)
    }

    ghost function Owner(): Option<Link>
      reads this`owner
    {
      if owner == null then None else Some(owner)
    }

    ghost function View(): M.Mutex<Link>
      reads this, list, threads`priority, threads`failed
    {
      M.Mutex(value, Owner(), hold, originalPriority, list.waiters, Priorities(threads), Failed(threads))
    }

    /** `rt_mutex_init` */
    constructor (f: Flag, ghost ts: set<Link>)
      ensures Valid() && list.flag == f && threads == ts && fresh(list)
      ensures View() == M.Init(Priorities(ts)).(failed := Failed(ts))
    {
      list := new WaitList(f, ts);
      threads := ts;
      value, owner, hold, originalPriority := 1, null, 0, M.NO_PRIORITY;
    }

    method SetPriority(t: Link, p: nat)
      requires t in threads
      modifies threads`priority
      ensures Priorities(threads) == old(Priorities(threads))[t := p]
    {
      t.priority := p;
    }

    /** The owner inherits the waiting thread's priority (`rt_thread_control` sets the field). */
    method Boost(t: Link)
      requires Valid() && t in threads && owner != null
      modifies threads`priority
      ensures Valid() && Priorities(threads) == M.Boosted(old(Priorities(threads)), owner, t)
    {
      if t.priority < owner.priority {
        SetPriority(owner, t.priority);
      }
    }

    /** The owner inherits, and the thread joins the list. */
    method Wait(t: Link)
      requires Valid() && t in threads && t !in list.waiters && owner != null
      modifies list, list.head, threads`priority, threads`next, threads`prev
      ensures Valid() && Priorities(threads) == M.Boosted(old(Priorities(threads)), owner, t)
      ensures list.waiters == Enqueue(old(list.waiters), M.Boosted(old(Priorities(threads)), owner, t), t, list.flag)
    {
      Boost(t);
      list.Join(t);
    }

    method TakeFree(t: Link)
      requires Valid() && t in threads && value > 0
      modifies this`value, this`owner, this`originalPriority, this`hold
      ensures Valid()
      ensures View() == old(View()).(value := old(value) - 1, owner := Some(t), orig := t.priority, hold := (old(hold) + 1) % 0x100)
    {
      value := value - 1;
      owner, originalPriority := t, t.priority;
      hold := (hold + 1) % 0x100;
    }

    /** `rt_mutex_take` up to the point where the thread runs on or waits */
    method Take(t: Link, wait: bool) returns (r: M.Outcome)
      requires Valid() && t in threads && t !in list.waiters
      modifies this, list, list.head, threads
      ensures Valid() && (View(), r) == M.Take(old(View()), list.flag, t, wait)
    {
      SetFailed(t, false, threads);
      if owner == t {
        hold := (hold + 1) % 0x100;
        return M.Granted;
      }
      if value > 0 {
        TakeFree(t);
        return M.Granted;
      }
      if !wait {
        SetFailed(t, true, threads);
        assert Failed(threads) == old(Failed(threads)) + {t};
        return M.Refused;
      }
      Wait(t);
      return M.Waiting;
    }

    method HandOver()
      requires Valid() && list.waiters != [] && owner != null
      modifies this`owner, this`originalPriority, this`hold, list, list.head, threads`next, threads`prev
      ensures Valid() && list.waiters == old(list.waiters)[1..]
      ensures owner == old(list.waiters[0]) && originalPriority == owner.priority && hold == 1
    {
      var w := list.WakeFirst();
      owner, originalPriority, hold := w, w.priority, 1;
    }

    method Vacate()
      requires Valid() && owner != null && hold == 0
      modifies this`value, this`owner, this`originalPriority
      ensures Valid() && View() == old(View()).(value := 1, owner := None, orig := M.NO_PRIORITY)
    {
      value := (value + 1) % 0x10000;
      owner, originalPriority := null, M.NO_PRIORITY;
    }

    /** The part of `rt_mutex_release` for a hold count that came to 0 */
    method LastRelease(t: Link)
      requires Valid() && owner == t && hold == 0
      modifies this, list, list.head, threads`priority, threads`next, threads`prev
      ensures Valid() && View() == M.Release(old(View()).(hold := 1), t).0
    {
      if originalPriority != t.priority {
        SetPriority(t, originalPriority);
      }
      assert Priorities(threads) == old(Priorities(threads))[t := originalPriority];
      var empty := list.Empty();
      if !empty {
        HandOver();
      } else {
        Vacate();
      }
    }

    /** `rt_mutex_release` */
    method Release(t: Link) returns (r: M.Outcome)
      requires Valid() && t in threads
      modifies this, list, list.head, threads
      ensures Valid() && (View(), r) == M.Release(old(View()), t)
    {
      if t != owner {
        SetFailed(t, true, threads);
        return M.Refused;
      }
      hold := (hold + 0xFF) % 0x100;
      if hold == 0 {
        LastRelease(t);
      }
      return M.Granted;
    }

    /** `rt_thread_timeout` of a thread that waits for this mutex */
    method Expire(t: Link)
      requires Valid() && t in list.waiters
      modifies this, list, list.head, threads`next, threads`prev, threads`failed
      ensures Valid() && View() == M.Expire(old(View()), t)
    {
      SetFailed(t, true, threads);
      list.Leave(t, IndexOf(list.waiters, t));
    }
  }
}
