/** The event object, updated in place. */
module Events {
  import opened RtList
  import opened WaitQueue
  import M = EventModel

  class EventObject {
    const list: WaitList
    var bits: M.Mask
    ghost const threads: set<Link>

    ghost predicate Valid()
      reads this, list, list.head, list.waiters
    {
      list.Valid() && list.threads == threads
    }

    ghost function WantOf(t: Link): M.Want
      reads t`eventSet, t`eventInfo
    {
      M.Want(t.eventSet, t.eventInfo.all, t.eventInfo.any, t.eventInfo.clear)
    }

    ghost function Wants(): map<Link, M.Want>
      reads threads`eventSet, threads`eventInfo
    {
      map t | t in threads :: WantOf(t)
    }

    ghost function View(): M.Event<Link>
      reads this, list, threads
    {
      M.Event(bits, list.waiters, Wants(), Failed(threads))
    }

    /** `rt_event_init` */
    constructor (f: Flag, ghost ts: set<Link>)
      ensures Valid() && list.flag == f && threads == ts && fresh(list) && bits == {} && list.waiters == []
    {
      list := new WaitList(f, ts);
      bits, threads := {}, ts;
    }

    method Fill(t: Link, w: M.Want)
      requires t in threads
      modifies threads`eventSet, threads`eventInfo
      ensures Wants() == old(Wants())[t := w]
    {
      t.eventSet, t.eventInfo := w.bits, EventInfo(w.all, w.any, w.clear);
    }

    method Block(t: Link, w: M.Want)
      requires Valid() && t in threads && t !in list.waiters
      modifies list, list.head, threads`next, threads`prev, threads`eventSet, threads`eventInfo
      ensures Valid() && Wants() == old(Wants())[t := w]
      ensures list.waiters == Enqueue(old(list.waiters), Priorities(threads), t, list.flag)
    {
      Fill(t, w);
      list.Join(t);
    }

    /** `rt_event_recv` up to the point where the thread runs on or waits; asking for neither all nor any is an error of the caller. */
    method Receive(t: Link, w: M.Want, wait: bool) returns (r: M.Outcome)
      requires Valid() && t in threads && t !in list.waiters && (w.all || w.any)
      modifies this, list, list.head, threads
      ensures Valid() && (View(), r) == M.Receive(old(View()), Priorities(threads), list.flag, t, w, wait)
    {
      if w.bits == {} {
        return M.Refused;
      }
      SetFailed(t, false, threads);
      var ok := false;
      if w.all {
        ok := bits * w.bits == w.bits;
      } else if w.any {
        ok := bits * w.bits != {};
      }
      assert ok <==> M.Satisfied(bits, w);
      if ok {
        r := M.Received(bits * w.bits);
        if w.clear {
          bits := bits - w.bits;
        }
      } else if !wait {
        SetFailed(t, true, threads);
        assert Failed(threads) == old(Failed(threads)) + {t};
        r := M.TimedOut;
      } else {
        Block(t, w);
        r := M.Waiting;
      }
    }

    /** The part of the walk of `rt_event_send` that looks at one thread: is it satisfied, and what does it take? */
    method TryWake(t: Link) returns (ok: bool)
      requires Valid() && t in threads
      modifies this`bits, threads`eventSet
      ensures Valid() && ok == M.Satisfied(old(bits), old(WantOf(t)))
      ensures !ok ==> bits == old(bits) && Wants() == old(Wants())
      ensures ok ==> bits == M.Cleared(old(bits), old(WantOf(t)))
      ensures ok ==> Wants() == old(Wants())[t := old(WantOf(t)).(bits := M.Stored(old(bits), old(WantOf(t))))]
    {
      ok := false;
      if t.eventInfo.all {
        ok := t.eventSet * bits == t.eventSet;
      } else if t.eventInfo.any {
        if t.eventSet * bits != {} {
          t.eventSet := t.eventSet * bits;
          ok := true;
        }
      }
      if ok && t.eventInfo.clear {
        bits := bits - t.eventSet;
      }
    }

    /** One round of the walk at place `k` of the list: the thread there leaves it if it is satisfied. */
    method Visit(n: Link, ghost k: nat) returns (next: Link, ok: bool)
      requires Valid() && k < |list.waiters| && n == list.waiters[k]
      modifies this`bits, list, list.head, threads`next, threads`prev, threads`eventSet
      ensures Valid() && ok == M.Satisfied(old(bits), old(WantOf(n))) && next == Succ(RingOf(list.head, old(list.waiters)), k + 1)
      ensures !ok ==> bits == old(bits) && Wants() == old(Wants()) && list.waiters == old(list.waiters)
      ensures ok ==> bits == M.Cleared(old(bits), old(WantOf(n))) && list.waiters == RemoveAt(old(list.waiters), k)
      ensures ok ==> Wants() == old(Wants())[n := old(WantOf(n)).(bits := M.Stored(old(bits), old(WantOf(n))))]
    {
      ok := TryWake(n);
      assert LinkedAt(RingOf(list.head, list.waiters), k + 1);
      next := n.next;
      if ok {
        list.Leave(n, k);
      }
    }

    /** The walk of `rt_event_send` over the whole list */
    method WalkList()
      requires Valid()
      modifies this`bits, list, list.head, threads`next, threads`prev, threads`eventSet
      ensures Valid() && M.Walked(bits, list.waiters, Wants()) == M.Walk(old(bits), old(list.waiters), old(Wants()))
    {
      ghost var walk := M.Walk(bits, list.waiters, Wants());
      ghost var k, rest := 0, list.waiters;
      assert LinkedAt(RingOf(list.head, list.waiters), 0);
      var n := list.head.next;
      while n != list.head
        invariant Valid() && k <= |list.waiters| && rest == list.waiters[k..] && n == Succ(RingOf(list.head, list.waiters), k)
        invariant forall w :: w in rest ==> w in Wants()
        invariant M.Remaining(walk, bits, list.waiters[..k], rest, Wants())
        decreases |rest|
      {
        ghost var kept := list.waiters[..k];
        assert n == rest[0] == list.waiters[k];
        M.RemainingStep(walk, bits, kept, rest, Wants());
        var next, woken := Visit(n, k);
        n := next;
        rest := rest[1..];
        if woken {
          assert list.waiters[..k] == kept;
        } else {
          assert list.waiters[..k + 1] == kept + [list.waiters[k]];
          k := k + 1;
        }
      }
      assert list.waiters[..k] == list.waiters && rest == [];
    }

    /** `rt_event_send` */
    method Send(set32: M.Mask) returns (ok: bool)
      requires Valid()
      modifies this, list, list.head, threads`next, threads`prev, threads`eventSet
      ensures Valid() && (View(), ok) == M.Send(old(View()), set32)
    {
      if set32 == {} {
        return false;
      }
      bits := bits + set32;
      WalkList();
      return true;
    }

    /** `rt_thread_timeout` of a thread that waits for this event */
    method Expire(t: Link)
      requires Valid() && t in list.waiters
      modifies this, list, list.head, threads`next, threads`prev, threads`failed
      ensures Valid() && View() == M.Expire(old(View()), t)
    {
      SetFailed(t, true, threads);
      list.Leave(t, IndexOf(list.waiters, t));
    }

    /** `rt_event_control` with RT_IPC_CMD_RESET */
    method Reset()
      requires Valid()
      modifies this, list, list.head, threads`next, threads`prev, threads`failed
      ensures Valid() && View() == M.Reset(old(View()))
    {
      list.FailAll();
      bits := {};
      assert Failed(threads) == old(Failed(threads)) + set w | w in old(list.waiters);
    }

    /** The last section of a blocked `rt_event_recv`: the flags are those stored on waking. */
    method Finish(t: Link) returns (flags: M.Mask)
      requires t in threads
      ensures flags == View().want[t].bits
    {
      flags := t.eventSet;
    }
  }
}
