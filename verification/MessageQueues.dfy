/** The message queue object, updated in place: a pool of nodes and two waiting lists. */
module MessageQueues {
  import opened Common
  import opened RtList
  import opened WaitQueue
  import opened MessagePools
  import M = MqModel

  /** Who wrote a message, and what. */
  datatype Written = Written(sender: Link, buffer: Message)

  /**
   * Everything queued, and everything in the nodes `filled`, is what some sender's copying left in a node: `log` has for
   * each such body the sender and its buffer, with which the body begins.
   */
  ghost predicate Traced(log: map<Message, Written>, contents: seq<Message>, filled: set<nat>, data: seq<Message>) {
    && (forall i :: 0 <= i < |contents| ==> contents[i] in log)
    && (forall m :: m in filled ==> m < |data| && data[m] in log)
    && (forall b :: b in log ==> log[b].buffer <= b)
  }

  lemma TracedJoin(log: map<Message, Written>, contents: seq<Message>, filled: set<nat>, data: seq<Message>, msg: nat, urgent: bool)
    requires Traced(log, contents, filled, data) && msg in filled
    ensures Traced(log, M.Joined(contents, data[msg], urgent), filled - {msg}, data)
  {
  }

  lemma TracedLess(log: map<Message, Written>, contents: seq<Message>, filled: set<nat>, data: seq<Message>, msg: nat)
    requires Traced(log, contents, filled, data)
    ensures Traced(log, contents, filled - {msg}, data)
  {
  }

  lemma TracedPop(log: map<Message, Written>, contents: seq<Message>, rest: seq<Message>, filled: set<nat>, data: seq<Message>, msg: nat)
    requires Traced(log, contents, filled, data) && msg < |data| && contents == [data[msg]] + rest
    ensures Traced(log, rest, filled + {msg}, data)
  {
    assert contents[0] == data[msg];
    forall i | 0 <= i < |rest| ensures rest[i] in log { assert rest[i] == contents[i + 1]; }
  }

  lemma TracedFill(log: map<Message, Written>, contents: seq<Message>, filled: set<nat>, data: seq<Message>, after: seq<Message>,
                   msg: nat, w: Written, keys: set<nat>)
    requires Traced(log, contents, filled, data) && msg < |data| == |after| && w.buffer <= after[msg]
    requires filled <= keys && SameAt(keys - {msg}, data, after)
    ensures Traced(log[after[msg] := w], contents, filled + {msg}, after)
  {
  }

  /** The nodes in the hands of threads, but for `msg`, are in the same hands with the same links and bodies. */
  ghost predicate Untouched(h: map<nat, Link>, g: map<nat, Link>, f: set<nat>, e: set<nat>, n: seq<int>, o: seq<int>,
                            d: seq<Message>, c: seq<Message>, msg: int)
  {
    && (forall m :: m in h && m != msg ==> m in g && g[m] == h[m] && (m in e <==> m in f))
    && SameAt(h.Keys - {msg}, n, o) && SameAt(h.Keys - {msg}, d, c)
  }

  /** A thread takes up the node `msg`. */
  lemma TakenUp(h: map<nat, Link>, g: map<nat, Link>, f: set<nat>, e: set<nat>, n: seq<int>, d: seq<Message>, msg: nat, t: Link)
    requires g == h[msg := t] && msg !in h && f <= h.Keys && (e == f || e == f + {msg}) && SameAt(h.Keys, n, n) && SameAt(h.Keys, d, d)
    ensures e <= g.Keys && Untouched(h, g, f, e, n, n, d, d, NULL)
  {
  }

  /** A thread gives the node `msg` away. */
  lemma GivenAway(h: map<nat, Link>, g: map<nat, Link>, f: set<nat>, e: set<nat>, n: seq<int>, o: seq<int>, d: seq<Message>, msg: nat)
    requires g == h - {msg} && f <= h.Keys && e == f - {msg} && SameAt(g.Keys, n, o) && SameAt(g.Keys, d, d)
    ensures e <= g.Keys && Untouched(h, g, f, e, n, o, d, d, msg)
  {
  }

  lemma OneWritten(h: map<nat, Link>, f: set<nat>, e: set<nat>, n: seq<int>, o: seq<int>, d: seq<Message>, c: seq<Message>, msg: nat)
    requires e == f + {msg} && SameAt(h.Keys - {msg}, n, o) && SameAt(h.Keys - {msg}, d, c)
    ensures Untouched(h, h, f, e, n, o, d, c, msg)
  {
  }

  lemma NothingTaken(h: map<nat, Link>, f: set<nat>, n: seq<int>, o: seq<int>, d: seq<Message>)
    requires SameAt(h.Keys, n, o) && SameAt(h.Keys, d, d)
    ensures Untouched(h, h, f, f, n, o, d, d, NULL)
  {
  }

  lemma NoneShared(ws: seq<Link>, vs: seq<Link>, others: seq<Link>, t: Link)
    requires (forall i :: 0 <= i < |ws| ==> ws[i] !in others) && t !in others && (forall w :: w in vs ==> w in ws || w == t)
    ensures forall i :: 0 <= i < |vs| ==> vs[i] !in others
  {
    forall i | 0 <= i < |vs| ensures vs[i] !in others { assert vs[i] in vs; }
  }

  class MessageQueue {
    const pool: MessagePool
    const receivers: WaitList
    const senders: WaitList
    ghost var sending: set<Link>
    ghost var receiving: set<Link>
    ghost var rWoken: set<Link>
    ghost var sWoken: set<Link>
    ghost var holder: map<nat, Link>         // whose hands each node in flight is in
    ghost var filled: set<nat>               // the nodes in flight that a sender has written
    ghost var log: map<Message, Written>     // what senders have written
    ghost const threads: set<Link>

    ghost predicate Lists()
      reads receivers, receivers.head, receivers.waiters, senders, senders.head, senders.waiters
    {
      && receivers.Valid() && senders.Valid() && receivers != senders && receivers.head != senders.head
      && receivers.threads == threads && senders.threads == threads && receivers.flag == senders.flag
      && forall i :: 0 <= i < |receivers.waiters| ==> receivers.waiters[i] !in senders.waiters
    }

    /** The nodes in flight are those in some thread's hands. */
    ghost predicate Holds()
      reads this`holder, pool`flight
    {
      holder.Keys == pool.flight
    }

    ghost predicate Ready()
      reads this`holder, pool
      reads receivers, receivers.head, receivers.waiters, senders, senders.head, senders.waiters
    {
      pool.Valid() && Lists() && Holds()
    }

    /** Every message and every written node can be traced to a sender. */
    ghost predicate Told()
      reads this`holder, this`filled, this`log, pool`contents, pool`data
    {
      filled <= holder.Keys && Traced(log, pool.contents, filled, pool.data)
    }

    ghost predicate Valid()
      reads this`holder, this`filled, this`log, pool
      reads receivers, receivers.head, receivers.waiters, senders, senders.head, senders.waiters
    {
      Ready() && Told()
    }

    ghost function View(): M.Mq<Link>
      reads this`sending, this`receiving, this`rWoken, this`sWoken
      reads pool`contents, pool`freeList, receivers`waiters, senders`waiters
    {
      M.Mq(pool.contents, |pool.freeList|, sending, receiving, receivers.waiters, senders.waiters, rWoken, sWoken)
    }

    twostate predicate Steady(msg: int)
      reads this, pool
    {
      Untouched(old(holder), holder, old(filled), filled, old(pool.next), pool.next, old(pool.data), pool.data, msg)
    }

    /** `rt_mq_init` for a pool of `msgs` nodes of `size` bytes each */
    constructor (msgs: nat, size: nat, fill: Message, f: Flag, ghost ts: set<Link>)
      requires |fill| == size
      ensures Valid() && View() == M.Init(msgs) && threads == ts && receivers.flag == f && pool.msgSize == size && log == map[]
    {
      var p := new MessagePool(msgs, size, fill);
      var r := new WaitList(f, ts);
      var s := new WaitList(f, ts);
      pool, receivers, senders, threads := p, r, s, ts;
      sending, receiving, rWoken, sWoken, holder, filled, log := {}, {}, {}, {}, map[], {}, map[];
    }

    /** A free node goes to `t`, if there is one. */
    method GrabNode(t: Link) returns (msg: int)
      requires pool.Valid() && Holds()
      modifies this`sending, this`holder, pool
      ensures pool.Valid() && Holds() && pool.contents == old(pool.contents) && pool.next == old(pool.next) && pool.data == old(pool.data)
      ensures SameAt(old(holder).Keys, pool.next, pool.next) && SameAt(old(holder).Keys, pool.data, pool.data)
      ensures msg == NULL <==> old(|pool.freeList|) == 0
      ensures msg == NULL ==> |pool.freeList| == 0 && sending == old(sending) && holder == old(holder)
      ensures msg != NULL ==>
                && 0 <= msg && msg !in old(holder) && |pool.freeList| == old(|pool.freeList|) - 1
                && sending == old(sending) + {t} && holder == old(holder)[msg := t]
    {
      msg := pool.Grab();
      if msg != NULL {
        sending, holder := sending + {t}, holder[msg := t];
      }
    }

    method PopNode(t: Link) returns (msg: nat)
      requires pool.Valid() && Holds() && pool.entry > 0
      modifies this`receiving, this`holder, this`filled, pool
      ensures pool.Valid() && Holds() && receiving == old(receiving) + {t} && holder == old(holder)[msg := t] && msg !in old(holder)
      ensures filled == old(filled) + {msg}
      ensures pool.next == old(pool.next) && pool.data == old(pool.data) && msg < |pool.data|
      ensures SameAt(old(holder).Keys, pool.next, pool.next) && SameAt(old(holder).Keys, pool.data, pool.data)
      ensures old(pool.contents) == [pool.data[msg]] + pool.contents && |pool.freeList| == old(|pool.freeList|)
    {
      msg := pool.Pop();
      receiving, holder, filled := receiving + {t}, holder[msg := t], filled + {msg};
    }

    method AppendNode(t: Link, msg: nat)
      requires pool.Valid() && Holds() && t in sending && msg in holder && holder[msg] == t && pool.next[msg] == NULL
      modifies this`sending, this`holder, this`filled, pool
      ensures pool.Valid() && Holds() && sending == old(sending) - {t} && |pool.freeList| == old(|pool.freeList|)
      ensures pool.data == old(pool.data) && pool.contents == M.Joined(old(pool.contents), pool.data[msg], false)
      ensures holder == old(holder) - {msg} && filled == old(filled) - {msg}
      ensures SameAt(holder.Keys, old(pool.next), pool.next) && SameAt(holder.Keys, pool.data, pool.data)
    {
      pool.Append(msg);
      sending, holder, filled := sending - {t}, holder - {msg}, filled - {msg};
    }

    method PrependNode(t: Link, msg: nat)
      requires pool.Valid() && Holds() && t in sending && msg in holder && holder[msg] == t
      modifies this`sending, this`holder, this`filled, pool
      ensures pool.Valid() && Holds() && sending == old(sending) - {t} && |pool.freeList| == old(|pool.freeList|)
      ensures pool.data == old(pool.data) && pool.contents == M.Joined(old(pool.contents), pool.data[msg], true)
      ensures holder == old(holder) - {msg} && filled == old(filled) - {msg}
      ensures SameAt(holder.Keys, old(pool.next), pool.next) && SameAt(holder.Keys, pool.data, pool.data)
    {
      pool.Prepend(msg);
      sending, holder, filled := sending - {t}, holder - {msg}, filled - {msg};
    }

    method PutBackNode(t: Link, msg: nat)
      requires pool.Valid() && Holds() && t in receiving && msg in holder && holder[msg] == t
      modifies this`receiving, this`holder, this`filled, pool
      ensures pool.Valid() && Holds() && receiving == old(receiving) - {t} && pool.data == old(pool.data)
      ensures |pool.freeList| == old(|pool.freeList|) + 1 && pool.contents == old(pool.contents)
      ensures holder == old(holder) - {msg} && filled == old(filled) - {msg}
      ensures SameAt(holder.Keys, old(pool.next), pool.next) && SameAt(holder.Keys, pool.data, pool.data)
    {
      pool.PutBack(msg);
      receiving, holder, filled := receiving - {t}, holder - {msg}, filled - {msg};
    }

    method WakeReceiver()
      requires Lists()
      modifies this`rWoken, receivers, receivers.head`next, receivers.head`prev, receivers.waiters`next, receivers.waiters`prev
      ensures Lists() && receivers.waiters == M.Behind(old(receivers.waiters))
      ensures rWoken == old(rWoken) + M.First(old(receivers.waiters))
    {
      rWoken := rWoken + M.First(receivers.waiters);
      ghost var ring := RingOf(senders.head, senders.waiters);
      assert forall i :: 0 <= i < |ring| ==> ring[i] != receivers.head && ring[i] !in receivers.waiters;
      var empty := receivers.Empty();
      if !empty {
        var _ := receivers.WakeFirst();
        RingKept(ring);
      }
    }

    method WakeSender()
      requires Lists()
      modifies this`sWoken, senders, senders.head`next, senders.head`prev, senders.waiters`next, senders.waiters`prev
      ensures Lists() && senders.waiters == M.Behind(old(senders.waiters))
      ensures sWoken == old(sWoken) + M.First(old(senders.waiters))
    {
      sWoken := sWoken + M.First(senders.waiters);
      ghost var ring := RingOf(receivers.head, receivers.waiters);
      assert forall i :: 0 <= i < |ring| ==> ring[i] != senders.head && ring[i] !in senders.waiters;
      var empty := senders.Empty();
      if !empty {
        var _ := senders.WakeFirst();
        RingKept(ring);
      }
    }

    method JoinSenders(t: Link)
      requires Lists() && t in threads && t !in receivers.waiters && t !in senders.waiters
      modifies senders, senders.head`next, senders.head`prev, senders.waiters`next, senders.waiters`prev, t`next, t`prev, t`failed
      ensures Lists() && senders.waiters == Enqueue(old(senders.waiters), Priorities(threads), t, senders.flag)
    {
      ghost var ring := RingOf(receivers.head, receivers.waiters);
      assert forall i :: 0 <= i < |ring| ==> ring[i] != senders.head && ring[i] !in senders.waiters && ring[i] != t;
      t.failed := false;
      senders.Join(t);
      RingKept(ring);
    }

    method JoinReceivers(t: Link)
      requires Lists() && t in threads && t !in receivers.waiters && t !in senders.waiters
      modifies receivers, receivers.head`next, receivers.head`prev, receivers.waiters`next, receivers.waiters`prev, t`next, t`prev, t`failed
      ensures Lists() && receivers.waiters == Enqueue(old(receivers.waiters), Priorities(threads), t, receivers.flag)
    {
      ghost var ring := RingOf(senders.head, senders.waiters);
      assert forall i :: 0 <= i < |ring| ==> ring[i] != receivers.head && ring[i] !in receivers.waiters && ring[i] != t;
      ghost var ws := receivers.waiters;
      t.failed := false;
      receivers.Join(t);
      NoneShared(ws, receivers.waiters, senders.waiters, t);
      RingKept(ring);
    }

    /** The loop head of `rt_mq_send_wait`: a free node, or nothing, or a place among the waiting senders */
    method SendTry(t: Link, wait: bool) returns (r: M.Outcome, msg: int)
      requires Valid() && t in threads && t !in receivers.waiters && t !in senders.waiters
      modifies this`sending, this`holder, this`sWoken, pool, senders, senders.head, threads`next, threads`prev, threads`failed
      ensures Valid() && (View(), r) == M.SendTry(old(View()), Priorities(threads), senders.flag, t, wait)
      ensures r == M.Holding ==> 0 <= msg && msg !in old(holder) && msg in holder && holder[msg] == t
      ensures Steady(NULL)
    {
      r, msg := GrabOrWait(t, wait);
      if r == M.Holding {
        TakenUp(old(holder), holder, filled, filled, pool.next, pool.data, msg, t);
      } else {
        NothingTaken(holder, filled, pool.next, pool.next, pool.data);
      }
    }

    method GrabOrWait(t: Link, wait: bool) returns (r: M.Outcome, msg: int)
      requires Ready() && t in threads && t !in receivers.waiters && t !in senders.waiters
      modifies this`sending, this`holder, this`sWoken, pool, senders, senders.head, threads`next, threads`prev, threads`failed
      ensures Ready() && pool.contents == old(pool.contents) && pool.next == old(pool.next) && pool.data == old(pool.data)
      ensures SameAt(old(holder).Keys, pool.next, pool.next) && SameAt(old(holder).Keys, pool.data, pool.data)
      ensures r == (if old(|pool.freeList|) > 0 then M.Holding else if wait then M.Waiting else M.Failed) && sWoken == old(sWoken) - {t}
      ensures r == M.Holding ==> |pool.freeList| == old(|pool.freeList|) - 1 && sending == old(sending) + {t}
      ensures r != M.Holding ==> |pool.freeList| == old(|pool.freeList|) && sending == old(sending) && holder == old(holder)
      ensures r == M.Waiting ==> senders.waiters == Enqueue(old(senders.waiters), Priorities(threads), t, senders.flag)
      ensures r != M.Waiting ==> senders.waiters == old(senders.waiters)
      ensures r == M.Holding ==> 0 <= msg && msg !in old(holder) && holder == old(holder)[msg := t]
    {
      sWoken := sWoken - {t};
      msg := GrabNode(t);
      if msg != NULL {
        return M.Holding, msg;
      }
      if !wait {
        return M.Failed, NULL;
      }
      JoinSenders(t);
      return M.Waiting, NULL;
    }

    /** The last section of `rt_mq_send_wait`, which has ended the node's link before */
    method SendCommit(t: Link, msg: nat)
      requires Valid() && t in sending && msg in filled && holder[msg] == t && pool.next[msg] == NULL
      modifies this`sending, this`holder, this`filled, this`rWoken, pool, receivers, receivers.head, threads`next, threads`prev
      ensures Valid() && View() == M.Commit(old(View()), t, old(pool.data[msg]), false)
      ensures Steady(msg) && filled == old(filled) - {msg}
    {
      TracedJoin(log, pool.contents, filled, pool.data, msg, false);
      AppendAndWake(t, msg);
      GivenAway(old(holder), holder, old(filled), filled, old(pool.next), pool.next, pool.data, msg);
    }

    method AppendAndWake(t: Link, msg: nat)
      requires Ready() && t in sending && msg in holder && holder[msg] == t && pool.next[msg] == NULL
      modifies this`sending, this`holder, this`filled, this`rWoken, pool, receivers, receivers.head, threads`next, threads`prev
      ensures Ready() && |pool.freeList| == old(|pool.freeList|) && sending == old(sending) - {t}
      ensures receivers.waiters == M.Behind(old(receivers.waiters)) && rWoken == old(rWoken) + M.First(old(receivers.waiters))
      ensures pool.contents == M.Joined(old(pool.contents), old(pool.data[msg]), false) && pool.data == old(pool.data)
      ensures holder == old(holder) - {msg} && filled == old(filled) - {msg}
      ensures SameAt(holder.Keys, old(pool.next), pool.next) && SameAt(holder.Keys, pool.data, pool.data)
    {
      AppendNode(t, msg);
      WakeReceiver();
    }

    /** The last section of `rt_mq_urgent` */
    method UrgentCommit(t: Link, msg: nat)
      requires Valid() && t in sending && msg in filled && holder[msg] == t
      modifies this`sending, this`holder, this`filled, this`rWoken, pool, receivers, receivers.head, threads`next, threads`prev
      ensures Valid() && View() == M.Commit(old(View()), t, old(pool.data[msg]), true)
      ensures Steady(msg) && filled == old(filled) - {msg}
    {
      TracedJoin(log, pool.contents, filled, pool.data, msg, true);
      PrependAndWake(t, msg);
      GivenAway(old(holder), holder, old(filled), filled, old(pool.next), pool.next, pool.data, msg);
    }

    method PrependAndWake(t: Link, msg: nat)
      requires Ready() && t in sending && msg in holder && holder[msg] == t
      modifies this`sending, this`holder, this`filled, this`rWoken, pool, receivers, receivers.head, threads`next, threads`prev
      ensures Ready() && |pool.freeList| == old(|pool.freeList|) && sending == old(sending) - {t}
      ensures receivers.waiters == M.Behind(old(receivers.waiters)) && rWoken == old(rWoken) + M.First(old(receivers.waiters))
      ensures pool.contents == M.Joined(old(pool.contents), old(pool.data[msg]), true) && pool.data == old(pool.data)
      ensures holder == old(holder) - {msg} && filled == old(filled) - {msg}
      ensures SameAt(holder.Keys, old(pool.next), pool.next) && SameAt(holder.Keys, pool.data, pool.data)
    {
      PrependNode(t, msg);
      WakeReceiver();
    }

    /** The loop head of `rt_mq_recv` */
    method RecvTry(t: Link, wait: bool) returns (r: M.Outcome, msg: int)
      requires Valid() && t in threads && t !in receivers.waiters && t !in senders.waiters
      modifies this`receiving, this`holder, this`filled, this`rWoken, pool, receivers, receivers.head, threads`next, threads`prev, threads`failed
      ensures Valid() && (View(), r) == M.RecvTry(old(View()), Priorities(threads), receivers.flag, t, wait)
      ensures r == M.Holding ==> 0 <= msg && msg !in old(holder) && msg in filled && holder[msg] == t && pool.data[msg] == old(pool.contents)[0]
      ensures Steady(NULL)
    {
      r, msg := PopOrWait(t, wait);
      if r == M.Holding {
        TracedPop(log, old(pool.contents), pool.contents, old(filled), pool.data, msg);
        TakenUp(old(holder), holder, old(filled), filled, pool.next, pool.data, msg, t);
      } else {
        NothingTaken(holder, filled, pool.next, pool.next, pool.data);
      }
    }

    method PopOrWait(t: Link, wait: bool) returns (r: M.Outcome, msg: int)
      requires Ready() && t in threads && t !in receivers.waiters && t !in senders.waiters
      modifies this`receiving, this`holder, this`filled, this`rWoken, pool, receivers, receivers.head, threads`next, threads`prev, threads`failed
      ensures Ready() && |pool.freeList| == old(|pool.freeList|) && pool.next == old(pool.next) && pool.data == old(pool.data)
      ensures SameAt(old(holder).Keys, pool.next, pool.next) && SameAt(old(holder).Keys, pool.data, pool.data)
      ensures r == (if old(pool.contents) != [] then M.Holding else if wait then M.Waiting else M.Failed) && rWoken == old(rWoken) - {t}
      ensures r == M.Holding ==> 0 <= msg < |pool.data| && msg !in old(holder) && holder == old(holder)[msg := t] && filled == old(filled) + {msg}
      ensures r == M.Holding ==> old(pool.contents) == [pool.data[msg]] + pool.contents && receiving == old(receiving) + {t}
      ensures r != M.Holding ==>
                pool.contents == old(pool.contents) && receiving == old(receiving) && holder == old(holder) && filled == old(filled)
      ensures r == M.Waiting ==> receivers.waiters == Enqueue(old(receivers.waiters), Priorities(threads), t, receivers.flag)
      ensures r != M.Waiting ==> receivers.waiters == old(receivers.waiters)
    {
      rWoken := rWoken - {t};
      if pool.entry > 0 {
        msg := PopNode(t);
        return M.Holding, msg;
      }
      if !wait {
        return M.Failed, NULL;
      }
      JoinReceivers(t);
      return M.Waiting, NULL;
    }

    /** The last section of `rt_mq_recv` */
    method GiveBack(t: Link, msg: nat)
      requires Valid() && t in receiving && msg in holder && holder[msg] == t
      modifies this`receiving, this`holder, this`filled, this`sWoken, pool, senders, senders.head, threads`next, threads`prev
      ensures Valid() && View() == M.GiveBack(old(View()), t)
      ensures Steady(msg) && filled == old(filled) - {msg}
    {
      TracedLess(log, pool.contents, filled, pool.data, msg);
      ReturnAndWake(t, msg);
      GivenAway(old(holder), holder, old(filled), filled, old(pool.next), pool.next, pool.data, msg);
    }

    method ReturnAndWake(t: Link, msg: nat)
      requires Ready() && t in receiving && msg in holder && holder[msg] == t
      modifies this`receiving, this`holder, this`filled, this`sWoken, pool, senders, senders.head, threads`next, threads`prev
      ensures Ready() && pool.contents == old(pool.contents) && pool.data == old(pool.data)
      ensures |pool.freeList| == old(|pool.freeList|) + 1 && receiving == old(receiving) - {t}
      ensures senders.waiters == M.Behind(old(senders.waiters)) && sWoken == old(sWoken) + M.First(old(senders.waiters))
      ensures holder == old(holder) - {msg} && filled == old(filled) - {msg}
      ensures SameAt(holder.Keys, old(pool.next), pool.next) && SameAt(holder.Keys, pool.data, pool.data)
    {
      PutBackNode(t, msg);
      WakeSender();
    }

    /** `rt_thread_timeout` of a suspended receiver */
    method ExpireReceiver(t: Link)
      requires Valid() && t in receivers.waiters
      modifies receivers, receivers.head, threads`next, threads`prev, threads`failed
      ensures Valid() && View() == M.Expire(old(View()), t) && t.failed
    {
      LeaveReceivers(t);
    }

    method LeaveReceivers(t: Link)
      requires Lists() && t in receivers.waiters
      modifies receivers, receivers.head`next, receivers.head`prev, receivers.waiters`next, receivers.waiters`prev, t`failed
      ensures Lists() && receivers.waiters == Without(old(receivers.waiters), t) && t.failed
    {
      t.failed := true;
      ghost var ring := RingOf(senders.head, senders.waiters);
      assert forall i :: 0 <= i < |ring| ==> ring[i] != receivers.head && ring[i] !in receivers.waiters;
      receivers.Leave(t, IndexOf(receivers.waiters, t));
      RingKept(ring);
    }

    /** `rt_thread_timeout` of a suspended sender */
    method ExpireSender(t: Link)
      requires Valid() && t in senders.waiters
      modifies senders, senders.head, threads`next, threads`prev, threads`failed
      ensures Valid() && View() == M.Expire(old(View()), t) && t.failed
    {
      LeaveSenders(t);
    }

    method LeaveSenders(t: Link)
      requires Lists() && t in senders.waiters
      modifies senders, senders.head`next, senders.head`prev, senders.waiters`next, senders.waiters`prev, t`failed
      ensures Lists() && senders.waiters == Without(old(senders.waiters), t) && t.failed
    {
      t.failed := true;
      ghost var ring := RingOf(receivers.head, receivers.waiters);
      assert forall i :: 0 <= i < |ring| ==> ring[i] != senders.head && ring[i] !in senders.waiters;
      senders.Leave(t, IndexOf(senders.waiters, t));
      RingKept(ring);
    }

    method FailAll()
      requires Lists()
      modifies receivers, receivers.head, senders, senders.head, threads`next, threads`prev, threads`failed
      ensures Lists() && receivers.waiters == [] && senders.waiters == []
    {
      ghost var ring := RingOf(senders.head, senders.waiters);
      assert forall i :: 0 <= i < |ring| ==> ring[i] != receivers.head && ring[i] !in receivers.waiters;
      receivers.FailAll();
      RingKept(ring);
      senders.FailAll();
    }

    method DrainPool()
      requires pool.Valid() && Holds()
      modifies pool
      ensures pool.Valid() && Holds() && pool.contents == [] && |pool.freeList| == old(|pool.freeList| + |pool.contents|)
      ensures pool.data == old(pool.data)
      ensures SameAt(holder.Keys, old(pool.next), pool.next) && SameAt(holder.Keys, pool.data, pool.data)
    {
      pool.Drain();
    }

    /** `rt_mq_control` with RT_IPC_CMD_RESET */
    method Reset()
      requires Valid()
      modifies pool, receivers, receivers.head, senders, senders.head, threads`next, threads`prev, threads`failed
      ensures Valid() && View() == M.Reset(old(View())) && Steady(NULL)
    {
      FailAll();
      DrainPool();
      NothingTaken(holder, filled, old(pool.next), pool.next, pool.data);
    }

    /** Between the sections: the sender's own node is written. Nobody else's node or message changes. */
    method Fill(t: Link, msg: nat, buffer: Message)
      requires Valid() && t in sending && msg in holder && holder[msg] == t && |buffer| <= pool.msgSize
      modifies pool`next, pool`data, this`filled, this`log
      ensures Valid() && View() == old(View()) && holder == old(holder) && pool.next[msg] == NULL
      ensures pool.data[msg] == buffer + old(pool.data[msg])[|buffer|..]
      ensures Steady(msg) && filled == old(filled) + {msg} && log == old(log)[pool.data[msg] := Written(t, buffer)]
    {
      FillNode(t, msg, buffer);
      OneWritten(holder, old(filled), filled, old(pool.next), pool.next, old(pool.data), pool.data, msg);
    }

    method FillNode(t: Link, msg: nat, buffer: Message)
      requires pool.Valid() && Holds() && Told() && msg in holder && |buffer| <= pool.msgSize
      modifies pool`next, pool`data, this`filled, this`log
      ensures pool.Valid() && Holds() && Told() && msg < |pool.data| && msg < |pool.next| && pool.next[msg] == NULL
      ensures pool.data[msg] == buffer + old(pool.data[msg])[|buffer|..]
      ensures SameAt(holder.Keys - {msg}, old(pool.next), pool.next) && SameAt(holder.Keys - {msg}, old(pool.data), pool.data)
      ensures filled == old(filled) + {msg} && log == old(log)[pool.data[msg] := Written(t, buffer)]
    {
      pool.Fill(msg, buffer);
      TracedFill(log, pool.contents, filled, old(pool.data), pool.data, msg, Written(t, buffer), holder.Keys);
      filled, log := filled + {msg}, log[pool.data[msg] := Written(t, buffer)];
    }

    /**
     * Between the sections: the receiver's own node is read, at most up to the message size. What is read was written by
     * some sender: as far as both go, it is that sender's buffer.
     */
    method Read(t: Link, msg: nat, size: nat) returns (buffer: Message, ghost w: Written)
      requires Valid() && t in receiving && msg in filled && holder[msg] == t
      ensures buffer == pool.data[msg][..if size > pool.msgSize then pool.msgSize else size]
      ensures pool.data[msg] in log && w == log[pool.data[msg]] && (buffer <= w.buffer || w.buffer <= buffer)
    {
      buffer := pool.data[msg][..if size > pool.msgSize then pool.msgSize else size];
      w := log[pool.data[msg]];
    }
  }
}
