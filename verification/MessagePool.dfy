/** The pool of message nodes of a message queue, linked in place into a free list and a queue. */
module MessagePools {
  import opened Common
  import opened RtList

  const NULL := -1

  ghost predicate LinkOk(next: seq<int>, s: seq<nat>, i: nat)
    requires i < |s|
  {
    s[i] < |next| && next[s[i]] == if i + 1 < |s| then s[i + 1] else NULL
  }

  /** From `first`, the links lead through `s` to NULL. */
  ghost predicate Chained(next: seq<int>, first: int, s: seq<nat>) {
    first == (if s == [] then NULL else s[0]) && forall i :: 0 <= i < |s| ==> LinkOk(next, s, i)
  }

  /** A link that is in none of the chain's nodes may change. */
  lemma ChainKept(next: seq<int>, after: seq<int>, first: int, s: seq<nat>)
    requires Chained(next, first, s) && |after| == |next|
    requires forall i :: 0 <= i < |s| ==> s[i] < |next| && after[s[i]] == next[s[i]]
    ensures Chained(after, first, s)
  {
    forall i | 0 <= i < |s| ensures LinkOk(after, s, i) {
      assert LinkOk(next, s, i);
    }
  }

  lemma ChainTail(next: seq<int>, first: int, s: seq<nat>)
    requires Chained(next, first, s) && s != []
    ensures first == s[0] && s[0] < |next| && Chained(next, next[s[0]], s[1..])
  {
    assert LinkOk(next, s, 0);
    forall i | 0 <= i < |s| - 1 ensures LinkOk(next, s[1..], i) {
      assert LinkOk(next, s, i + 1);
    }
  }

  lemma ChainCons(next: seq<int>, first: int, s: seq<nat>, m: nat)
    requires Chained(next, first, s) && m < |next| && next[m] == first
    ensures Chained(next, m, [m] + s)
  {
    forall i | 0 <= i < |s| + 1 ensures LinkOk(next, [m] + s, i) {
      if i > 0 { assert LinkOk(next, s, i - 1); }
    }
  }

  /** Linking the last node, or an empty list's first pointer, to a node that ends the chain. */
  lemma ChainSnoc(next: seq<int>, after: seq<int>, first: int, s: seq<nat>, m: nat)
    requires Chained(next, first, s) && Distinct(s) && m < |next| == |after| && m !in s && next[m] == NULL
    requires forall i :: 0 <= i < |s| ==> s[i] < |next|
    requires after == if s == [] then next else next[s[|s| - 1] := m]
    ensures Chained(after, if s == [] then m else first, s + [m])
  {
    var r := s + [m];
    forall i | 0 <= i < |r| ensures LinkOk(after, r, i) {
      if i < |s| { assert LinkOk(next, s, i); }
      if i + 1 < |s| { assert s[i] != s[|s| - 1]; }
    }
  }

  datatype Place = Queued | Free | Flying

  /** Where each node is: in the queue, in the free list or in flight; these hold as many nodes as there are. */
  ghost predicate Partition(place: seq<Place>, queue: seq<nat>, free: seq<nat>, flight: set<nat>) {
    && (forall i :: 0 <= i < |queue| ==> queue[i] < |place| && place[queue[i]] == Queued)
    && (forall i :: 0 <= i < |free| ==> free[i] < |place| && place[free[i]] == Free)
    && (forall m :: m in flight ==> m < |place| && place[m] == Flying)
    && |queue| + |free| + |flight| == |place|
  }

  /** A chain that ends visits no node twice. */
  lemma {:induction false} ChainDistinct(next: seq<int>, first: int, s: seq<nat>)
    requires Chained(next, first, s)
    ensures Distinct(s)
  {
    forall i, j | 0 <= i < j < |s| ensures s[i] != s[j] {
      NoReturn(next, first, s, i, j);
    }
  }

  lemma NoReturn(next: seq<int>, first: int, s: seq<nat>, i: nat, j: nat)
    requires Chained(next, first, s) && i < j < |s|
    ensures s[i] != s[j]
    decreases |s| - j
  {
    assert LinkOk(next, s, i) && LinkOk(next, s, j);
    if j + 1 < |s| { NoReturn(next, first, s, i + 1, j + 1); }
  }

  function Upto(n: nat): (s: set<nat>)
    ensures |s| == n && forall m :: m in s <==> 0 <= m < n
  {
    if n == 0 then {} else Upto(n - 1) + {n - 1}
  }

  ghost function Nodes(s: seq<nat>): (r: set<nat>)
    ensures forall m :: m in r <==> m in s
    ensures Distinct(s) ==> |r| == |s|
  {
    if s == [] then {} else assert s == [s[0]] + s[1..]; Nodes(s[1..]) + {s[0]}
  }

  lemma SubsetFull(a: set<nat>, b: set<nat>)
    requires a <= b && |a| == |b|
    ensures a == b
  {
    assert |b - a| == |b| - |a|;
  }

  /** Every node of the pool is in exactly one of the three. */
  lemma PartitionCovers(place: seq<Place>, queue: seq<nat>, free: seq<nat>, flight: set<nat>, m: nat)
    requires Partition(place, queue, free, flight) && Distinct(queue) && Distinct(free) && m < |place|
    ensures m in queue <==> place[m] == Queued
    ensures m in free <==> place[m] == Free
    ensures m in flight <==> place[m] == Flying
  {
    var (q, f) := (Nodes(queue), Nodes(free));
    assert q !! f && q !! flight && f !! flight;
    assert |q + f| == |q| + |f| && |q + f + flight| == |q + f| + |flight|;
    assert q + f + flight <= Upto(|place|);
    SubsetFull(q + f + flight, Upto(|place|));
    assert m in q + f + flight;
  }

  lemma TakeFirst(place: seq<Place>, queue: seq<nat>, free: seq<nat>, flight: set<nat>, next: seq<int>, first: int)
    requires Partition(place, queue, free, flight) && queue != [] && Chained(next, first, queue)
    ensures queue[0] < |place| && queue[0] !in flight
    ensures Partition(place[queue[0] := Flying], queue[1..], free, flight + {queue[0]})
  {
    ChainDistinct(next, first, queue);
  }

  lemma PutFree(place: seq<Place>, queue: seq<nat>, free: seq<nat>, flight: set<nat>, m: nat)
    requires Partition(place, queue, free, flight) && m in flight
    ensures Partition(place[m := Free], queue, [m] + free, flight - {m})
  {
  }

  /** The contents of a queue are the bodies of its nodes. */
  ghost predicate BodiesOf(data: seq<Message>, queue: seq<nat>, contents: seq<Message>) {
    |contents| == |queue| && forall i :: 0 <= i < |queue| ==> queue[i] < |data| && contents[i] == data[queue[i]]
  }

  lemma BodiesTail(data: seq<Message>, queue: seq<nat>, contents: seq<Message>)
    requires BodiesOf(data, queue, contents) && queue != []
    ensures BodiesOf(data, queue[1..], contents[1..]) && contents == [data[queue[0]]] + contents[1..]
  {
  }

  /** The nodes `keys` have the same links, or bodies. */
  ghost predicate SameAt<A>(keys: set<nat>, a: seq<A>, b: seq<A>) { forall m :: m in keys ==> m < |a| && m < |b| && a[m] == b[m] }

  class MessagePool {
    const max: nat
    const msgSize: nat
    var next: seq<int>       // the link of each node
    var data: seq<Message>      // the body of each node
    var head: int
    var tail: int
    var free: int
    var entry: nat
    ghost var queue: seq<nat>
    ghost var freeList: seq<nat>
    ghost var flight: set<nat>
    ghost var place: seq<Place>
    ghost var contents: seq<Message>    // the messages in order

    ghost predicate Valid()
      reads this
    {
      && |next| == max && |data| == max && (forall m :: 0 <= m < max ==> |data[m]| == msgSize)
      && |place| == max && Partition(place, queue, freeList, flight)
      && Chained(next, head, queue) && Chained(next, free, freeList)
      && tail == (if queue == [] then NULL else queue[|queue| - 1]) && entry == |queue|
      && BodiesOf(data, queue, contents)
    }

    /** `rt_mq_init`: all nodes are chained into the free list. */
    constructor (msgs: nat, size: nat, fill: Message)
      requires |fill| == size
      ensures Valid() && max == msgs && msgSize == size && queue == [] && contents == [] && |freeList| == msgs && flight == {}
    {
      max, msgSize := msgs, size;
      next, data := seq(msgs, _ => NULL), seq(msgs, _ => fill);
      head, tail, free, entry := NULL, NULL, NULL, 0;
      queue, freeList, flight, contents, place := [], [], {}, [], [];
      new;
      ghost var list: seq<nat> := [];
      for i := 0 to max
        invariant head == NULL && tail == NULL && entry == 0 && queue == [] && contents == [] && flight == {} && |list| == i
        invariant (forall k :: 0 <= k < |list| ==> list[k] < i) && Chained(next, free, list)
        invariant |next| == max && |data| == max && forall m :: 0 <= m < max ==> |data[m]| == msgSize
      {
        ghost var was := next;
        next := next[i := free];
        ChainKept(was, next, free, list);
        ChainCons(next, free, list, i);
        free := i;
        list := [i] + list;
      }
      freeList, place := list, seq(max, _ => Free);
    }

    /** The first section of a send takes the first free node, or NULL. */
    method Grab() returns (msg: int)
      requires Valid()
      modifies this`free, this`freeList, this`flight, this`place
      ensures Valid()
      ensures msg == NULL <==> old(freeList) == []
      ensures msg == NULL ==> freeList == old(freeList) && flight == old(flight)
      ensures msg != NULL ==> 0 <= msg && msg == old(freeList[0]) && freeList == old(freeList)[1..] && flight == old(flight) + {msg}
    {
      msg := free;
      if msg != NULL {
        ChainTail(next, free, freeList);
        ChainDistinct(next, free, freeList);
        free := next[msg];
        freeList, flight, place := freeList[1..], flight + {msg}, place[msg := Flying];
      }
    }

    /** Between the sections the node belongs to the sender: its link and body are written without protection. */
    method Fill(msg: nat, buffer: Message)
      requires Valid() && msg in flight && |buffer| <= msgSize
      modifies this`next, this`data
      ensures Valid()
      ensures next[msg] == NULL && data[msg] == buffer + old(data[msg])[|buffer|..]
      ensures SameAt(flight - {msg}, old(next), next) && SameAt(flight - {msg}, old(data), data)
    {
      ghost var n0 := next;
      next := next[msg := NULL];
      data := data[msg := buffer + data[msg][|buffer|..]];
      ChainKept(n0, next, head, queue);
      ChainKept(n0, next, free, freeList);
    }

    /** The stores of the second section of a send */
    method LinkLast(msg: nat)
      requires Valid() && msg in flight && next[msg] == NULL
      modifies this`head, this`tail, this`entry, this`next
      ensures Chained(next, head, queue + [msg]) && Chained(next, free, freeList)
      ensures tail == msg && entry == old(entry) + 1
      ensures |next| == max && SameAt(flight, old(next), next)
    {
      ghost var n0 := next;
      assert queue != [] ==> queue[|queue| - 1] in queue;
      if tail != NULL {
        next := next[tail := msg];
      }
      ChainDistinct(n0, head, queue);
      ChainSnoc(n0, next, head, queue, msg);
      ChainKept(n0, next, free, freeList);
      tail := msg;
      if head == NULL {
        head := msg;
      }
      entry := entry + 1;
    }

    /** The second section of a send links the node at the end. */
    method Append(msg: nat)
      requires Valid() && msg in flight && next[msg] == NULL
      modifies this
      ensures Valid() && contents == old(contents) + [data[msg]]
      ensures queue == old(queue) + [msg] && freeList == old(freeList) && flight == old(flight) - {msg}
      ensures data == old(data) && SameAt(flight, old(next), next)
    {
      LinkLast(msg);
      queue, flight, place := queue + [msg], flight - {msg}, place[msg := Queued];
      contents := contents + [data[msg]];
    }

    /** The stores of the second section of an urgent send */
    method LinkFirst(msg: nat)
      requires Valid() && msg in flight
      modifies this`head, this`tail, this`entry, this`next
      ensures Chained(next, head, [msg] + queue) && Chained(next, free, freeList)
      ensures tail == (if old(tail) == NULL then msg else old(tail)) && entry == old(entry) + 1
      ensures |next| == max && SameAt(flight - {msg}, old(next), next)
    {
      ghost var n0 := next;
      next := next[msg := head];
      ChainKept(n0, next, head, queue);
      ChainKept(n0, next, free, freeList);
      ChainCons(next, head, queue, msg);
      head := msg;
      if tail == NULL {
        tail := msg;
      }
      entry := entry + 1;
    }

    /** The second section of an urgent send links the node at the front. */
    method Prepend(msg: nat)
      requires Valid() && msg in flight
      modifies this
      ensures Valid() && contents == [data[msg]] + old(contents)
      ensures queue == [msg] + old(queue) && freeList == old(freeList) && flight == old(flight) - {msg}
      ensures data == old(data) && SameAt(flight, old(next), next)
    {
      LinkFirst(msg);
      queue, flight, place := [msg] + queue, flight - {msg}, place[msg := Queued];
      contents := [data[msg]] + contents;
    }

    /** The stores of the first section of a receive */
    method UnlinkFirst() returns (msg: nat)
      requires Valid() && entry > 0
      modifies this`head, this`tail, this`entry
      ensures msg == queue[0] && Chained(next, head, queue[1..])
      ensures tail == (if |queue| == 1 then NULL else queue[|queue| - 1]) && entry == old(entry) - 1
    {
      ChainTail(next, head, queue);
      ChainDistinct(next, head, queue);
      msg := head;
      head := next[msg];
      if tail == msg {
        tail := NULL;
      }
      entry := entry - 1;
    }

    /** The first section of a receive takes the first queued node. */
    method Pop() returns (msg: nat)
      requires Valid() && entry > 0
      modifies this
      ensures next == old(next) && data == old(data)
      ensures Valid() && msg in flight && old(contents) == [data[msg]] + contents
      ensures msg == old(queue[0]) && queue == old(queue)[1..] && freeList == old(freeList) && flight == old(flight) + {msg}
    {
      TakeFirst(place, queue, freeList, flight, next, head);
      msg := UnlinkFirst();
      BodiesTail(data, queue, contents);
      queue, flight, place := queue[1..], flight + {msg}, place[msg := Flying];
      contents := contents[1..];
    }

    /** The second section of a receive puts the node back. */
    method PutBack(msg: nat)
      requires Valid() && msg in flight
      modifies this`free, this`freeList, this`flight, this`place, this`next
      ensures Valid()
      ensures queue == old(queue) && freeList == [msg] + old(freeList) && flight == old(flight) - {msg}
      ensures data == old(data) && SameAt(flight, old(next), next)
    {
      ghost var n0 := next;
      PutFree(place, queue, freeList, flight, msg);
      next := next[msg := free];
      ChainKept(n0, next, head, queue);
      ChainKept(n0, next, free, freeList);
      ChainCons(next, free, freeList, msg);
      free := msg;
      freeList, flight, place := [msg] + freeList, flight - {msg}, place[msg := Free];
    }

    method DropFirst()
      requires Valid() && head != NULL
      modifies this
      ensures Valid() && flight == old(flight) && |queue| + 1 == |old(queue)| && |freeList| == |old(freeList)| + 1
      ensures data == old(data) && SameAt(flight, old(next), next)
    {
      ghost var f := flight;
      assert queue[0] !in flight;
      var msg := Pop();
      PutBack(msg);
      assert f + {msg} - {msg} == f;
    }

    /** Reset: every queued node goes back to the free list; the entry count is cleared at the end. */
    method Drain()
      requires Valid()
      modifies this
      ensures Valid() && queue == [] && contents == [] && flight == old(flight) && |freeList| == |old(freeList)| + |old(queue)|
      ensures data == old(data) && SameAt(flight, old(next), next)
    {
      while head != NULL
        invariant Valid() && flight == old(flight) && |freeList| + |queue| == |old(freeList)| + |old(queue)|
        invariant data == old(data) && SameAt(flight, old(next), next)
        decreases |queue|
      {
        DropFirst();
      }
    }
  }
}
