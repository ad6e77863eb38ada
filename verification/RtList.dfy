/** Intrusive circular doubly linked lists (`rtservice.h`), with the fields of the thread a link is embedded in. */
module RtList {

  /** The option bits of an event wait: RT_EVENT_FLAG_AND, RT_EVENT_FLAG_OR and RT_EVENT_FLAG_CLEAR. */
  datatype EventInfo = EventInfo(all: bool, any: bool, clear: bool)

  /**
   * A list link. A link is embedded either in a kernel object, where it is the head of a waiting list, or in a
   * thread; in the second case it carries the thread's fields that the kernel objects read and write.
   */
  class Link {
    var next: Link
    var prev: Link
    var priority: nat    // current_priority, smaller is more urgent
    var failed: bool     // thread->error is not RT_EOK
    var eventSet: set<nat>    // the bits of event_set
    var eventInfo: EventInfo

    /** `rt_list_init`: the ring of one. */
    constructor (prio: nat)
      ensures Ring([this]) && priority == prio && !failed
    {
      next, prev := this, this;
      priority, failed, eventSet, eventInfo := prio, false, {}, EventInfo(false, false, false);
    }
  }

  function Succ(s: seq<Link>, i: nat): Link
    requires i < |s|
  {
    if i + 1 < |s| then s[i + 1] else s[0]
  }

  ghost predicate LinkedAt(s: seq<Link>, i: nat)
    requires i < |s|
    reads s`next, s`prev
  {
    s[i].next == Succ(s, i) && Succ(s, i).prev == s[i]
  }

  predicate Distinct<T(==)>(s: seq<T>) { forall i, j :: 0 <= i < j < |s| ==> s[i] != s[j] }

  /** The links of `s`, in this order, form one ring: next goes round it, and prev inverts next. */
  ghost predicate Ring(s: seq<Link>)
    reads s`next, s`prev
  {
    && |s| > 0 && (forall i :: 0 < i < |s| ==> s[i] != s[0])
    && (forall i :: 0 <= i < |s| ==> LinkedAt(s, i))
  }

  /** Going back from two places of a ring that are the same link leads to the head twice: there are none. */
  lemma {:induction false} RingDistinct(s: seq<Link>)
    requires Ring(s)
    ensures Distinct(s)
  {
    forall i, j | 0 <= i < j < |s| ensures s[i] != s[j] {
      NoReturn(s, i, j);
    }
  }

  lemma {:induction false} NoReturn(s: seq<Link>, i: nat, j: nat)
    requires Ring(s) && i < j < |s|
    ensures s[i] != s[j]
  {
    if i > 0 {
      assert LinkedAt(s, i - 1) && LinkedAt(s, j - 1);
      NoReturn(s, i - 1, j - 1);
    }
  }

  /** A ring none of whose links changed is still a ring. */
  twostate lemma RingKept(s: seq<Link>)
    requires old(Ring(s)) && forall i :: 0 <= i < |s| ==> s[i].next == old(s[i].next) && s[i].prev == old(s[i].prev)
    ensures Ring(s)
  {
    forall i | 0 <= i < |s| ensures LinkedAt(s, i) {
      assert old(LinkedAt(s, i));
    }
  }

  function InsertAt<T>(s: seq<T>, i: nat, n: T): seq<T>
    requires i <= |s|
  {
    s[..i] + [n] + s[i..]
  }

  function RemoveAt<T>(s: seq<T>, i: nat): seq<T>
    requires i < |s|
  {
    s[..i] + s[i + 1..]
  }

  /** `rt_list_insert_after` */
  method InsertAfter(l: Link, n: Link, ghost s: seq<Link>, ghost i: nat)
    requires Ring(s) && i < |s| && s[i] == l && n !in s
    modifies s`next, s`prev, n`next, n`prev
    ensures Ring(InsertAt(s, i + 1, n))
  {
    RingDistinct(s);
    ghost var r := InsertAt(s, i + 1, n);
    assert LinkedAt(s, i);
    l.next.prev := n;
    n.next := l.next;
    l.next := n;
    n.prev := l;
    forall j | 0 <= j < |r| ensures LinkedAt(r, j) {
      if j < i { assert old(LinkedAt(s, j)); }
      if j > i + 1 { assert old(LinkedAt(s, j - 1)); }
    }
  }

  /** `rt_list_insert_before`: before the head means at the end. */
  method InsertBefore(l: Link, n: Link, ghost s: seq<Link>, ghost i: nat)
    requires Ring(s) && i < |s| && s[i] == l && n !in s
    modifies s`next, s`prev, n`next, n`prev
    ensures Ring(InsertAt(s, if i == 0 then |s| else i, n))
  {
    RingDistinct(s);
    ghost var k := if i == 0 then |s| else i;
    ghost var r := InsertAt(s, k, n);
    assert LinkedAt(s, k - 1);
    l.prev.next := n;
    n.prev := l.prev;
    l.prev := n;
    n.next := l;
    forall j | 0 <= j < |r| ensures LinkedAt(r, j) {
      if j < k - 1 { assert old(LinkedAt(s, j)); }
      if j > k { assert old(LinkedAt(s, j - 1)); }
    }
  }

  /** `rt_list_remove`: the removed link is a ring of its own again. */
  method Remove(n: Link, ghost s: seq<Link>, ghost i: nat)
    requires Ring(s) && 0 < i < |s| && s[i] == n
    modifies s`next, s`prev
    ensures Ring(RemoveAt(s, i)) && Ring([n])
  {
    RingDistinct(s);
    ghost var r := RemoveAt(s, i);
    assert LinkedAt(s, i - 1) && LinkedAt(s, i);
    n.next.prev := n.prev;
    n.prev.next := n.next;
    n.next, n.prev := n, n;
    forall j | 0 <= j < |r| ensures LinkedAt(r, j) {
      if j < i - 1 { assert old(LinkedAt(s, j)); }
      if j >= i { assert old(LinkedAt(s, j + 1)); }
    }
  }

  /** `rt_list_isempty` */
  method IsEmpty(l: Link, ghost s: seq<Link>) returns (empty: bool)
    requires Ring(s) && s[0] == l
    ensures empty <==> |s| == 1
  {
    assert LinkedAt(s, 0);
    empty := l.next == l;
  }

  /** `rt_list_len` counts the links other than the head. */
  method Len(l: Link, ghost s: seq<Link>) returns (len: nat)
    requires Ring(s) && s[0] == l
    ensures len == |s| - 1
  {
    len := 0;
    var p := l;
    assert LinkedAt(s, 0);
    while p.next != l
      invariant len < |s| && p == s[len]
      decreases |s| - len
    {
      assert LinkedAt(s, len);
      p := p.next;
      len := len + 1;
    }
    assert LinkedAt(s, len);
  }
}
