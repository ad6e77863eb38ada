/** What header updates do to the doubly linked chain of a heap. */
module HeapLinks {
  import opened HeapModel
  import opened HeapSafety
  import opened HeapSpans
  import opened HeapBytes

  type Heads = map<nat, Header>

  function Prev(bs: seq<Block>, i: nat): nat
    requires i < |bs|
  {
    if i == 0 then 0 else bs[i - 1].off
  }

  /** The header block `i` must have. */
  function Head(bs: seq<Block>, e: nat, i: nat): Header
    requires i < |bs|
  {
    Header(MAGIC, if bs[i].used then 1 else 0, Next(bs, e, i), Prev(bs, i))
  }

  predicate HeadOk(hs: Heads, bs: seq<Block>, e: nat, i: int)
    requires 0 <= i < |bs|
  {
    bs[i].off in hs && hs[bs[i].off] == Head(bs, e, i)
  }

  ghost function Offsets(bs: seq<Block>): set<nat> { set b | b in bs :: b.off }

  ghost predicate HeadsOk(hs: Heads, bs: seq<Block>, e: nat) {
    forall i :: 0 <= i < |bs| ==> HeadOk(hs, bs, e, i)
  }

  /** The end marker; its `prev` is not kept up to date. */
  predicate EndOk(hs: Heads, e: nat) {
    e in hs && hs[e].magic == MAGIC && hs[e].used == 1 && hs[e].next == e
  }

  /** The headers are those of the blocks, linked both ways, and the end marker. */
  ghost predicate Linked(hs: Heads, bs: seq<Block>, e: nat) {
    hs.Keys == Offsets(bs) + {e} && HeadsOk(hs, bs, e) && EndOk(hs, e)
  }

  lemma LinkedMark(hs: Heads, bs: seq<Block>, e: nat, i: nat, used: bool)
    requires Tiled(bs, e) && Linked(hs, bs, e) && i < |bs|
    ensures HeadOk(hs, bs, e, i)
    ensures Linked(hs[bs[i].off := hs[bs[i].off].(used := if used then 1 else 0)], Mark(bs, i, used), e)
  {
    assert HeadOk(hs, bs, e, i);
    var gs := hs[bs[i].off := hs[bs[i].off].(used := if used then 1 else 0)];
    MarkOffsets(bs, i, used);
    assert gs.Keys == hs.Keys;
    MarkHeads(hs, bs, e, i, used);
  }

  lemma MarkHeads(hs: Heads, bs: seq<Block>, e: nat, i: nat, used: bool)
    requires Tiled(bs, e) && HeadsOk(hs, bs, e) && i < |bs| && HeadOk(hs, bs, e, i)
    ensures HeadsOk(hs[bs[i].off := hs[bs[i].off].(used := if used then 1 else 0)], Mark(bs, i, used), e)
  {
    var c := Mark(bs, i, used);
    var gs := hs[bs[i].off := hs[bs[i].off].(used := if used then 1 else 0)];
    forall k | 0 <= k < |c| ensures HeadOk(gs, c, e, k) {
      assert HeadOk(hs, bs, e, k);
      assert c[k].off == bs[k].off && Next(c, e, k) == Next(bs, e, k) && Prev(c, k) == Prev(bs, k);
    }
  }

  lemma MarkOffsets(bs: seq<Block>, i: nat, used: bool)
    requires i < |bs|
    ensures Offsets(Mark(bs, i, used)) == Offsets(bs)
  {
    var c := Mark(bs, i, used);
    forall b | b in bs ensures b.off in Offsets(c) {
      var k :| 0 <= k < |bs| && bs[k] == b;
      assert c[k] in c && c[k].off == b.off;
    }
    forall b | b in c ensures b.off in Offsets(bs) {
      var k :| 0 <= k < |c| && c[k] == b;
      assert bs[k] in bs && bs[k].off == b.off;
    }
  }

  /** `heap[p]->next = heap[q]->next; heap[heap[q]->next]->prev = p`, after which `q` is no header. */
  function Unlink(hs: Heads, p: nat, q: nat): Heads
    requires p in hs && q in hs && hs[q].next in hs
  {
    var n := hs[q].next;
    var gs := hs[p := hs[p].(next := n)];
    gs[n := gs[n].(prev := p)] - {q}
  }

  lemma LinkedRemove(hs: Heads, bs: seq<Block>, e: nat, i: nat)
    requires Tiled(bs, e) && Linked(hs, bs, e) && 0 < i < |bs|
    ensures HeadOk(hs, bs, e, i) && HeadOk(hs, bs, e, i - 1) && Next(bs, e, i) in hs
    ensures Linked(Unlink(hs, bs[i - 1].off, bs[i].off), Remove(bs, i), e)
  {
    assert HeadOk(hs, bs, e, i) && HeadOk(hs, bs, e, i - 1);
    assert i + 1 < |bs| ==> HeadOk(hs, bs, e, i + 1);
    RemoveKeys(hs, bs, e, i);
    RemoveHeads(hs, bs, e, i);
  }

  lemma RemoveKeys(hs: Heads, bs: seq<Block>, e: nat, i: nat)
    requires Tiled(bs, e) && 0 < i < |bs| && hs.Keys == Offsets(bs) + {e} && EndOk(hs, e)
    requires HeadOk(hs, bs, e, i) && HeadOk(hs, bs, e, i - 1) && Next(bs, e, i) in hs
    ensures var gs := Unlink(hs, bs[i - 1].off, bs[i].off);
            gs.Keys == Offsets(Remove(bs, i)) + {e} && EndOk(gs, e)
  {
    var gs := Unlink(hs, bs[i - 1].off, bs[i].off);
    RemoveOffsets(bs, e, i);
    assert gs.Keys == hs.Keys - {bs[i].off};
  }

  lemma RemoveHeads(hs: Heads, bs: seq<Block>, e: nat, i: nat)
    requires Tiled(bs, e) && 0 < i < |bs| && HeadsOk(hs, bs, e) && e in hs
    requires HeadOk(hs, bs, e, i) && HeadOk(hs, bs, e, i - 1) && Next(bs, e, i) in hs
    ensures HeadsOk(Unlink(hs, bs[i - 1].off, bs[i].off), Remove(bs, i), e)
  {
    var gs, c := Unlink(hs, bs[i - 1].off, bs[i].off), Remove(bs, i);
    forall k | 0 <= k < |c| ensures HeadOk(gs, c, e, k) {
      assert HeadOk(hs, bs, e, if k < i then k else k + 1);
      RemovedHead(hs, bs, e, i, k);
    }
  }

  lemma RemovedHead(hs: Heads, bs: seq<Block>, e: nat, i: nat, k: nat)
    requires Tiled(bs, e) && 0 < i < |bs| && k < |bs| - 1
    requires HeadOk(hs, bs, e, i) && HeadOk(hs, bs, e, i - 1) && e in hs && (i + 1 < |bs| ==> bs[i + 1].off in hs)
    requires HeadOk(hs, bs, e, if k < i then k else k + 1)
    ensures HeadOk(Unlink(hs, bs[i - 1].off, bs[i].off), Remove(bs, i), e, k)
  {
    var c, j := Remove(bs, i), if k < i then k else k + 1;
    assert c[k] == bs[j] && bs[j].off != bs[i].off;
    assert Prev(c, k) == if j == i + 1 then bs[i - 1].off else Prev(bs, j);
    assert Next(c, e, k) == if j == i - 1 then Next(bs, e, i) else Next(bs, e, j);
    assert j != i - 1 ==> bs[j].off != bs[i - 1].off;
    assert j != i + 1 ==> bs[j].off != Next(bs, e, i);
  }

  lemma RemoveOffsets(bs: seq<Block>, e: nat, i: nat)
    requires Tiled(bs, e) && i < |bs|
    ensures Offsets(Remove(bs, i)) == Offsets(bs) - {bs[i].off}
  {
    var c := Remove(bs, i);
    forall o | o in Offsets(bs) && o != bs[i].off ensures o in Offsets(c) {
      OffsetKept(bs, i, o);
    }
    forall o | o in Offsets(c) ensures o in Offsets(bs) && o != bs[i].off {
      OffsetLeft(bs, e, i, o);
    }
  }

  lemma OffsetKept(bs: seq<Block>, i: nat, o: nat)
    requires i < |bs| && o in Offsets(bs) && o != bs[i].off
    ensures o in Offsets(Remove(bs, i))
  {
    var k :| 0 <= k < |bs| && bs[k].off == o;
    assert Remove(bs, i)[if k < i then k else k - 1] == bs[k];
  }

  lemma OffsetLeft(bs: seq<Block>, e: nat, i: nat, o: nat)
    requires Tiled(bs, e) && i < |bs| && o in Offsets(Remove(bs, i))
    ensures o in Offsets(bs) && o != bs[i].off
  {
    var c := Remove(bs, i);
    var k :| 0 <= k < |c| && c[k].off == o;
    assert c[k] == bs[if k < i then k else k + 1];
  }

  /** A new free header at `q` between the block at `p` and its successor. */
  function Link(hs: Heads, p: nat, q: nat, e: nat): Heads
    requires p in hs && hs[p].next in hs
  {
    var n := hs[p].next;
    var gs := hs[q := Header(MAGIC, 0, n, p)][p := hs[p].(next := q)];
    if n != e then gs[n := gs[n].(prev := q)] else gs
  }

  lemma LinkedInsert(hs: Heads, bs: seq<Block>, e: nat, i: nat, q: nat)
    requires Tiled(bs, e) && Linked(hs, bs, e) && i < |bs|
    requires bs[i].off < q < Next(bs, e, i)
    ensures HeadOk(hs, bs, e, i) && Next(bs, e, i) in hs && q !in hs
    ensures Linked(Link(hs, bs[i].off, q, e), Insert(bs, i, q), e)
  {
    assert HeadOk(hs, bs, e, i);
    assert i + 1 < |bs| ==> HeadOk(hs, bs, e, i + 1);
    var gs := Link(hs, bs[i].off, q, e);
    NotOffset(bs, e, i, q);
    InsertOffsets(bs, i, q);
    assert gs.Keys == hs.Keys + {q};
    InsertHeads(hs, bs, e, i, q);
    assert EndOk(gs, e);
  }

  lemma NotOffset(bs: seq<Block>, e: nat, i: nat, q: nat)
    requires Tiled(bs, e) && i < |bs| && bs[i].off < q < Next(bs, e, i)
    ensures q !in Offsets(bs) && q < e
  {
    assert Next(bs, e, i) <= e;
    if q in Offsets(bs) {
      var k :| 0 <= k < |bs| && bs[k].off == q;
      assert false;
    }
  }

  lemma InsertHeads(hs: Heads, bs: seq<Block>, e: nat, i: nat, q: nat)
    requires Tiled(bs, e) && i < |bs| && HeadsOk(hs, bs, e) && bs[i].off < q < Next(bs, e, i)
    requires HeadOk(hs, bs, e, i) && Next(bs, e, i) in hs && q !in hs
    ensures HeadsOk(Link(hs, bs[i].off, q, e), Insert(bs, i, q), e)
  {
    var gs, c := Link(hs, bs[i].off, q, e), Insert(bs, i, q);
    forall k | 0 <= k < |c| ensures HeadOk(gs, c, e, k) {
      if k == i + 1 {
        assert c[k] == Block(q, false) && Prev(c, k) == bs[i].off && Next(c, e, k) == Next(bs, e, i);
      } else {
        var j := if k <= i then k else k - 1;
        assert HeadOk(hs, bs, e, j);
        InsertedHead(hs, bs, e, i, q, j);
      }
    }
  }

  lemma InsertedHead(hs: Heads, bs: seq<Block>, e: nat, i: nat, q: nat, j: nat)
    requires Tiled(bs, e) && i < |bs| && j < |bs| && bs[i].off < q < Next(bs, e, i)
    requires HeadOk(hs, bs, e, i) && HeadOk(hs, bs, e, j) && Next(bs, e, i) in hs
    ensures HeadOk(Link(hs, bs[i].off, q, e), Insert(bs, i, q), e, if j <= i then j else j + 1)
  {
    var c, k := Insert(bs, i, q), if j <= i then j else j + 1;
    assert c[k] == bs[j];
    assert Prev(c, k) == if j == i + 1 then q else Prev(bs, j);
    assert Next(c, e, k) == if j == i then q else Next(bs, e, j);
    assert bs[j].off <= bs[i].off || Next(bs, e, i) <= bs[j].off;
    assert j != i ==> bs[j].off != bs[i].off;
    assert j != i + 1 ==> bs[j].off != Next(bs, e, i);
  }

  lemma InsertOffsets(bs: seq<Block>, i: nat, q: nat)
    requires i < |bs|
    ensures Offsets(Insert(bs, i, q)) == Offsets(bs) + {q}
  {
    var c := Insert(bs, i, q);
    assert c[i + 1] == Block(q, false);
    forall b | b in bs ensures b in c {
      var k :| 0 <= k < |bs| && bs[k] == b;
      assert c[if k <= i then k else k + 1] == b;
    }
    forall b | b in c ensures b in bs || b.off == q {
      var k :| 0 <= k < |c| && c[k] == b;
      assert k == i + 1 || b == bs[if k <= i then k else k - 1];
    }
  }

  /** A header may be written anywhere in a block that has room for it. */
  lemma RoomFor(hs: Heads, bs: seq<Block>, e: nat, i: nat, q: nat)
    requires Tiled(bs, e) && i < |bs| && bs[i].off + HDR <= q && q + HDR <= Next(bs, e, i)
    requires hs.Keys == Offsets(bs) + {e}
    ensures ApartFrom(q, hs)
    ensures !bs[i].used ==> Clear(q, UsedSpans(bs, e))
  {
    assert Next(bs, e, i) <= e;
    forall p | p in hs ensures Apart(q, p) {
      if p != e { var k :| 0 <= k < |bs| && bs[k].off == p; }
    }
    if !bs[i].used {
      forall s | s in UsedSpans(bs, e) ensures q <= s.0 || s.1 <= q {
        var k :| 0 <= k < |bs| && bs[k].used && s == (bs[k].off, Next(bs, e, k));
        assert k < i ==> Next(bs, e, k) <= bs[i].off;
        assert i < k ==> Next(bs, e, i) <= bs[k].off;
      }
    }
  }

  /** Where headers are, payloads of used blocks are not. */
  lemma HeaderClear(bs: seq<Block>, e: nat, i: nat)
    requires Tiled(bs, e) && i <= |bs|
    ensures Clear(OffAt(bs, e, i), UsedSpans(bs, e))
  {
    forall s | s in UsedSpans(bs, e) ensures OffAt(bs, e, i) <= s.0 || s.1 <= OffAt(bs, e, i) {
      var k :| 0 <= k < |bs| && bs[k].used && s == (bs[k].off, Next(bs, e, k));
    }
  }

  /** All that splitting block `i` at `q` needs and does. */
  lemma SplitOk(hs: Heads, bs: seq<Block>, e: nat, i: nat, q: nat)
    requires Tiled(bs, e) && Linked(hs, bs, e) && i < |bs|
    requires bs[i].off + HDR < q && q + HDR < Next(bs, e, i)
    ensures var p := bs[i].off;
            && p in hs && p < e && q < e && hs[p].next == Next(bs, e, i) && hs[p].next in hs && ApartFrom(q, hs)
            && Linked(Link(hs, p, q, e), Insert(bs, i, q), e) && Tiled(Insert(bs, i, q), e)
  {
    LinkedInsert(hs, bs, e, i, q);
    InsertTiled(bs, e, i, q);
    RoomFor(hs, bs, e, i, q);
    assert Next(bs, e, i) <= e;
  }

  /** All that merging free block `i` into its predecessor needs and does. */
  lemma AbsorbOk(hs: Heads, bs: seq<Block>, e: nat, i: nat)
    requires Tiled(bs, e) && Linked(hs, bs, e) && 0 < i < |bs|
    ensures var (p, q, spans) := (bs[i - 1].off, bs[i].off, UsedSpans(bs, e));
            && p in hs && q in hs && p < e && hs[q].next in hs
            && Clear(p, spans) && Clear(hs[q].next, spans)
            && Linked(Unlink(hs, p, q), Remove(bs, i), e) && Tiled(Remove(bs, i), e)
  {
    LinkedRemove(hs, bs, e, i);
    RemoveTiled(bs, e, i);
    HeaderClear(bs, e, i - 1);
    HeaderClear(bs, e, i + 1);
  }
}
