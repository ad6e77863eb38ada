/** Every critical section of the heap keeps its invariants. */
module HeapSafety {
  import opened Common
  import opened HeapModel

  // ---------------------------------------------------------------- one header more, less or changed

  lemma SumAt(bs: seq<Block>, e: nat, i: nat)
    requires i < |bs|
    ensures Sum(bs, e) == Sum(bs[..i], bs[i].off)
                          + (if bs[i].used then Next(bs, e, i) - bs[i].off else 0) + Sum(bs[i + 1..], e)
  {
    assert bs == bs[..i] + bs[i..];
    SumAppend(bs[..i], bs[i..], e);
    assert bs[i..][1..] == bs[i + 1..];
  }

  lemma MarkSum(bs: seq<Block>, e: nat, i: nat, used: bool)
    requires i < |bs|
    ensures var span := Next(bs, e, i) - bs[i].off;
            Sum(Mark(bs, i, used), e)
            == Sum(bs, e) + (if used then span else 0) - (if bs[i].used then span else 0)
  {
    var m := Mark(bs, i, used);
    SumAt(bs, e, i);
    SumAt(m, e, i);
    assert m[..i] == bs[..i] && m[i + 1..] == bs[i + 1..];
  }

  lemma InsertSum(bs: seq<Block>, e: nat, i: nat, off: nat)
    requires i < |bs|
    ensures Sum(Insert(bs, i, off), e) == Sum(bs, e) - (if bs[i].used then Next(bs, e, i) - off else 0)
  {
    var n := Insert(bs, i, off);
    SumAt(bs, e, i);
    SumAt(n, e, i);
    assert n[..i] == bs[..i] && n[i + 1..][1..] == bs[i + 1..];
  }

  lemma RemoveSum(bs: seq<Block>, e: nat, i: nat)
    requires 0 < i < |bs| && !bs[i].used && !bs[i - 1].used
    ensures Sum(Remove(bs, i), e) == Sum(bs, e)
  {
    var r := Remove(bs, i);
    SumAt(bs, e, i - 1);
    SumAt(r, e, i - 1);
    assert r[..i - 1] == bs[..i - 1] && r[i..] == bs[i + 1..] && bs[i..][1..] == bs[i + 1..];
  }

  lemma MarkTiled(bs: seq<Block>, e: nat, i: nat, used: bool)
    requires Tiled(bs, e) && i < |bs|
    ensures Tiled(Mark(bs, i, used), e)
  {
    var m := Mark(bs, i, used);
    assert forall k :: 0 <= k < |bs| ==> m[k].off == bs[k].off;
  }

  lemma InsertTiled(bs: seq<Block>, e: nat, i: nat, off: nat)
    requires Tiled(bs, e) && i < |bs|
    requires bs[i].off + HDR < off && off + HDR < Next(bs, e, i)
    ensures Tiled(Insert(bs, i, off), e)
  {
    var n := Insert(bs, i, off);
    assert forall k :: 0 <= k <= i ==> bs[k].off <= bs[i].off;
    assert forall k :: i < k < |bs| ==> off + HDR < bs[k].off;
    forall j | 0 <= j < |n|
      ensures n[j].off + HDR < e
      ensures forall k :: j < k < |n| ==> n[j].off + HDR < n[k].off
    {
      if j <= i { assert n[j] == bs[j]; } else if i + 1 < j { assert n[j] == bs[j - 1]; }
    }
  }

  lemma RemoveTiled(bs: seq<Block>, e: nat, i: nat)
    requires Tiled(bs, e) && 0 < i < |bs|
    ensures Tiled(Remove(bs, i), e)
  {
    var r := Remove(bs, i);
    assert forall k :: 0 <= k < i ==> r[k] == bs[k];
    assert forall k :: i <= k < |r| ==> r[k] == bs[k + 1];
  }

  lemma MarkAligned(bs: seq<Block>, i: nat, used: bool)
    requires Aligned(bs) && i < |bs|
    ensures Aligned(Mark(bs, i, used))
  {
    var m := Mark(bs, i, used);
    forall k | 0 <= k < |m| ensures AlignedAt(m, k) { assert AlignedAt(bs, k); }
  }

  lemma InsertAligned(bs: seq<Block>, i: nat, off: nat)
    requires Aligned(bs) && i < |bs| && off % 4 == 0
    ensures Aligned(Insert(bs, i, off))
  {
    var n := Insert(bs, i, off);
    forall k | 0 <= k < |n| ensures AlignedAt(n, k) {
      if k != i + 1 { assert AlignedAt(bs, if k <= i then k else k - 1); }
    }
  }

  lemma RemoveAligned(bs: seq<Block>, i: nat)
    requires Aligned(bs) && i < |bs|
    ensures Aligned(Remove(bs, i))
  {
    var r := Remove(bs, i);
    forall k | 0 <= k < |r| ensures AlignedAt(r, k) { assert AlignedAt(bs, if k < i then k else k + 1); }
  }

  /** Unlinking free block `i` keeps every pair but the one across it. */
  lemma RemovePair(bs: seq<Block>, i: nat, k: nat)
    requires 0 < i < |bs| && 0 < k < |bs| - 1
    requires if k < i then PairOk(bs, k) else PairOk(bs, k + 1)
    requires k == i ==> bs[i - 1] == bs[i].(off := bs[i - 1].off)
    ensures PairOk(Remove(bs, i), k)
  {
  }

  lemma RemoveLfree(bs: seq<Block>, e: nat, lfree: nat, i: nat)
    requires 0 < i < |bs| && !bs[i].used && !bs[i - 1].used && LfreeOk(bs, e, lfree)
    ensures LfreeOk(Remove(bs, i), e, if lfree == bs[i].off then bs[i - 1].off else lfree)
  {
    var r := Remove(bs, i);
    if lfree == bs[i].off {
      assert r[i - 1] == Block(bs[i - 1].off, false);
    } else if Block(lfree, false) in bs {
      var j :| 0 <= j < |bs| && bs[j] == Block(lfree, false);
      assert r[if j < i then j else j - 1] == bs[j];
    } else {
      var j :| 0 <= j < |bs| && bs[j].used;
      assert r[if j < i then j else j - 1] == bs[j];
    }
  }

  lemma InsertLfree(bs: seq<Block>, e: nat, lfree: nat, i: nat, off: nat)
    requires i < |bs| && LfreeOk(bs, e, lfree)
    ensures LfreeOk(Insert(bs, i, off), e, lfree)
  {
    var n := Insert(bs, i, off);
    if Block(lfree, false) in bs {
      var j :| 0 <= j < |bs| && bs[j] == Block(lfree, false);
      assert n[if j <= i then j else j + 1] == bs[j];
    } else {
      var j :| 0 <= j < |bs| && bs[j].used;
      assert n[if j <= i then j else j + 1] == bs[j];
    }
  }

  // ---------------------------------------------------------------- plug_holes

  /** Free neighbours only across the pairs (i-1, i) and (i, i+1). */
  ghost predicate CoalescedBut(bs: seq<Block>, i: int) {
    forall k :: 0 < k < |bs| && k != i && k != i + 1 ==> PairOk(bs, k)
  }

  /** Free neighbours only across the pair (i-1, i). */
  ghost predicate CoalescedButBefore(bs: seq<Block>, i: int) {
    forall k :: 0 < k < |bs| && k != i ==> PairOk(bs, k)
  }

  lemma ForwardPairs(bs: seq<Block>, i: nat)
    requires i + 1 < |bs| && !bs[i].used && !bs[i + 1].used && CoalescedBut(bs, i)
    ensures CoalescedButBefore(Remove(bs, i + 1), i)
  {
    var f := Remove(bs, i + 1);
    forall k | 0 < k < |f| && k != i ensures PairOk(f, k) {
      assert PairOk(bs, if k < i + 1 then k else k + 1);
      RemovePair(bs, i + 1, k);
    }
  }

  lemma BackwardPairs(bs: seq<Block>, i: nat)
    requires 0 < i < |bs| && !bs[i].used && !bs[i - 1].used && CoalescedButBefore(bs, i)
    ensures Coalesced(Remove(bs, i))
  {
    var f := Remove(bs, i);
    forall k | 0 < k < |f| ensures PairOk(f, k) {
      assert PairOk(bs, if k < i then k else k + 1);
      RemovePair(bs, i, k);
    }
  }

  lemma PlugForwardOk(bs: seq<Block>, e: nat, lfree: nat, i: nat)
    requires Tiled(bs, e) && i < |bs| && !bs[i].used && CoalescedBut(bs, i) && LfreeOk(bs, e, lfree)
    ensures var (f, lf) := PlugForward(bs, lfree, i);
            && Tiled(f, e) && i < |f| && !f[i].used && CoalescedButBefore(f, i)
            && LfreeOk(f, e, lf) && Sum(f, e) == Sum(bs, e)
  {
    if i + 1 < |bs| && !bs[i + 1].used {
      RemoveTiled(bs, e, i + 1);
      RemoveSum(bs, e, i + 1);
      RemoveLfree(bs, e, lfree, i + 1);
      ForwardPairs(bs, i);
    } else if i + 1 < |bs| {
      assert PairOk(bs, i + 1);
    }
  }

  lemma PlugBackwardOk(bs: seq<Block>, e: nat, lfree: nat, i: nat)
    requires Tiled(bs, e) && i < |bs| && !bs[i].used && CoalescedButBefore(bs, i) && LfreeOk(bs, e, lfree)
    ensures var (f, lf) := PlugBackward(bs, lfree, i);
            Tiled(f, e) && Coalesced(f) && LfreeOk(f, e, lf) && Sum(f, e) == Sum(bs, e)
  {
    if i > 0 && !bs[i - 1].used {
      RemoveTiled(bs, e, i);
      RemoveSum(bs, e, i);
      RemoveLfree(bs, e, lfree, i);
      BackwardPairs(bs, i);
    } else if i > 0 {
      assert PairOk(bs, i);
    }
  }

  lemma PlugAligned(bs: seq<Block>, lfree: nat, i: nat)
    requires i < |bs| && Aligned(bs)
    ensures Aligned(Plug(bs, lfree, i).0)
  {
    var f := PlugForward(bs, lfree, i).0;
    if i + 1 < |bs| && !bs[i + 1].used { RemoveAligned(bs, i + 1); }
    if i > 0 && !f[i - 1].used { RemoveAligned(f, i); }
  }

  lemma PlugOk(bs: seq<Block>, e: nat, lfree: nat, i: nat)
    requires Tiled(bs, e) && i < |bs| && !bs[i].used && CoalescedBut(bs, i) && LfreeOk(bs, e, lfree)
    ensures var (f, lf) := Plug(bs, lfree, i);
            Tiled(f, e) && Coalesced(f) && LfreeOk(f, e, lf) && Sum(f, e) == Sum(bs, e)
  {
    PlugForwardOk(bs, e, lfree, i);
    var (f, lf) := PlugForward(bs, lfree, i);
    PlugBackwardOk(f, e, lf, i);
  }

  lemma MakeInv(h: Heap, f: seq<Block>, lf: nat)
    requires MIN <= h.size && h.size % 4 == 0 && h.size + 2 * HDR < WORD
    requires Tiled(f, End(h)) && Aligned(f) && Coalesced(f) && LfreeOk(f, End(h), lf)
    requires h.usedMem == Sum(f, End(h)) <= h.maxMem
    ensures Inv(h.(blocks := f, lfree := lf))
  {
  }

  /** A heap good but for free neighbours around block `i` is good once the holes are plugged. */
  ghost predicate Unplugged(h: Heap, i: nat) {
    && MIN <= h.size && h.size % 4 == 0 && h.size + 2 * HDR < WORD
    && Tiled(h.blocks, End(h)) && Aligned(h.blocks) && i < |h.blocks| && !h.blocks[i].used
    && CoalescedBut(h.blocks, i) && LfreeOk(h.blocks, End(h), h.lfree)
    && h.usedMem == Sum(h.blocks, End(h)) <= h.maxMem
  }

  lemma PluggedInv(h: Heap, i: nat)
    requires Unplugged(h, i)
    ensures Inv(Plugged(h, i))
  {
    PlugOk(h.blocks, End(h), h.lfree, i);
    PlugAligned(h.blocks, h.lfree, i);
    var (f, lf) := Plug(h.blocks, h.lfree, i);
    MakeInv(h, f, lf);
  }

  // ---------------------------------------------------------------- malloc

  lemma {:induction false} NextFreeOk(bs: seq<Block>, e: nat, i: nat)
    ensures var o := NextFree(bs, e, i);
            Block(o, false) in bs || (o == e && forall j :: i <= j < |bs| ==> bs[j].used)
    decreases |bs| - i
  {
    if i < |bs| && bs[i].used { NextFreeOk(bs, e, i + 1); }
  }

  lemma TakeAligned(h: Heap, i: nat, size: nat)
    requires Aligned(h.blocks) && i < |h.blocks| && size % 4 == 0
    ensures Aligned(Taken(h, i, size))
  {
    MarkAligned(h.blocks, i, true);
    assert AlignedAt(h.blocks, i);
    if Splits(h, i, size) { InsertAligned(Mark(h.blocks, i, true), i, h.blocks[i].off + HDR + size); }
  }

  lemma TakeTiled(h: Heap, i: nat, size: nat)
    requires Tiled(h.blocks, End(h)) && i < |h.blocks| && Fits(h, i, size) && 0 < size
    ensures Tiled(Taken(h, i, size), End(h))
  {
    var m, q := Mark(h.blocks, i, true), h.blocks[i].off + HDR + size;
    MarkTiled(h.blocks, End(h), i, true);
    if Splits(h, i, size) {
      InsertTiled(m, End(h), i, q);
      assert Taken(h, i, size) == Insert(m, i, q);
    }
  }

  lemma TakeSum(h: Heap, i: nat, size: nat)
    requires h.usedMem == Sum(h.blocks, End(h)) && i < |h.blocks| && Fits(h, i, size)
    ensures Take(h, i, size).usedMem == Sum(Taken(h, i, size), End(h))
    ensures h.usedMem <= Take(h, i, size).usedMem
  {
    var m := Mark(h.blocks, i, true);
    MarkSum(h.blocks, End(h), i, true);
    if Splits(h, i, size) { InsertSum(m, End(h), i, h.blocks[i].off + HDR + size); }
  }

  lemma TakePairs(h: Heap, i: nat, size: nat)
    requires i < |h.blocks| && !h.blocks[i].used && Coalesced(h.blocks)
    ensures Coalesced(Taken(h, i, size))
  {
    var m := Mark(h.blocks, i, true);
    forall k | 0 < k < |m| ensures PairOk(m, k) { assert PairOk(h.blocks, k); }
    if i + 1 < |m| { assert PairOk(h.blocks, i + 1); }
    if Splits(h, i, size) { InsertPairs(m, i, h.blocks[i].off + HDR + size); }
  }

  /** A free header between two used blocks leaves no free pair. */
  lemma InsertPairs(bs: seq<Block>, i: nat, off: nat)
    requires i < |bs| && Coalesced(bs) && bs[i].used && (i + 1 < |bs| ==> bs[i + 1].used)
    ensures Coalesced(Insert(bs, i, off))
  {
    var n := Insert(bs, i, off);
    forall k | 0 < k < |n| ensures PairOk(n, k) {
      if k <= i { assert PairOk(bs, k); } else if i + 2 < k { assert PairOk(bs, k - 1); }
    }
  }

  lemma TakeLfree(h: Heap, i: nat, size: nat)
    requires Inv(h) && i < |h.blocks| && Fits(h, i, size)
    ensures LfreeOk(Taken(h, i, size), End(h), Take(h, i, size).lfree)
  {
    var m, t := Mark(h.blocks, i, true), Taken(h, i, size);
    assert m[i].used;
    if h.lfree == h.blocks[i].off {
      NextFreeOk(t, End(h), i);
      assert t[i].used;
    } else {
      if Block(h.lfree, false) in h.blocks {
        var k :| 0 <= k < |h.blocks| && h.blocks[k] == Block(h.lfree, false);
        assert m[k] == h.blocks[k];
      }
      if Splits(h, i, size) { InsertLfree(m, End(h), h.lfree, i, h.blocks[i].off + HDR + size); }
    }
  }

  lemma TakeInv(h: Heap, i: nat, size: nat)
    requires Inv(h) && i < |h.blocks| && Fits(h, i, size) && size % 4 == 0 && 0 < size
    ensures Inv(Take(h, i, size))
  {
    TakeTiled(h, i, size);
    TakeAligned(h, i, size);
    TakeSum(h, i, size);
    TakePairs(h, i, size);
    TakeLfree(h, i, size);
  }

  // ---------------------------------------------------------------- free and realloc

  /** Offsets are distinct, so a live block is the one found at its offset. */
  lemma LiveAt(h: Heap, off: nat)
    requires Inv(h) && Live(h, off)
    ensures IndexAt(h.blocks, off) < |h.blocks| && h.blocks[IndexAt(h.blocks, off)] == Block(off, true)
  {
    var k :| 0 <= k < |h.blocks| && h.blocks[k] == Block(off, true);
    var i := IndexAt(h.blocks, off);
    assert i == k;
  }

  lemma ReleasedBlocks(h: Heap, i: nat)
    requires Inv(h) && i < |h.blocks| && h.blocks[i].used
    ensures var g := Released(h, i);
            && Tiled(g.blocks, End(g)) && Aligned(g.blocks) && CoalescedBut(g.blocks, i)
            && LfreeOk(g.blocks, End(g), g.lfree)
  {
    var m, off, g := Mark(h.blocks, i, false), h.blocks[i].off, Released(h, i);
    assert g.blocks == m && End(g) == End(h);
    MarkTiled(h.blocks, End(h), i, false);
    MarkAligned(h.blocks, i, false);
    forall k | 0 < k < |m| && k != i && k != i + 1 ensures PairOk(m, k) { assert PairOk(h.blocks, k); }
    assert m[i] == Block(off, false);
    if off >= h.lfree {
      var k :| 0 <= k < |h.blocks| && h.blocks[k] == Block(h.lfree, false);
      assert m[k] == h.blocks[k];
    }
  }

  lemma ReleasedUnplugged(h: Heap, i: nat)
    requires Inv(h) && i < |h.blocks| && h.blocks[i].used
    ensures Unplugged(Released(h, i), i) && Released(h, i).usedMem <= h.usedMem
  {
    ReleasedBlocks(h, i);
    MarkSum(h.blocks, End(h), i, false);
    assert h.blocks[i].off < Next(h.blocks, End(h), i);
  }

  lemma FreeInv(h: Heap, off: nat)
    requires Inv(h) && Live(h, off)
    ensures Inv(Free(h, off)) && Free(h, off).usedMem <= h.usedMem
  {
    LiveAt(h, off);
    var i := IndexAt(h.blocks, off);
    ReleasedUnplugged(h, i);
    PluggedInv(Released(h, i), i);
  }

  lemma CutBlocks(h: Heap, i: nat, size: nat, q: nat)
    requires Inv(h) && i < |h.blocks| && Shrinkable(h, i, size) && q == h.blocks[i].off + HDR + size
    ensures var n := Insert(h.blocks, i, q);
            && Tiled(n, End(h)) && Aligned(n) && CoalescedBut(n, i + 1) && LfreeOk(n, End(h), h.lfree)
            && i + 1 < |n| && n[i + 1] == Block(q, false)
  {
    var n := Insert(h.blocks, i, q);
    InsertTiled(h.blocks, End(h), i, q);
    assert AlignedAt(h.blocks, i);
    InsertAligned(h.blocks, i, q);
    InsertLfree(h.blocks, End(h), h.lfree, i, q);
    CutPairs(h.blocks, i, q);
  }

  lemma CutPairs(bs: seq<Block>, i: nat, q: nat)
    requires Coalesced(bs) && i < |bs|
    ensures CoalescedBut(Insert(bs, i, q), i + 1)
  {
    var n := Insert(bs, i, q);
    forall k | 0 < k < |n| && k != i + 1 && k != i + 2 ensures PairOk(n, k) {
      assert PairOk(bs, if k <= i then k else k - 1);
    }
  }

  lemma CutSum(h: Heap, i: nat, size: nat, q: nat)
    requires i < |h.blocks| && Shrinkable(h, i, size) && q == h.blocks[i].off + HDR + size
    requires h.usedMem == Sum(h.blocks, End(h))
    ensures CutTo(h, i, size).usedMem == Sum(Insert(h.blocks, i, q), End(h)) <= h.usedMem
  {
    InsertSum(h.blocks, End(h), i, q);
  }

  lemma CutUnplugged(h: Heap, i: nat, size: nat)
    requires Inv(h) && i < |h.blocks| && Shrinkable(h, i, size)
    ensures Unplugged(CutTo(h, i, size), i + 1) && CutTo(h, i, size).usedMem <= h.usedMem
  {
    var q, g := h.blocks[i].off + HDR + size, CutTo(h, i, size);
    CutBlocks(h, i, size, q);
    CutSum(h, i, size, q);
    assert g.blocks == Insert(h.blocks, i, q) && End(g) == End(h) && g.lfree == h.lfree;
  }

  lemma ShrinkInv(h: Heap, i: nat, size: nat)
    requires Inv(h) && i < |h.blocks| && Shrinkable(h, i, size)
    ensures Inv(Shrink(h, i, size)) && Shrink(h, i, size).usedMem <= h.usedMem
  {
    CutUnplugged(h, i, size);
    PluggedInv(CutTo(h, i, size), i + 1);
  }
}
