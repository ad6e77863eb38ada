/**
 A second, simpler view of the heap: the set of spans in use.  The block list adds nothing
 to it (`Canonical`), so an operation on blocks is determined by what it does to the spans.
 */
module HeapSpans {
  import opened HeapModel
  import opened HeapSafety

  /** Header offset and end of every used block. */
  ghost function UsedSpans(bs: seq<Block>, e: nat): set<(nat, nat)> {
    set i | 0 <= i < |bs| && bs[i].used :: (bs[i].off, Next(bs, e, i))
  }

  ghost function Spans(h: Heap): set<(nat, nat)> { UsedSpans(h.blocks, End(h)) }

  // ---------------------------------------------------------------- the block list is determined by its spans

  /** Where block `k` starts, or the end marker. */
  function OffAt(bs: seq<Block>, e: nat, k: nat): nat
    requires k <= |bs|
  {
    if k < |bs| then bs[k].off else e
  }

  /** A used block of `bs` at an offset is a used block of `cs` with the same end. */
  lemma SpanIndex(bs: seq<Block>, cs: seq<Block>, e: nat, k: nat) returns (j: nat)
    requires UsedSpans(bs, e) <= UsedSpans(cs, e) && k < |bs| && bs[k].used
    ensures j < |cs| && cs[j] == bs[k] && Next(cs, e, j) == Next(bs, e, k)
  {
    assert (bs[k].off, Next(bs, e, k)) in UsedSpans(bs, e);
    j :| 0 <= j < |cs| && cs[j].used && (cs[j].off, Next(cs, e, j)) == (bs[k].off, Next(bs, e, k));
  }

  /** Lists that agree below `k` agree on block `k`, if `bs` has one. */
  lemma SameBlock(bs: seq<Block>, cs: seq<Block>, e: nat, k: nat)
    requires Tiled(bs, e) && Tiled(cs, e) && Coalesced(bs) && Coalesced(cs) && UsedSpans(bs, e) == UsedSpans(cs, e)
    requires k < |bs| && k <= |cs| && bs[..k] == cs[..k] && OffAt(bs, e, k) == OffAt(cs, e, k)
    ensures k < |cs| && cs[k] == bs[k] && Next(cs, e, k) == Next(bs, e, k)
  {
    assert k < |cs|;
    if bs[k].used {
      var j := SpanIndex(bs, cs, e, k);
      SameIndex(cs, e, j, k);
    } else {
      if cs[k].used {
        var j := SpanIndex(cs, bs, e, k);
        SameIndex(bs, e, j, k);
        assert false;
      }
      NextNotBelow(bs, cs, e, k);
      NextNotBelow(cs, bs, e, k);
    }
  }

  lemma SameIndex(bs: seq<Block>, e: nat, j: nat, k: nat)
    requires Tiled(bs, e) && j < |bs| && k < |bs| && bs[j].off == bs[k].off
    ensures j == k
  {
  }

  /** Behind a free block at the same place in both lists, `cs` cannot start its next block later than `bs`. */
  lemma NextNotBelow(bs: seq<Block>, cs: seq<Block>, e: nat, k: nat)
    requires Tiled(bs, e) && Tiled(cs, e) && Coalesced(bs) && UsedSpans(bs, e) <= UsedSpans(cs, e)
    requires k < |bs| && k < |cs| && bs[k] == cs[k] && !bs[k].used
    ensures Next(cs, e, k) <= Next(bs, e, k)
  {
    if k + 1 < |bs| {
      assert PairOk(bs, k + 1);
      var j := SpanIndex(bs, cs, e, k + 1);
      assert k < j;
      if k + 1 < j { assert cs[k + 1].off < cs[j].off; }
    } else if k + 1 < |cs| {
      assert cs[k + 1].off < e;
    }
  }

  lemma {:induction false} CanonicalFrom(bs: seq<Block>, cs: seq<Block>, e: nat, k: nat)
    requires Tiled(bs, e) && Tiled(cs, e) && Coalesced(bs) && Coalesced(cs) && UsedSpans(bs, e) == UsedSpans(cs, e)
    requires k <= |bs| && k <= |cs| && bs[..k] == cs[..k] && OffAt(bs, e, k) == OffAt(cs, e, k)
    ensures bs == cs
    decreases |bs| - k
  {
    if k < |bs| {
      SameBlock(bs, cs, e, k);
      assert bs[..k + 1] == bs[..k] + [bs[k]] && cs[..k + 1] == cs[..k] + [cs[k]];
      CanonicalFrom(bs, cs, e, k + 1);
    } else if k < |cs| {
      SameBlock(cs, bs, e, k);
    }
  }

  /** Coalesced tilings with the same used spans are the same list. */
  lemma Canonical(bs: seq<Block>, cs: seq<Block>, e: nat)
    requires Tiled(bs, e) && Tiled(cs, e) && Coalesced(bs) && Coalesced(cs) && UsedSpans(bs, e) == UsedSpans(cs, e)
    ensures bs == cs
  {
    CanonicalFrom(bs, cs, e, 0);
  }

  // ---------------------------------------------------------------- what the operations do to the spans

  lemma MarkSpans(bs: seq<Block>, e: nat, i: nat, used: bool)
    requires Tiled(bs, e) && i < |bs|
    ensures var s := {(bs[i].off, Next(bs, e, i))};
            UsedSpans(Mark(bs, i, used), e) == if used then UsedSpans(bs, e) + s else UsedSpans(bs, e) - s
  {
    var m, s := Mark(bs, i, used), (bs[i].off, Next(bs, e, i));
    forall p | p in UsedSpans(bs, e) && p != s ensures p in UsedSpans(m, e) {
      var k :| 0 <= k < |bs| && bs[k].used && p == (bs[k].off, Next(bs, e, k));
      assert m[k] == bs[k] && Next(m, e, k) == Next(bs, e, k);
    }
    forall p | p in UsedSpans(m, e) ensures if p == s then used else p in UsedSpans(bs, e) {
      var k :| 0 <= k < |m| && m[k].used && p == (m[k].off, Next(m, e, k));
      assert k == i || m[k] == bs[k];
      assert Next(m, e, k) == Next(bs, e, k);
    }
    if used { assert m[i].used && Next(m, e, i) == Next(bs, e, i); }
  }

  lemma InsertKeeps(bs: seq<Block>, e: nat, i: nat, off: nat, k: nat)
    requires i < |bs| && k < |bs| && k != i
    ensures var n, j := Insert(bs, i, off), if k < i then k else k + 1;
            n[j] == bs[k] && Next(n, e, j) == Next(bs, e, k)
  {
  }

  lemma InsertSpans(bs: seq<Block>, e: nat, i: nat, off: nat)
    requires Tiled(bs, e) && i < |bs| && bs[i].used
    ensures UsedSpans(Insert(bs, i, off), e)
            == UsedSpans(bs, e) - {(bs[i].off, Next(bs, e, i))} + {(bs[i].off, off)}
  {
    var n, s := Insert(bs, i, off), (bs[i].off, Next(bs, e, i));
    assert n[i] == bs[i] && Next(n, e, i) == off;
    forall p | p in UsedSpans(bs, e) && p != s ensures p in UsedSpans(n, e) {
      var k :| 0 <= k < |bs| && bs[k].used && p == (bs[k].off, Next(bs, e, k));
      InsertKeeps(bs, e, i, off, k);
    }
    InsertSpansBack(bs, e, i, off);
  }

  lemma InsertSpansBack(bs: seq<Block>, e: nat, i: nat, off: nat)
    requires Tiled(bs, e) && i < |bs| && bs[i].used
    ensures forall p :: p in UsedSpans(Insert(bs, i, off), e) && p != (bs[i].off, off)
              ==> p in UsedSpans(bs, e) && p.0 != bs[i].off
  {
    var n := Insert(bs, i, off);
    forall p | p in UsedSpans(n, e) && p != (bs[i].off, off) ensures p in UsedSpans(bs, e) && p.0 != bs[i].off {
      var j :| 0 <= j < |n| && n[j].used && p == (n[j].off, Next(n, e, j));
      assert n[i] == bs[i] && Next(n, e, i) == off && !n[i + 1].used;
      var k := if j < i then j else j - 1;
      InsertKeeps(bs, e, i, off, k);
      assert bs[k].off != bs[i].off;
    }
  }

  lemma RemoveSpans(bs: seq<Block>, e: nat, i: nat)
    requires 0 < i < |bs| && !bs[i].used && !bs[i - 1].used
    ensures UsedSpans(Remove(bs, i), e) == UsedSpans(bs, e)
  {
    var r := Remove(bs, i);
    forall p | p in UsedSpans(bs, e) ensures p in UsedSpans(r, e) {
      var k :| 0 <= k < |bs| && bs[k].used && p == (bs[k].off, Next(bs, e, k));
      var j := if k < i then k else k - 1;
      assert r[j] == bs[k] && Next(r, e, j) == Next(bs, e, k);
    }
    forall p | p in UsedSpans(r, e) ensures p in UsedSpans(bs, e) {
      var j :| 0 <= j < |r| && r[j].used && p == (r[j].off, Next(r, e, j));
      var k := if j < i then j else j + 1;
      assert r[j] == bs[k] && Next(r, e, j) == Next(bs, e, k);
    }
  }

  lemma ForwardSpans(bs: seq<Block>, e: nat, lfree: nat, i: nat)
    requires i < |bs| && !bs[i].used
    ensures UsedSpans(PlugForward(bs, lfree, i).0, e) == UsedSpans(bs, e)
  {
    if i + 1 < |bs| && !bs[i + 1].used { RemoveSpans(bs, e, i + 1); }
  }

  lemma PlugSpans(bs: seq<Block>, e: nat, lfree: nat, i: nat)
    requires i < |bs| && !bs[i].used
    ensures UsedSpans(Plug(bs, lfree, i).0, e) == UsedSpans(bs, e)
  {
    var f := PlugForward(bs, lfree, i).0;
    ForwardSpans(bs, e, lfree, i);
    if i > 0 && !f[i - 1].used { RemoveSpans(f, e, i); }
  }

  lemma TakeSpans(h: Heap, i: nat, size: nat)
    requires Inv(h) && i < |h.blocks| && Fits(h, i, size)
    ensures var o := h.blocks[i].off;
            var n := if Splits(h, i, size) then o + HDR + size else Next(h.blocks, End(h), i);
            Spans(Take(h, i, size)) == Spans(h) + {(o, n)}
  {
    var m, e := Mark(h.blocks, i, true), End(h);
    MarkTiled(h.blocks, e, i, true);
    MarkSpans(h.blocks, e, i, true);
    if Splits(h, i, size) {
      InsertSpans(m, e, i, h.blocks[i].off + HDR + size);
      FreeSpan(h, i);
    }
  }

  /** No used span starts where a free block does. */
  lemma FreeSpan(h: Heap, i: nat)
    requires Inv(h) && i < |h.blocks| && !h.blocks[i].used
    ensures forall p :: p in Spans(h) ==> p.0 != h.blocks[i].off
  {
    forall p | p in Spans(h) ensures p.0 != h.blocks[i].off {
      var k :| 0 <= k < |h.blocks| && h.blocks[k].used && p == (h.blocks[k].off, Next(h.blocks, End(h), k));
    }
  }

  lemma PluggedSpans(h: Heap, i: nat)
    requires i < |h.blocks| && !h.blocks[i].used
    ensures Spans(Plugged(h, i)) == Spans(h)
  {
    PlugSpans(h.blocks, End(h), h.lfree, i);
    assert Plugged(h, i).blocks == Plug(h.blocks, h.lfree, i).0 && End(Plugged(h, i)) == End(h);
  }

  lemma ReleasedSpans(h: Heap, i: nat)
    requires Inv(h) && i < |h.blocks|
    ensures Spans(Released(h, i)) == Spans(h) - {(h.blocks[i].off, Next(h.blocks, End(h), i))}
  {
    MarkSpans(h.blocks, End(h), i, false);
    assert Released(h, i).blocks == Mark(h.blocks, i, false) && End(Released(h, i)) == End(h);
  }

  lemma FreeSpans(h: Heap, off: nat)
    requires Inv(h) && Live(h, off)
    ensures IndexAt(h.blocks, off) < |h.blocks|
    ensures Spans(Free(h, off)) == Spans(h) - {(off, Next(h.blocks, End(h), IndexAt(h.blocks, off)))}
  {
    LiveAt(h, off);
    var i := IndexAt(h.blocks, off);
    ReleasedSpans(h, i);
    PluggedSpans(Released(h, i), i);
  }

  lemma CutSpans(h: Heap, i: nat, size: nat)
    requires Inv(h) && i < |h.blocks| && h.blocks[i].used
    ensures var o := h.blocks[i].off;
            Spans(CutTo(h, i, size)) == Spans(h) - {(o, Next(h.blocks, End(h), i))} + {(o, o + HDR + size)}
  {
    var off, g := h.blocks[i].off + HDR + size, CutTo(h, i, size);
    InsertSpans(h.blocks, End(h), i, off);
    assert g.blocks == Insert(h.blocks, i, off) && End(g) == End(h);
  }

  lemma ShrinkSpans(h: Heap, i: nat, size: nat)
    requires Inv(h) && i < |h.blocks| && Shrinkable(h, i, size)
    ensures var o := h.blocks[i].off;
            Spans(Shrink(h, i, size)) == Spans(h) - {(o, Next(h.blocks, End(h), i))} + {(o, o + HDR + size)}
  {
    CutSpans(h, i, size);
    CutUnplugged(h, i, size);
    PluggedSpans(CutTo(h, i, size), i + 1);
  }
}
