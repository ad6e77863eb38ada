/** What holds in every state of every run. */
module HeapTraces {
  import opened Common
  import opened HeapModel
  import opened HeapSafety
  import opened HeapSpans
  import opened HeapRuns

  // ---------------------------------------------------------------- lfree is the lowest free block

  lemma MarkRoomy(bs: seq<Block>, e: nat, i: nat, used: bool)
    requires i < |bs| && Roomy(bs, e)
    ensures Roomy(Mark(bs, i, used), e)
  {
    var m := Mark(bs, i, used);
    forall k | 0 <= k < |m| ensures MIN <= Payload(m, e, k) { assert Payload(m, e, k) == Payload(bs, e, k); }
  }

  lemma InsertRoomy(bs: seq<Block>, e: nat, i: nat, off: nat)
    requires i < |bs| && Roomy(bs, e)
    requires bs[i].off + HDR + MIN <= off && off + HDR + MIN <= Next(bs, e, i)
    ensures Roomy(Insert(bs, i, off), e)
  {
    var n := Insert(bs, i, off);
    forall k | 0 <= k < |n| ensures MIN <= Payload(n, e, k) {
      if k != i && k != i + 1 {
        var j := if k < i then k else k - 1;
        InsertKeeps(bs, e, i, off, j);
        assert MIN <= Payload(bs, e, j);
      }
    }
  }

  lemma RemoveRoomy(bs: seq<Block>, e: nat, i: nat)
    requires 0 < i < |bs| && Tiled(bs, e) && Roomy(bs, e)
    ensures Roomy(Remove(bs, i), e)
  {
    var r := Remove(bs, i);
    forall k | 0 <= k < |r| ensures MIN <= Payload(r, e, k) {
      var j := if k < i then k else k + 1;
      assert r[k] == bs[j] && Next(bs, e, j) <= Next(r, e, k);
      assert MIN <= Payload(bs, e, j);
    }
  }

  lemma RemoveLowest(bs: seq<Block>, i: nat, lfree: nat)
    requires i < |bs| && Lowest(bs, lfree)
    ensures Lowest(Remove(bs, i), lfree)
  {
    var r := Remove(bs, i);
    forall k | 0 <= k < |r| && !r[k].used ensures lfree <= r[k].off { assert r[k] == bs[if k < i then k else k + 1]; }
  }

  lemma PlugLowest(bs: seq<Block>, e: nat, lfree: nat, i: nat)
    requires Tiled(bs, e) && i < |bs| && !bs[i].used && CoalescedBut(bs, i) && LfreeOk(bs, e, lfree) && Lowest(bs, lfree)
    ensures var (f, lf) := Plug(bs, lfree, i); Lowest(f, lf)
  {
    var (f, lf) := PlugForward(bs, lfree, i);
    PlugForwardOk(bs, e, lfree, i);
    if i + 1 < |bs| && !bs[i + 1].used {
      RemoveLowest(bs, i + 1, lfree);
      assert lfree <= bs[i].off < bs[i + 1].off;
    }
    if i > 0 && !f[i - 1].used {
      RemoveLowest(f, i, lf);
      assert lf <= f[i - 1].off < f[i].off;
    }
  }

  lemma PlugRoomy(bs: seq<Block>, e: nat, lfree: nat, i: nat)
    requires Tiled(bs, e) && i < |bs| && !bs[i].used && CoalescedBut(bs, i) && LfreeOk(bs, e, lfree) && Roomy(bs, e)
    ensures var (f, lf) := Plug(bs, lfree, i); Roomy(f, e)
  {
    var (f, lf) := PlugForward(bs, lfree, i);
    PlugForwardOk(bs, e, lfree, i);
    if i + 1 < |bs| && !bs[i + 1].used { RemoveRoomy(bs, e, i + 1); }
    if i > 0 && !f[i - 1].used { RemoveRoomy(f, e, i); }
  }

  lemma {:induction false} NextFreeLowest(bs: seq<Block>, e: nat, i: nat, k: nat)
    requires Tiled(bs, e) && i <= k < |bs| && !bs[k].used
    ensures NextFree(bs, e, i) <= bs[k].off
    decreases k - i
  {
    if bs[i].used { NextFreeLowest(bs, e, i + 1, k); } else { assert bs[i].off <= bs[k].off; }
  }

  lemma TakeRoomy(h: Heap, i: nat, size: nat)
    requires Roomy(h.blocks, End(h)) && i < |h.blocks| && Fits(h, i, size) && MIN <= size
    ensures Roomy(Taken(h, i, size), End(h))
  {
    var m := Mark(h.blocks, i, true);
    MarkRoomy(h.blocks, End(h), i, true);
    if Splits(h, i, size) { InsertRoomy(m, End(h), i, h.blocks[i].off + HDR + size); }
  }

  /** A free block behind the taken one is an old one, or the new remainder. */
  lemma TakenFree(h: Heap, i: nat, size: nat, k: nat)
    requires i < |h.blocks| && k < |Taken(h, i, size)| && !Taken(h, i, size)[k].used
    ensures Taken(h, i, size)[k] in h.blocks || (Taken(h, i, size)[k].off == h.blocks[i].off + HDR + size && k == i + 1)
  {
    var t, m := Taken(h, i, size), Mark(h.blocks, i, true);
    if Splits(h, i, size) {
      if k <= i { assert t[k] == m[k]; } else if i + 1 < k { assert t[k] == m[k - 1] == h.blocks[k - 1]; }
    }
  }

  lemma TakeLowest(h: Heap, i: nat, size: nat)
    requires Sharp(h) && i < |h.blocks| && Fits(h, i, size) && size % 4 == 0 && 0 < size
    ensures Lowest(Taken(h, i, size), Take(h, i, size).lfree)
  {
    var t := Taken(h, i, size);
    TakeTiled(h, i, size);
    TakenAt(h, i, size);
    forall k | 0 <= k < |t| && !t[k].used ensures Take(h, i, size).lfree <= t[k].off {
      TakenFree(h, i, size, k);
      if h.lfree == h.blocks[i].off {
        assert i <= k;
        NextFreeLowest(t, End(h), i, k);
      }
    }
  }

  lemma TakeSharp(h: Heap, i: nat, size: nat)
    requires Sharp(h) && i < |h.blocks| && Fits(h, i, size) && size % 4 == 0 && MIN <= size
    ensures Sharp(Take(h, i, size))
    ensures Roomy(h.blocks, End(h)) ==> Strong(Take(h, i, size))
  {
    TakeInv(h, i, size);
    TakeLowest(h, i, size);
    if Roomy(h.blocks, End(h)) { TakeRoomy(h, i, size); }
  }

  lemma MallocSharp(h: Heap, req: nat)
    requires Sharp(h) && req < WORD
    ensures Sharp(Malloc(h, req).0)
    ensures Strong(h) ==> Strong(Malloc(h, req).0)
  {
    if Malloc(h, req).1.Some? {
      MallocOk(h, req);
      WantedOk(req);
      TakeSharp(h, IndexAt(h.blocks, Malloc(h, req).1.value), Wanted(req));
    }
  }

  lemma PluggedSharp(h: Heap, i: nat)
    requires Unplugged(h, i) && Lowest(h.blocks, h.lfree)
    ensures Sharp(Plugged(h, i))
    ensures Roomy(h.blocks, End(h)) ==> Strong(Plugged(h, i))
  {
    PluggedInv(h, i);
    PlugLowest(h.blocks, End(h), h.lfree, i);
    if Roomy(h.blocks, End(h)) { PlugRoomy(h.blocks, End(h), h.lfree, i); }
    var (bs, lf) := Plug(h.blocks, h.lfree, i);
    assert Plugged(h, i).blocks == bs && Plugged(h, i).lfree == lf && End(Plugged(h, i)) == End(h);
  }

  lemma FreeSharp(h: Heap, off: nat)
    requires Sharp(h) && Live(h, off)
    ensures Sharp(Free(h, off))
    ensures Roomy(h.blocks, End(h)) ==> Strong(Free(h, off))
  {
    LiveAt(h, off);
    var i := IndexAt(h.blocks, off);
    ReleasedUnplugged(h, i);
    if Roomy(h.blocks, End(h)) { MarkRoomy(h.blocks, End(h), i, false); }
    assert Released(h, i).blocks == Mark(h.blocks, i, false) && End(Released(h, i)) == End(h);
    PluggedSharp(Released(h, i), i);
  }

  /** The exact fit at the end marker, which the search never looks at. */
  ghost predicate LastFit(h: Heap, j: nat, size: nat) {
    j < |h.blocks| && Fits(h, j, size) && j == |h.blocks| - 1 && Payload(h.blocks, End(h), j) == size
  }

  /**
   Whenever `lfree` is the lowest free block, the block taken is the lowest one that fits below the
   bound of the search; and nothing is returned exactly if no block would serve, or the only one
   that would is an exact fit that ends at the end marker.
   */
  lemma MallocFirstFit(h: Heap, req: nat)
    requires Sharp(h) && 0 < req < WORD
    ensures Malloc(h, req).1.None?
            <==> forall j :: 0 <= j < |h.blocks| && Fits(h, j, Wanted(req)) ==> LastFit(h, j, Wanted(req))
    ensures Malloc(h, req).1.Some? ==>
              var i := IndexAt(h.blocks, Malloc(h, req).1.value);
              && Candidate(h, i, Wanted(req)) && h.blocks[i].off == Malloc(h, req).1.value
              && forall j :: 0 <= j < i ==> !Candidate(h, j, Wanted(req))
  {
    MallocOk(h, req);
    WantedOk(req);
    forall j | 0 <= j < |h.blocks| && Fits(h, j, Wanted(req)) ensures Candidate(h, j, Wanted(req)) <==> !LastFit(h, j, Wanted(req)) {
      assert Next(h.blocks, End(h), j) <= End(h);
    }
  }

  /** A request for all of an empty heap is refused. */
  lemma WholeHeapRefused()
    ensures Strong(Init(1024)) && LastFit(Init(1024), 0, Wanted(1024)) && Malloc(Init(1024), 1024) == (Init(1024), None)
  {
    InitInv(1024);
  }

  // ---------------------------------------------------------------- realloc

  /** Nothing is returned exactly if the block cannot stay and nothing serves as the new one. */
  lemma ReallocFails(h: Heap, off: nat, req: nat)
    requires Sharp(h) && Live(h, off) && 0 < Align4(req) <= h.size
    ensures Realloc(h, off, req).1.None?
            <==> (var (size, room) := (Align4(req), EndOf(h, off) - off - HDR);
                  && size != room && room <= size + HDR + MIN
                  && forall j :: 0 <= j < |h.blocks| && Fits(h, j, Wanted(size)) ==> LastFit(h, j, Wanted(size)))
  {
    LiveAt(h, off);
    AlignMultiple(req);
    MallocFirstFit(h, Align4(req));
  }

  /** A block that can stay does: with the same size nothing happens, otherwise it ends behind the new size. */
  lemma ReallocStays(h: Heap, off: nat, req: nat)
    requires Inv(h) && Live(h, off) && 0 < Align4(req) <= h.size
    ensures var (size, room) := (Align4(req), EndOf(h, off) - off - HDR);
            var (g, r) := Realloc(h, off, req);
            && (r == Some(off) <==> size == room || size + HDR + MIN < room)
            && (size == room ==> g == h)
            && (size + HDR + MIN < room ==> EndOf(g, off) == off + HDR + size && g.maxMem == h.maxMem)
  {
    LiveAt(h, off);
    AlignMultiple(req);
    var (i, size) := (IndexAt(h.blocks, off), Align4(req));
    if size + HDR + MIN < Payload(h.blocks, End(h), i) {
      ReallocShrinks(h, off, size);
    } else if Payload(h.blocks, End(h), i) != size && Malloc(h, size).1.Some? {
      MovedApart(h, off, size);
    }
  }

  /** The block malloc gives: the lowest that serves, cut off behind the size asked for if the rest is worth a block. */
  lemma MallocCuts(h: Heap, req: nat)
    requires Sharp(h) && 0 < req < WORD && Malloc(h, req).1.Some?
    ensures var (g, o, size) := (Malloc(h, req).0, Malloc(h, req).1.value, Wanted(req));
            var i := IndexAt(h.blocks, o);
            && Candidate(h, i, size) && h.blocks[i].off == o && (forall j :: 0 <= j < i ==> !Candidate(h, j, size))
            && EndOf(g, o) == (if size + HDR + MIN <= Payload(h.blocks, End(h), i) then o + HDR + size else Next(h.blocks, End(h), i))
            && g.maxMem == Max(h.maxMem, h.usedMem + (EndOf(g, o) - o))
  {
    MallocFirstFit(h, req);
    MallocOk(h, req);
    WantedOk(req);
    TakenLive(h, IndexAt(h.blocks, Malloc(h, req).1.value), Wanted(req));
  }

  /** What a block that moves leaves behind. */
  lemma MovedEnd(h: Heap, off: nat, size: nat)
    requires Inv(h) && Live(h, off) && 0 < size < WORD && size % 4 == 0 && Malloc(h, size).1.Some?
    ensures var (g, r) := Malloc(h, size);
            var f := Free(g, off);
            EndOf(f, r.value) == EndOf(g, r.value) && !Live(f, off) && f.maxMem == g.maxMem && r.value != off
  {
    var (g, r) := Malloc(h, size);
    var f := Free(g, off);
    MallocKeepsLive(h, off, size);
    MovedApart(h, off, size);
    FreeLiveSet(g, off);
    LiveSetSpans(f, off);
    LiveSpan(g, r.value);
    FreeSpans(g, off);
    SpanLive(f, r.value, EndOf(g, r.value));
  }

  /** A block that moves goes to the lowest one that serves, and for a moment both count as used. */
  lemma ReallocMovesTo(h: Heap, off: nat, req: nat)
    requires Sharp(h) && Live(h, off) && 0 < Align4(req) <= h.size
    requires Realloc(h, off, req).1.Some? && Realloc(h, off, req).1.value != off
    ensures var (g, o, size) := (Realloc(h, off, req).0, Realloc(h, off, req).1.value, Wanted(Align4(req)));
            var i := IndexAt(h.blocks, o);
            && Candidate(h, i, size) && h.blocks[i].off == o && (forall j :: 0 <= j < i ==> !Candidate(h, j, size))
            && EndOf(g, o) == (if size + HDR + MIN <= Payload(h.blocks, End(h), i) then o + HDR + size else Next(h.blocks, End(h), i))
            && !Live(g, off) && g.maxMem == Max(h.maxMem, h.usedMem + (EndOf(g, o) - o))
  {
    AlignMultiple(req);
    MallocCuts(h, Align4(req));
    MovedEnd(h, off, Align4(req));
  }

  // ---------------------------------------------------------------- runs

  /**
   A critical section of the allocator.  `rt_realloc` is one of: nothing, a malloc, a free, a
   shrink, or a malloc and a free that other threads may come between.
   */
  datatype Op = MallocOp(req: nat) | FreeOp(off: nat) | ShrinkOp(off: nat, size: nat)

  ghost predicate Enabled(h: Heap, op: Op) {
    match op
    case MallocOp(req) => req < WORD
    case FreeOp(off) => Live(h, off)
    case ShrinkOp(off, size) =>
      IndexAt(h.blocks, off) < |h.blocks| && Shrinkable(h, IndexAt(h.blocks, off), size)
  }

  ghost predicate Step(h: Heap, op: Op, g: Heap) {
    && Enabled(h, op)
    && match op
       case MallocOp(req) => g == Malloc(h, req).0
       case FreeOp(off) => g == Free(h, off)
       case ShrinkOp(off, size) => g == Shrink(h, IndexAt(h.blocks, off), size)
  }

  ghost predicate StepAt(ops: seq<Op>, hs: seq<Heap>, k: int)
    requires 0 <= k < |ops| < |hs|
  {
    Step(hs[k], ops[k], hs[k + 1])
  }

  /** `hs` are the states of a run of `ops` from a fresh heap of `size` bytes. */
  ghost predicate Run(size: nat, ops: seq<Op>, hs: seq<Heap>) {
    && MIN <= size && size % 4 == 0 && size + 2 * HDR < WORD
    && |hs| == |ops| + 1 && hs[0] == Init(size)
    && forall k :: 0 <= k < |ops| ==> StepAt(ops, hs, k)
  }

  lemma StepInv(h: Heap, op: Op, g: Heap)
    requires Inv(h) && Step(h, op, g)
    ensures Inv(g) && g.maxMem == Max(h.maxMem, g.usedMem) && g.size == h.size
  {
    match op
    case MallocOp(req) => MallocOk(h, req);
    case FreeOp(off) => FreeInv(h, off);
    case ShrinkOp(off, size) => ShrinkInv(h, IndexAt(h.blocks, off), size);
  }

  /** The largest usage in the first `k + 1` states. */
  function Peak(hs: seq<Heap>, k: nat): int
    requires k < |hs|
  {
    if k == 0 then hs[0].usedMem else Max(Peak(hs, k - 1), hs[k].usedMem)
  }

  /** In every state of every run the invariant holds and `max_mem` is the largest usage so far. */
  lemma {:induction false} RunSafe(size: nat, ops: seq<Op>, hs: seq<Heap>, k: nat)
    requires Run(size, ops, hs) && k < |hs|
    ensures Inv(hs[k]) && hs[k].size == size && hs[k].maxMem == Peak(hs, k)
  {
    if k == 0 {
      InitInv(size);
    } else {
      RunSafe(size, ops, hs, k - 1);
      assert StepAt(ops, hs, k - 1);
      StepInv(hs[k - 1], ops[k - 1], hs[k]);
    }
  }

  /** A free block lies below the block at index `i`, or right behind it. */
  ghost predicate NearFree(h: Heap, i: nat) {
    i < |h.blocks| && (h.lfree < h.blocks[i].off || (i + 1 < |h.blocks| && !h.blocks[i + 1].used))
  }

  /** A malloc, a free, or a shrink of such a block. */
  ghost predicate Careful(h: Heap, op: Op) { op.ShrinkOp? ==> NearFree(h, IndexAt(h.blocks, op.off)) }

  lemma StepSharp(h: Heap, op: Op, g: Heap)
    requires Sharp(h) && Step(h, op, g)
    ensures Sharp(g) <==> Careful(h, op)
  {
    StepInv(h, op, g);
    match op
    case MallocOp(req) => MallocSharp(h, req);
    case FreeOp(off) => FreeSharp(h, off);
    case ShrinkOp(off, size) => ShrinkLowest(h, IndexAt(h.blocks, off), size);
  }

  ghost predicate SharpUpTo(hs: seq<Heap>, k: nat)
    requires k < |hs|
  {
    Sharp(hs[k]) && (k == 0 || SharpUpTo(hs, k - 1))
  }

  ghost predicate CarefulUpTo(hs: seq<Heap>, ops: seq<Op>, k: nat)
    requires k <= |ops| < |hs|
  {
    k == 0 || (Careful(hs[k - 1], ops[k - 1]) && CarefulUpTo(hs, ops, k - 1))
  }

  /** `lfree` is the lowest free block in all states up to one exactly if every shrink before it has a free block below or behind. */
  lemma {:induction false} RunLowest(size: nat, ops: seq<Op>, hs: seq<Heap>, k: nat)
    requires Run(size, ops, hs) && k < |hs|
    ensures SharpUpTo(hs, k) <==> CarefulUpTo(hs, ops, k)
  {
    if k == 0 {
      InitInv(size);
    } else {
      RunLowest(size, ops, hs, k - 1);
      assert StepAt(ops, hs, k - 1);
      if Sharp(hs[k - 1]) { StepSharp(hs[k - 1], ops[k - 1], hs[k]); }
    }
  }

  /** The shrunk block and the piece cut off, merged or not, are where they were cut. */
  lemma ShrunkAt(h: Heap, i: nat, size: nat)
    requires Inv(h) && i < |h.blocks| && Shrinkable(h, i, size)
    ensures var g := Shrink(h, i, size);
            i + 1 < |g.blocks| && g.blocks[i] == h.blocks[i] && g.blocks[i + 1].off == h.blocks[i].off + HDR + size && End(g) == End(h)
  {
    var o := h.blocks[i].off + HDR + size;
    var cut := Insert(h.blocks, i, o);
    assert cut[i] == h.blocks[i] && cut[i + 1] == Block(o, false) && i + 2 <= |cut|;
    if i + 2 < |cut| {
      assert cut[i + 2] == h.blocks[i + 1];
      assert Remove(cut, i + 2)[i] == cut[i] && Remove(cut, i + 2)[i + 1] == cut[i + 1];
    }
  }

  lemma PluggedRoomy(h: Heap, i: nat)
    requires Unplugged(h, i) && Roomy(h.blocks, End(h))
    ensures Roomy(Plugged(h, i).blocks, End(h))
  {
    PlugRoomy(h.blocks, End(h), h.lfree, i);
  }

  lemma CutRoomy(h: Heap, i: nat, size: nat)
    requires Inv(h) && Roomy(h.blocks, End(h)) && i < |h.blocks| && Shrinkable(h, i, size) && MIN <= size
    ensures Roomy(CutTo(h, i, size).blocks, End(CutTo(h, i, size))) && End(CutTo(h, i, size)) == End(h)
  {
    InsertRoomy(h.blocks, End(h), i, h.blocks[i].off + HDR + size);
  }

  /** A shrink keeps all payloads at the minimum exactly if the new size is. */
  lemma ShrinkRoomy(h: Heap, i: nat, size: nat)
    requires Inv(h) && Roomy(h.blocks, End(h)) && i < |h.blocks| && Shrinkable(h, i, size)
    ensures Roomy(Shrink(h, i, size).blocks, End(h)) <==> MIN <= size
  {
    if MIN <= size {
      CutRoomy(h, i, size);
      CutUnplugged(h, i, size);
      PluggedRoomy(CutTo(h, i, size), i + 1);
    } else {
      ShrunkAt(h, i, size);
      assert Payload(Shrink(h, i, size).blocks, End(h), i) == size;
    }
  }

  /** Moreover a shrink leaves at least the minimum. */
  ghost predicate Ample(h: Heap, op: Op) { Careful(h, op) && (op.ShrinkOp? ==> MIN <= op.size) }

  lemma StepStrong(h: Heap, op: Op, g: Heap)
    requires Strong(h) && Step(h, op, g)
    ensures Strong(g) <==> Ample(h, op)
  {
    StepSharp(h, op, g);
    match op
    case MallocOp(req) => MallocSharp(h, req);
    case FreeOp(off) => FreeSharp(h, off);
    case ShrinkOp(off, size) =>
      ShrinkRoomy(h, IndexAt(h.blocks, off), size);
      ShrunkAt(h, IndexAt(h.blocks, off), size);
  }

  ghost predicate StrongUpTo(hs: seq<Heap>, k: nat)
    requires k < |hs|
  {
    Strong(hs[k]) && (k == 0 || StrongUpTo(hs, k - 1))
  }

  ghost predicate AmpleUpTo(hs: seq<Heap>, ops: seq<Op>, k: nat)
    requires k <= |ops| < |hs|
  {
    k == 0 || (Ample(hs[k - 1], ops[k - 1]) && AmpleUpTo(hs, ops, k - 1))
  }

  /**
   * `lfree` is the lowest free block and no payload is below the minimum, in all states up to one, exactly if every shrink
   * before it has a free block below or behind and leaves at least the minimum; so in particular without realloc.
   */
  lemma {:induction false} RunStrong(size: nat, ops: seq<Op>, hs: seq<Heap>, k: nat)
    requires Run(size, ops, hs) && k < |hs|
    ensures StrongUpTo(hs, k) <==> AmpleUpTo(hs, ops, k)
  {
    if k == 0 {
      InitInv(size);
    } else {
      RunStrong(size, ops, hs, k - 1);
      assert StepAt(ops, hs, k - 1);
      if Strong(hs[k - 1]) { StepStrong(hs[k - 1], ops[k - 1], hs[k]); }
    }
  }

  /** Realloc keeps it so exactly when a free block lies below the shrunk one, or right behind it. */
  lemma ShrinkLowest(h: Heap, i: nat, size: nat)
    requires Sharp(h) && i < |h.blocks| && Shrinkable(h, i, size)
    ensures Lowest(Shrink(h, i, size).blocks, Shrink(h, i, size).lfree) <==> NearFree(h, i)
  {
    var o := h.blocks[i].off + HDR + size;
    var cut := Insert(h.blocks, i, o);
    assert cut[i] == h.blocks[i] && cut[i + 1] == Block(o, false) && i + 2 <= |cut|;
    assert i + 2 < |cut| ==> cut[i + 2] == h.blocks[i + 1];
    if i + 1 < |h.blocks| && !h.blocks[i + 1].used {
      MergedCut(h, i, size);
    } else {
      assert Shrink(h, i, size).blocks == cut && Shrink(h, i, size).lfree == h.lfree;
      CutLowest(h, i, o);
    }
  }

  lemma CutLowest(h: Heap, i: nat, o: nat)
    requires Sharp(h) && i < |h.blocks| && h.blocks[i].used && h.blocks[i].off < o < Next(h.blocks, End(h), i)
    ensures Lowest(Insert(h.blocks, i, o), h.lfree) <==> h.lfree < h.blocks[i].off
  {
    var cut := Insert(h.blocks, i, o);
    assert cut[i + 1] == Block(o, false);
    if h.lfree < h.blocks[i].off {
      forall k | 0 <= k < |cut| && !cut[k].used ensures h.lfree <= cut[k].off {
        if k != i + 1 { InsertKeeps(h.blocks, End(h), i, o, if k <= i then k else k - 1); }
      }
    } else if Block(h.lfree, false) in h.blocks {
      var k :| 0 <= k < |h.blocks| && h.blocks[k] == Block(h.lfree, false);
      assert i < k;
      assert Next(h.blocks, End(h), i) <= h.blocks[k].off;
    }
  }

  /** The cut piece is merged with the free block behind it, which then is, or lies above, `lfree`. */
  lemma MergedCut(h: Heap, i: nat, size: nat)
    requires Sharp(h) && i + 1 < |h.blocks| && Shrinkable(h, i, size) && !h.blocks[i + 1].used
    ensures Lowest(Shrink(h, i, size).blocks, Shrink(h, i, size).lfree)
  {
    var o := h.blocks[i].off + HDR + size;
    var r := h.blocks[i + 1 := Block(o, false)];
    assert Remove(Insert(h.blocks, i, o), i + 2) == r;
    assert Shrink(h, i, size).blocks == r;
    assert h.lfree <= h.blocks[i + 1].off;
    if Block(h.lfree, false) in h.blocks {
      var k :| 0 <= k < |h.blocks| && h.blocks[k] == Block(h.lfree, false);
      assert k <= i + 1 && k != i;
    }
    forall k | 0 <= k < |r| && !r[k].used ensures Shrink(h, i, size).lfree <= r[k].off {
      if i + 1 < k { assert h.blocks[i + 1].off < h.blocks[k].off; }
    }
  }

  /** Shrinking the only block of a full heap frees space that the next malloc does not find. */
  lemma ShrinkHidesFree()
    ensures var full := Heap(100, [Block(0, true)], 112, 112, 112);
            var h := Heap(100, [Block(0, true), Block(52, false)], 112, 52, 112);
            && Malloc(Init(100), 80) == (full, Some(0)) && Shrink(full, 0, 40) == h
            && Fits(h, 1, 40) && Malloc(h, 40) == (h, None)
  {
    FullHeap();
    var h := Heap(100, [Block(0, true), Block(52, false)], 112, 52, 112);
    assert IndexAt(h.blocks, 112) == 2 by { assert h.blocks[1..] == [Block(52, false)]; }
  }

  lemma FullHeap()
    ensures Malloc(Init(100), 80) == (Heap(100, [Block(0, true)], 112, 112, 112), Some(0))
  {
    var h := Init(100);
    assert FindFit(h, 0, 80) == 0;
    assert Taken(h, 0, 80) == [Block(0, true)];
    assert NextFree([Block(0, true)], 112, 0) == 112;
  }
}
