/** The allocator's promises: one call, a call and its inverse, and whole runs. */
module HeapRuns {
  import opened Common
  import opened HeapModel
  import opened HeapSafety
  import opened HeapSpans

  // ---------------------------------------------------------------- the search

  ghost predicate Candidate(h: Heap, j: nat, size: nat) {
    j < |h.blocks| && Fits(h, j, size) && h.blocks[j].off < h.size - size
  }

  /** The search stops at the first candidate, and misses none. */
  lemma {:induction false} FindFitLeast(h: Heap, i: nat, size: nat)
    requires Inv(h)
    ensures var r := FindFit(h, i, size);
            && (r < |h.blocks| ==> i <= r && Candidate(h, r, size))
            && (forall j :: i <= j < |h.blocks| && j < r ==> !Candidate(h, j, size))
    decreases |h.blocks| - i
  {
    if i < |h.blocks| {
      if h.blocks[i].off >= h.size - size {
        assert forall j :: i < j < |h.blocks| ==> h.blocks[i].off < h.blocks[j].off;
      } else if !Fits(h, i, size) {
        FindFitLeast(h, i + 1, size);
      }
    }
  }

  /** The search starts at `lfree`, which is on the chain or the end marker. */
  lemma StartIndex(h: Heap)
    requires Inv(h)
    ensures forall j :: 0 <= j < |h.blocks| ==> (IndexAt(h.blocks, h.lfree) <= j <==> h.lfree <= h.blocks[j].off)
  {
    var s := IndexAt(h.blocks, h.lfree);
    if Block(h.lfree, false) in h.blocks {
      var k :| 0 <= k < |h.blocks| && h.blocks[k] == Block(h.lfree, false);
      assert s == k;
    } else {
      assert forall j :: 0 <= j < |h.blocks| ==> h.blocks[j].off < h.lfree;
      assert s == |h.blocks|;
    }
  }

  // ---------------------------------------------------------------- malloc

  lemma WantedOk(req: nat)
    requires 0 < req < WORD
    ensures Align4(req) % 4 == 0 && Wanted(req) % 4 == 0 && MIN <= Wanted(req)
    ensures req <= Align4(req) <==> req <= WORD - 4
    ensures req <= WORD - 4 ==> Align4(req) < req + 4
    ensures WORD - 4 < req ==> Align4(req) == 0
  {
  }

  /** `rt_malloc` keeps the invariant, and takes the lowest candidate at or above `lfree`. */
  lemma MallocOk(h: Heap, req: nat)
    requires Inv(h) && req < WORD
    ensures Inv(Malloc(h, req).0)
    ensures var (g, r) := Malloc(h, req);
            match r
            case None =>
              && g == h
              && (req == 0 || h.size < Align4(req)
                  || forall j :: 0 <= j < |h.blocks| && h.lfree <= h.blocks[j].off ==> !Candidate(h, j, Wanted(req)))
            case Some(o) =>
              var i := IndexAt(h.blocks, o);
              && Candidate(h, i, Wanted(req)) && h.lfree <= o && h.blocks[i].off == o && g == Take(h, i, Wanted(req))
              && forall j :: 0 <= j < i && h.lfree <= h.blocks[j].off ==> !Candidate(h, j, Wanted(req))
  {
    if req != 0 && Align4(req) <= h.size {
      var size := Wanted(req);
      WantedOk(req);
      StartIndex(h);
      FindFitLeast(h, IndexAt(h.blocks, h.lfree), size);
      var i := FindFit(h, IndexAt(h.blocks, h.lfree), size);
      if i < |h.blocks| {
        assert IndexAt(h.blocks, h.blocks[i].off) == i;
        TakeInv(h, i, size);
      }
    }
  }

  ghost predicate Disjoint(a: (nat, nat), b: (nat, nat)) { a.1 <= b.0 || b.1 <= a.0 }

  lemma FreeBlockDisjoint(h: Heap, i: nat, p: (nat, nat))
    requires Inv(h) && i < |h.blocks| && !h.blocks[i].used && p in Spans(h)
    ensures Disjoint((h.blocks[i].off, Next(h.blocks, End(h), i)), p)
  {
    var k :| 0 <= k < |h.blocks| && h.blocks[k].used && p == (h.blocks[k].off, Next(h.blocks, End(h), k));
    if k < i { assert Next(h.blocks, End(h), k) <= h.blocks[i].off; }
    else { assert Next(h.blocks, End(h), i) <= h.blocks[k].off; }
  }

  /** What block `i` becomes: header at `o`, end at `n`. */
  function TakenEnd(h: Heap, i: nat, size: nat): nat
    requires i < |h.blocks|
  {
    if Splits(h, i, size) then h.blocks[i].off + HDR + size else Next(h.blocks, End(h), i)
  }

  lemma TakeGrants(h: Heap, i: nat, size: nat)
    requires Inv(h) && i < |h.blocks| && Fits(h, i, size)
    ensures var (o, n) := (h.blocks[i].off, TakenEnd(h, i, size));
            && o % 4 == 0 && o + HDR + size <= n <= End(h)
            && Spans(Take(h, i, size)) == Spans(h) + {(o, n)}
            && (forall p :: p in Spans(h) ==> Disjoint((o, n), p))
  {
    TakeSpans(h, i, size);
    assert AlignedAt(h.blocks, i);
    assert Next(h.blocks, End(h), i) <= End(h);
    forall p | p in Spans(h) ensures Disjoint((h.blocks[i].off, TakenEnd(h, i, size)), p) { FreeBlockDisjoint(h, i, p); }
  }

  /** The block of a non-null result: header offset and end. */
  ghost function Granted(h: Heap, req: nat): (nat, nat)
    requires Malloc(h, req).1.Some?
  {
    var i := FindFit(h, IndexAt(h.blocks, h.lfree), Wanted(req));
    (h.blocks[i].off, TakenEnd(h, i, Wanted(req)))
  }

  /**
   A non-null result is an aligned block inside the heap, disjoint from every live one, that
   holds the request exactly when rounding the request up does not wrap around 2^32.
   */
  lemma MallocGrants(h: Heap, req: nat)
    requires Inv(h) && req < WORD && Malloc(h, req).1.Some?
    ensures var (g, r) := Malloc(h, req);
            var (o, n) := Granted(h, req);
            && r == Some(o) && o % 4 == 0 && (o + HDR) % 4 == 0
            && o + HDR + Wanted(req) <= n <= End(h)
            && (o + HDR + req <= n <==> req <= WORD - 4)
            && Spans(g) == Spans(h) + {(o, n)}
            && (forall p :: p in Spans(h) ==> Disjoint((o, n), p))
  {
    FindFitLeast(h, IndexAt(h.blocks, h.lfree), Wanted(req));
    WantedOk(req);
    TakeGrants(h, FindFit(h, IndexAt(h.blocks, h.lfree), Wanted(req)), Wanted(req));
  }

  /** Four gigabytes less three bytes are asked for, and twelve granted. */
  lemma MallocWraps()
    ensures var h := Init(1024);
            && Inv(h) && Malloc(h, 0xFFFF_FFFD) == (Take(h, 0, MIN), Some(0)) && Granted(h, 0xFFFF_FFFD) == (0, HDR + MIN)
  {
    var h := Init(1024);
    InitInv(1024);
    assert Align4(0xFFFF_FFFD) == 0;
    assert FindFit(h, 0, MIN) == 0;
  }

  lemma InitInv(size: nat)
    requires MIN <= size && size % 4 == 0 && size + 2 * HDR < WORD
    ensures Strong(Init(size)) && Spans(Init(size)) == {}
  {
    assert Init(size).blocks[0] == Block(0, false);
    assert AlignedAt(Init(size).blocks, 0);
  }

  // ---------------------------------------------------------------- a call and its inverse

  /** Freeing what malloc returned restores the blocks, `lfree` and the usage count. */
  lemma MallocFree(h: Heap, req: nat)
    requires Inv(h) && req < WORD && Malloc(h, req).1.Some?
    ensures var (g, r) := Malloc(h, req);
            Live(g, r.value) && Free(g, r.value) == h.(maxMem := g.maxMem)
  {
    var i := FindFit(h, IndexAt(h.blocks, h.lfree), Wanted(req));
    FindFitLeast(h, IndexAt(h.blocks, h.lfree), Wanted(req));
    WantedOk(req);
    StartIndex(h);
    TakeFree(h, i, Wanted(req));
  }

  /** A heap is its spans and its cached pointer, but for the recorded maximum. */
  lemma SpansDecide(f: Heap, h: Heap)
    requires Inv(f) && Inv(h) && f.size == h.size && Spans(f) == Spans(h) && f.lfree == h.lfree
    ensures f == h.(maxMem := f.maxMem)
  {
    Canonical(f.blocks, h.blocks, End(h));
  }

  lemma TakeFree(h: Heap, i: nat, size: nat)
    requires Inv(h) && i < |h.blocks| && Fits(h, i, size) && size % 4 == 0 && 0 < size && h.lfree <= h.blocks[i].off
    ensures var (g, o) := (Take(h, i, size), h.blocks[i].off);
            Live(g, o) && Free(g, o) == h.(maxMem := g.maxMem)
  {
    var g, o := Take(h, i, size), h.blocks[i].off;
    TakeInv(h, i, size);
    TakenLive(h, i, size);
    FreeInv(g, o);
    FreeTakenSpans(h, i, size);
    FreeLfree(h, i, size);
    SpansDecide(Free(g, o), h);
  }

  lemma TakenLive(h: Heap, i: nat, size: nat)
    requires Inv(h) && i < |h.blocks| && Fits(h, i, size) && size % 4 == 0 && 0 < size
    ensures var (g, o) := (Take(h, i, size), h.blocks[i].off);
            Live(g, o) && IndexAt(g.blocks, o) == i < |g.blocks| && Next(g.blocks, End(h), i) == TakenEnd(h, i, size)
  {
    var g, o := Take(h, i, size), h.blocks[i].off;
    TakenAt(h, i, size);
    TakeInv(h, i, size);
    assert g.blocks[i] in g.blocks;
    LiveAt(g, o);
    SameIndex(g.blocks, End(h), IndexAt(g.blocks, o), i);
  }

  lemma FreeTakenSpans(h: Heap, i: nat, size: nat)
    requires Inv(h) && i < |h.blocks| && Fits(h, i, size) && size % 4 == 0 && 0 < size
    requires var (g, o) := (Take(h, i, size), h.blocks[i].off);
             Live(g, o) && IndexAt(g.blocks, o) == i < |g.blocks| && Next(g.blocks, End(h), i) == TakenEnd(h, i, size)
    ensures Spans(Free(Take(h, i, size), h.blocks[i].off)) == Spans(h)
  {
    TakeInv(h, i, size);
    TakeSpans(h, i, size);
    FreeSpans(Take(h, i, size), h.blocks[i].off);
    FreeSpan(h, i);
  }

  lemma TakenAt(h: Heap, i: nat, size: nat)
    requires Inv(h) && i < |h.blocks| && Fits(h, i, size)
    ensures var g := Take(h, i, size);
            && i < |g.blocks| && g.blocks[i] == Block(h.blocks[i].off, true)
            && Next(g.blocks, End(h), i)
               == (if Splits(h, i, size) then h.blocks[i].off + HDR + size else Next(h.blocks, End(h), i))
            && (forall k :: 0 <= k < i ==> g.blocks[k] == h.blocks[k])
  {
  }

  lemma {:induction false} NextFreeAbove(bs: seq<Block>, e: nat, i: nat)
    requires Tiled(bs, e) && i < |bs| && bs[i].used
    ensures bs[i].off < NextFree(bs, e, i)
    decreases |bs| - i
  {
    if i + 1 < |bs| && bs[i + 1].used { NextFreeAbove(bs, e, i + 1); }
  }

  /** The cached pointer comes back: it was the block taken, or lies below it. */
  lemma FreeLfree(h: Heap, i: nat, size: nat)
    requires Inv(h) && i < |h.blocks| && Fits(h, i, size) && size % 4 == 0 && 0 < size && h.lfree <= h.blocks[i].off
    ensures var g := Take(h, i, size);
            Free(g, h.blocks[i].off).lfree == h.lfree
  {
    var g, o := Take(h, i, size), h.blocks[i].off;
    TakenAt(h, i, size);
    TakeInv(h, i, size);
    TakenLive(h, i, size);
    NextFreeAbove(g.blocks, End(h), i);
    if 0 < i { assert PairOk(h.blocks, i); }
    PlugLfree(Mark(g.blocks, i, false), End(h), h.lfree, i);
  }

  /** Plugging holes around block `i` leaves a lower or equal `lfree` alone when the predecessor is used. */
  lemma PlugLfree(bs: seq<Block>, e: nat, lfree: nat, i: nat)
    requires i < |bs| && (0 < i ==> bs[i - 1].used) && lfree <= bs[i].off
    requires i + 1 < |bs| ==> bs[i].off < bs[i + 1].off
    ensures Plug(bs, lfree, i).1 == lfree
  {
  }

  /** The offsets of the live blocks. */
  ghost function LiveSet(h: Heap): set<nat> { set b | b in h.blocks && b.used :: b.off }

  function FreeSeq(h: Heap, order: seq<nat>): Heap
    decreases |order|
  {
    if order == [] then h else FreeSeq(Free(h, order[0]), order[1..])
  }

  lemma LiveSetSpans(h: Heap, off: nat)
    requires Inv(h)
    ensures Live(h, off) <==> off in LiveSet(h)
    ensures Live(h, off) <==> exists n :: (off, n) in Spans(h)
  {
    if Live(h, off) {
      LiveAt(h, off);
      var i := IndexAt(h.blocks, off);
      assert (off, Next(h.blocks, End(h), i)) in Spans(h);
    }
    if exists n :: (off, n) in Spans(h) {
      var n :| (off, n) in Spans(h);
      var k :| 0 <= k < |h.blocks| && h.blocks[k].used && (off, n) == (h.blocks[k].off, Next(h.blocks, End(h), k));
      assert h.blocks[k] == Block(off, true);
    }
  }

  /** Offsets of used spans are distinct. */
  lemma SpanUnique(h: Heap, off: nat, n: nat)
    requires Inv(h) && (off, n) in Spans(h)
    ensures IndexAt(h.blocks, off) < |h.blocks| && n == Next(h.blocks, End(h), IndexAt(h.blocks, off))
  {
    LiveSetSpans(h, off);
    LiveAt(h, off);
    var k :| 0 <= k < |h.blocks| && h.blocks[k].used && (off, n) == (h.blocks[k].off, Next(h.blocks, End(h), k));
    SameIndex(h.blocks, End(h), k, IndexAt(h.blocks, off));
  }

  lemma FreeLiveSet(h: Heap, off: nat)
    requires Inv(h) && Live(h, off)
    ensures Inv(Free(h, off))
    ensures LiveSet(Free(h, off)) == LiveSet(h) - {off}
  {
    FreeInv(h, off);
    FreeSpans(h, off);
    var g := Free(h, off);
    forall x ensures x in LiveSet(g) <==> x in LiveSet(h) && x != off {
      LiveSetSpans(h, x);
      LiveSetSpans(g, x);
      forall n | (x, n) in Spans(h) ensures x == off ==> (x, n) !in Spans(g) { SpanUnique(h, x, n); }
    }
  }

  /** Freeing every live block, in any order, leaves one free block over the whole heap. */
  lemma {:induction false} FreeAll(h: Heap, order: seq<nat>)
    requires Inv(h)
    requires forall i, j :: 0 <= i < j < |order| ==> order[i] != order[j]
    requires LiveSet(h) == set x | x in order
    ensures FreeSeq(h, order) == Init(h.size).(maxMem := h.maxMem)
    decreases |order|
  {
    if order == [] {
      NoneLive(h);
    } else {
      assert order[0] in LiveSet(h);
      LiveSetSpans(h, order[0]);
      FreeLiveSet(h, order[0]);
      RestSet(order);
      FreeAll(Free(h, order[0]), order[1..]);
    }
  }

  lemma RestSet(order: seq<nat>)
    requires order != [] && forall i, j :: 0 <= i < j < |order| ==> order[i] != order[j]
    ensures (set x | x in order[1..]) == (set x | x in order) - {order[0]}
    ensures forall i, j :: 0 <= i < j < |order[1..]| ==> order[1..][i] != order[1..][j]
  {
    assert order == [order[0]] + order[1..];
  }

  lemma NoneLive(h: Heap)
    requires Inv(h) && LiveSet(h) == {}
    ensures h == Init(h.size).(maxMem := h.maxMem)
  {
    assert forall b :: b in h.blocks && b.used ==> b.off in LiveSet(h);
    InitInv(h.size);
    Canonical(h.blocks, [Block(0, false)], End(h));
    assert h.blocks[0] == Block(0, false);
  }

  // ---------------------------------------------------------------- realloc

  lemma AlignMultiple(n: nat)
    ensures Align4(n) % 4 == 0 && Align4(n) < WORD
  {
  }

  lemma AlignAligned(n: nat)
    requires n < WORD && n % 4 == 0
    ensures Align4(n) == n
  {
  }

  /** The end of the live block at `off`. */
  function EndOf(h: Heap, off: nat): nat {
    var i := IndexAt(h.blocks, off);
    if i < |h.blocks| then Next(h.blocks, End(h), i) else 0
  }

  /** The live spans other than that of the block at `off`. */
  ghost function Others(h: Heap, off: nat): set<(nat, nat)> { Spans(h) - {(off, EndOf(h, off))} }

  lemma SpanLive(h: Heap, off: nat, n: nat)
    requires Inv(h) && (off, n) in Spans(h)
    ensures Live(h, off) && EndOf(h, off) == n
  {
    LiveSetSpans(h, off);
    SpanUnique(h, off, n);
  }

  lemma LiveSpan(h: Heap, off: nat)
    requires Inv(h) && Live(h, off)
    ensures (off, EndOf(h, off)) in Spans(h) && off < EndOf(h, off)
  {
    LiveAt(h, off);
  }

  /** A block already there keeps its place when another one is allocated. */
  lemma MallocKeepsLive(h: Heap, off: nat, req: nat)
    requires Inv(h) && Live(h, off) && req < WORD && Malloc(h, req).1.Some?
    ensures var g := Malloc(h, req).0;
            && Inv(g) && Live(g, off) && EndOf(g, off) == EndOf(h, off) && (off, EndOf(h, off)) in Spans(h)
            && Live(g, Malloc(h, req).1.value) && Granted(h, req).1 == EndOf(g, Malloc(h, req).1.value)
  {
    var (g, r) := Malloc(h, req);
    MallocOk(h, req);
    MallocGrants(h, req);
    LiveSpan(h, off);
    SpanLive(g, off, EndOf(h, off));
    SpanLive(g, Granted(h, req).0, Granted(h, req).1);
  }

  /**
   `rt_realloc` of a live block.  A non-null result is a block of at least the new size that takes
   the place of the old one among the live spans; a null result leaves the heap as it was,
   except for a request that rounds to 0, which frees the block.
   */
  lemma ReallocOk(h: Heap, off: nat, req: nat)
    requires Inv(h) && Live(h, off) && req < WORD
    ensures var (g, r) := Realloc(h, off, req);
            && Inv(g)
            && (r.None? ==> g == if Align4(req) == 0 then Free(h, off) else h)
            && (r.Some? ==> && Live(g, r.value) && r.value + HDR + Align4(req) <= EndOf(g, r.value)
                            && Spans(g) == Others(h, off) + {(r.value, EndOf(g, r.value))})
  {
    LiveAt(h, off);
    var i, size := IndexAt(h.blocks, off), Align4(req);
    AlignMultiple(req);
    if size <= h.size {
      if size == 0 {
        FreeInv(h, off);
      } else if Payload(h.blocks, End(h), i) == size {
        LiveSpan(h, off);
      } else if size + HDR + MIN < Payload(h.blocks, End(h), i) {
        ReallocShrinks(h, off, size);
      } else if Malloc(h, size).1.Some? {
        ReallocMoves(h, off, size);
      }
    }
  }

  lemma ReallocShrinks(h: Heap, off: nat, size: nat)
    requires Inv(h) && Live(h, off) && IndexAt(h.blocks, off) < |h.blocks|
    requires Shrinkable(h, IndexAt(h.blocks, off), size)
    ensures var g := Shrink(h, IndexAt(h.blocks, off), size);
            && Inv(g) && Live(g, off) && EndOf(g, off) == off + HDR + size
            && Spans(g) == Others(h, off) + {(off, EndOf(g, off))}
  {
    var i := IndexAt(h.blocks, off);
    ShrinkInv(h, i, size);
    ShrinkSpans(h, i, size);
    LiveAt(h, off);
    LastSpan(Shrink(h, i, size), off, off + HDR + size, Others(h, off));
  }

  lemma LastSpan(g: Heap, off: nat, n: nat, others: set<(nat, nat)>)
    requires Inv(g) && Spans(g) == others + {(off, n)}
    ensures Live(g, off) && EndOf(g, off) == n
  {
    SpanLive(g, off, n);
  }

  lemma ReallocMoves(h: Heap, off: nat, size: nat)
    requires Inv(h) && Live(h, off) && 0 < size < WORD && size % 4 == 0 && Malloc(h, size).1.Some?
    ensures var (g, r) := Malloc(h, size);
            var f := Free(g, off);
            && Inv(f) && Live(g, off) && r.value != off && Live(f, r.value) && r.value + HDR + size <= EndOf(f, r.value)
            && Spans(f) == Others(h, off) + {(r.value, EndOf(f, r.value))}
  {
    var (g, r) := Malloc(h, size);
    var f, o := Free(g, off), r.value;
    MallocKeepsLive(h, off, size);
    MallocGrants(h, size);
    AlignAligned(size);
    FreeInv(g, off);
    FreeSpans(g, off);
    MovedApart(h, off, size);
    SpanLive(f, o, Granted(h, size).1);
  }

  lemma MovedApart(h: Heap, off: nat, size: nat)
    requires Inv(h) && Live(h, off) && 0 < size < WORD && Malloc(h, size).1.Some?
    ensures Malloc(h, size).1.value != off && Granted(h, size) !in Spans(h)
    ensures Disjoint(Granted(h, size), (off, EndOf(h, off)))
  {
    MallocGrants(h, size);
    MallocKeepsLive(h, off, size);
    assert Disjoint(Granted(h, size), (off, EndOf(h, off)));
    LiveSpan(h, off);
  }

  /** A null result of a nonzero request means the block is intact, exactly when rounding does not wrap. */
  lemma ReallocNull(h: Heap, off: nat, req: nat)
    requires Inv(h) && Live(h, off) && 0 < req < WORD
    ensures (Realloc(h, off, req).1.None? ==> Live(Realloc(h, off, req).0, off)) <==> req <= WORD - 4
  {
    ReallocOk(h, off, req);
    WantedOk(req);
    FreeLiveSet(h, off);
    LiveSetSpans(Free(h, off), off);
  }

  /** `rt_calloc` grants as much as its two arguments ask for exactly when neither their product nor its rounding wraps. */
  lemma CallocGrants(h: Heap, count: nat, size: nat)
    requires Inv(h) && Malloc(h, count * size % WORD).1.Some?
    ensures var (o, n) := Granted(h, count * size % WORD);
            o + HDR + count * size <= n <==> count * size <= WORD - 4
  {
    WrappedGrants(h, count * size);
  }

  lemma WrappedGrants(h: Heap, bytes: nat)
    requires Inv(h) && Malloc(h, bytes % WORD).1.Some?
    ensures var (o, n) := Granted(h, bytes % WORD); o + HDR + bytes <= n <==> bytes <= WORD - 4
  {
    MallocGrants(h, bytes % WORD);
  }

  /** A product that wraps to 2, and one that does not wrap but rounds to 0: each is granted twelve bytes. */
  lemma CallocWraps()
    ensures var h := Init(1024);
            && Inv(h) && 3 * 0x5555_5556 % WORD == 2 && 1 * 0xFFFF_FFFD % WORD == 0xFFFF_FFFD
            && Malloc(h, 2) == (Take(h, 0, MIN), Some(0)) && Granted(h, 2) == (0, HDR + MIN)
            && Malloc(h, 0xFFFF_FFFD) == (Take(h, 0, MIN), Some(0)) && Granted(h, 0xFFFF_FFFD) == (0, HDR + MIN)
  {
    MallocWraps();
    InitInv(1024);
  }
}
