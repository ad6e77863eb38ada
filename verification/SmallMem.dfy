/** The small-memory allocator over its bytes: each entry point refines its specification on block lists. */
module SmallMemory {
  import opened Common
  import opened HeapModel
  import opened HeapSafety
  import opened HeapSpans
  import opened HeapBytes
  import opened HeapLinks
  import opened HeapRuns

  /** All that freeing needs and does. */
  lemma FreeOk(h: Heap, off: nat)
    requires Inv(h) && Live(h, off)
    ensures var i := IndexAt(h.blocks, off);
            && i < |h.blocks| && h.blocks[i] == Block(off, true) && Inv(HeapModel.Free(h, off))
            && Spans(HeapModel.Free(h, off)) <= Spans(h)
            && Spans(HeapModel.Free(h, off)) == Spans(Released(h, i))
  {
    var i := IndexAt(h.blocks, off);
    LiveAt(h, off);
    FreeInv(h, off);
    FreeSpans(h, off);
    ReleasedSpans(h, i);
  }

  /** The search starts on the chain. */
  lemma StartAt(h: Heap)
    requires Inv(h)
    ensures OffAt(h.blocks, End(h), IndexAt(h.blocks, h.lfree)) == h.lfree
  {
    if Block(h.lfree, false) in h.blocks {
      var k :| 0 <= k < |h.blocks| && h.blocks[k] == Block(h.lfree, false);
    }
  }

  /** What `Carve` needs. */
  lemma CarveOk(h: Heap, hs: Heads, i: nat, sz: nat)
    requires Inv(h) && i < |h.blocks| && Fits(h, i, sz) && sz % 4 == 0 && 0 < sz
    requires Linked(hs, h.blocks, End(h))
    ensures var (m, q) := (Mark(h.blocks, i, true), h.blocks[i].off + HDR + sz);
            && m[i].off == h.blocks[i].off && Clear(m[i].off, Spans(h)) && Clear(Next(m, End(h), i), Spans(h))
            && (Splits(h, i, sz) ==> Clear(q, Spans(h)) && q + HDR < Next(m, End(h), i))
  {
    HeaderClear(h.blocks, End(h), i);
    HeaderClear(h.blocks, End(h), i + 1);
    assert Next(Mark(h.blocks, i, true), End(h), i) == Next(h.blocks, End(h), i);
    if Splits(h, i, sz) { RoomFor(hs, h.blocks, End(h), i, h.blocks[i].off + HDR + sz); }
  }

  lemma CarveSteps(h0: Heap, h1: Heap, h2: Heap, i: nat, sz: nat, q: nat)
    requires i < |h0.blocks| && h1 == h0.(blocks := Mark(h0.blocks, i, true)) && q == h0.blocks[i].off + HDR + sz
    requires h2 == if Splits(h0, i, sz) then h1.(blocks := Insert(h1.blocks, i, q)) else h1
    ensures h2 == h0.(blocks := Taken(h0, i, sz)) && i < |h2.blocks| && h2.blocks[i].off == h0.blocks[i].off
  {
    var bs := Mark(h0.blocks, i, true);
    assert h1.blocks == bs;
    assert Taken(h0, i, sz) == if Splits(h0, i, sz) then Insert(bs, i, q) else bs;
  }

  lemma TakeSteps(h0: Heap, h1: Heap, h2: Heap, i: nat, sz: nat, span: nat, lf: nat)
    requires i < |h0.blocks| && Fits(h0, i, sz) && h1 == h0.(blocks := Taken(h0, i, sz))
    requires span == TakenEnd(h0, i, sz) - h0.blocks[i].off
    requires lf == if h0.blocks[i].off == h0.lfree then NextFree(h1.blocks, End(h1), i) else h0.lfree
    requires h2 == h1.(lfree := lf, usedMem := h0.usedMem + span, maxMem := Max(h0.maxMem, h0.usedMem + span))
    ensures h2 == Take(h0, i, sz)
  {
  }

  lemma ShrinkOk(h: Heap, i: nat, sz: nat, q: nat)
    requires Inv(h) && i < |h.blocks| && Shrinkable(h, i, sz) && q == h.blocks[i].off + HDR + sz
    ensures var n := Insert(h.blocks, i, q);
            && n[i + 1] == Block(q, false) && h.blocks[i].off + HDR < q && q + HDR < Next(h.blocks, End(h), i)
            && Clear(h.blocks[i].off, UsedSpans(n, End(h))) && Clear(q, UsedSpans(n, End(h)))
            && Clear(Next(h.blocks, End(h), i), UsedSpans(n, End(h)))
  {
    var n, e := Insert(h.blocks, i, q), End(h);
    CutBlocks(h, i, sz, q);
    ClearAround(h.blocks, e, i, q);
  }

  lemma ClearAround(bs: seq<Block>, e: nat, i: nat, q: nat)
    requires i < |bs| && Tiled(Insert(bs, i, q), e)
    ensures var spans := UsedSpans(Insert(bs, i, q), e);
            Clear(bs[i].off, spans) && Clear(q, spans) && Clear(Next(bs, e, i), spans)
  {
    var n := Insert(bs, i, q);
    HeaderClear(n, e, i);
    HeaderClear(n, e, i + 1);
    HeaderClear(n, e, i + 2);
    assert OffAt(n, e, i) == bs[i].off && OffAt(n, e, i + 1) == q && OffAt(n, e, i + 2) == Next(bs, e, i);
  }

  lemma CutSteps(h0: Heap, h: Heap, i: nat, sz: nat, q: nat)
    requires i < |h0.blocks| && q == h0.blocks[i].off + HDR + sz
    requires h.size == h0.size && h.blocks == Insert(h0.blocks, i, q) && h.lfree == h0.lfree
    requires h.usedMem == h0.usedMem - (Next(h0.blocks, End(h0), i) - h0.blocks[i].off - HDR - sz) && h.maxMem == h0.maxMem
    ensures h == CutTo(h0, i, sz)
  {
  }

  /** All that shrinking needs and does. */
  lemma ShrunkOk(h: Heap, i: nat, sz: nat)
    requires Inv(h) && i < |h.blocks| && Shrinkable(h, i, sz)
    ensures var g := CutTo(h, i, sz);
            && i + 1 < |g.blocks| && g.blocks[i + 1] == Block(h.blocks[i].off + HDR + sz, false)
            && Inv(Shrink(h, i, sz)) && Spans(Shrink(h, i, sz)) == Spans(g)
  {
    CutBlocks(h, i, sz, h.blocks[i].off + HDR + sz);
    CutUnplugged(h, i, sz);
    PluggedSpans(CutTo(h, i, sz), i + 1);
    ShrinkInv(h, i, sz);
  }

  /** A payload holds no header. */
  lemma PayloadApart(bs: seq<Block>, e: nat, hs: Heads, i: nat, at: nat, n: nat)
    requires Tiled(bs, e) && hs.Keys == Offsets(bs) + {e} && i < |bs| && bs[i].off + HDR <= at && at + n <= Next(bs, e, i)
    ensures forall q :: q in hs ==> at + n <= q || q + HDR <= at
  {
    assert Next(bs, e, i) <= e;
    forall q | q in hs ensures at + n <= q || q + HDR <= at {
      if q != e { var k :| 0 <= k < |bs| && bs[k].off == q; }
    }
  }

  /** Nor does it share a byte with another one. */
  lemma SpansApart(bs: seq<Block>, e: nat, i: nat, s: (nat, nat))
    requires Tiled(bs, e) && i < |bs| && s in UsedSpans(bs, e) && s.0 != bs[i].off
    ensures Disjoint((bs[i].off, Next(bs, e, i)), s)
  {
    var k :| 0 <= k < |bs| && bs[k].used && s == (bs[k].off, Next(bs, e, k));
    assert k < i ==> Next(bs, e, k) <= bs[i].off;
    assert i < k ==> Next(bs, e, i) <= bs[k].off;
  }

  lemma WriteKept(m: seq<Byte>, p: nat, b: seq<Byte>, span: (nat, nat), spans: set<(nat, nat)>)
    requires p + |b| <= |m| && span.0 + HDR <= p && p + |b| <= span.1
    requires forall s :: s in spans ==> Disjoint(span, s)
    ensures Kept(m, Write(m, p, b), spans)
  {
    var r := Write(m, p, b);
    forall s | s in spans ensures SpanBytes(m, s) == SpanBytes(r, s) { WriteSpan(m, p, b, s); }
  }

  /** What the moving path of `rt_realloc` relies on: `g` is the heap after the malloc, `f` after the free. */
  lemma MoveOk(h: Heap, ptr: nat, sz: nat)
    requires Inv(h) && Live(h, ptr) && 0 < sz < WORD && sz % 4 == 0 && HeapModel.Malloc(h, sz).1.Some?
    ensures var (g, r) := HeapModel.Malloc(h, sz);
            var (f, o, end) := (HeapModel.Free(g, ptr), r.value, EndOf(h, ptr));
            var j := IndexAt(g.blocks, o);
            && Live(g, ptr) && Live(g, o) && o != ptr && j < |g.blocks| && g.blocks[j].off == o
            && sz <= Payload(g.blocks, End(g), j) && End(g) == End(h)
            && (ptr, end) in Spans(h) && ptr + HDR < end <= End(h)
            && Others(h, ptr) <= Spans(g) && Others(h, ptr) <= Spans(f) && (forall s :: s in Others(h, ptr) ==> s.0 != o)
            && (o, EndOf(g, o)) in Spans(f) && o + HDR + sz <= EndOf(g, o) <= End(h)
  {
    var (g, r) := HeapModel.Malloc(h, sz);
    var o, end := r.value, EndOf(h, ptr);
    MallocKeepsLive(h, ptr, sz);
    MallocGrants(h, sz);
    AlignAligned(sz);
    MovedApart(h, ptr, sz);
    LiveAt(g, o);
    LiveAt(h, ptr);
    FreeSpans(g, ptr);
    forall s | s in Spans(h) ensures s.0 != o { StartsApart(h, s); }
  }

  lemma StartsApart(h: Heap, s: (nat, nat))
    requires Inv(h) && s in Spans(h)
    ensures s.0 + HDR < s.1 <= End(h)
  {
    var k :| 0 <= k < |h.blocks| && h.blocks[k].used && s == (h.blocks[k].off, Next(h.blocks, End(h), k));
  }

  /** The first `n` payload bytes of a kept span. */
  lemma KeptSlice(m: seq<Byte>, r: seq<Byte>, spans: set<(nat, nat)>, o: nat, end: nat, n: nat)
    requires Kept(m, r, spans) && (o, end) in spans && o + HDR + n <= end <= |m|
    ensures Copied(m, o, r, o, n)
  {
    var s := (o, end);
    assert SpanBytes(m, s) == SpanBytes(r, s);
    assert Slice(r, o + HDR, n) == SpanBytes(r, s)[..n] && Slice(m, o + HDR, n) == SpanBytes(m, s)[..n];
  }

  /** The `n` bytes at `p` are `b`. */
  ghost predicate SliceIs(m: seq<Byte>, p: nat, n: nat, b: seq<Byte>) { Slice(m, p, n) == b }

  /** The first `n` bytes of the block at `to` in `r` are those of the block at `from` in `m`. */
  ghost predicate Copied(m: seq<Byte>, from: nat, r: seq<Byte>, to: nat, n: nat) {
    Slice(r, to + HDR, n) == Slice(m, from + HDR, n)
  }

  lemma CopiedBy(m0: seq<Byte>, m1: seq<Byte>, m2: seq<Byte>, from: nat, to: nat, n: nat, b: seq<Byte>)
    requires Copied(m0, from, m1, from, n) && SliceIs(m1, from + HDR, n, b) && SliceIs(m2, to + HDR, n, b)
    ensures Copied(m0, from, m2, to, n)
  {
  }

  lemma CopiedKept(m0: seq<Byte>, m1: seq<Byte>, m2: seq<Byte>, from: nat, to: nat, n: nat)
    requires Copied(m0, from, m1, to, n) && Copied(m1, to, m2, to, n)
    ensures Copied(m0, from, m2, to, n)
  {
  }

  /** How many bytes of the block at `off` a resize to `sz` bytes keeps. */
  function KeptBytes(h: Heap, off: nat, sz: nat): nat {
    if off + HDR + sz <= EndOf(h, off) then sz else Max(EndOf(h, off) - off - HDR, 0)
  }

  /** Every byte that lies in the old block and in the new size is kept. */
  lemma KeptBytewise(h: Heap, off: nat, sz: nat, m: seq<Byte>, r: seq<Byte>, to: nat, i: nat)
    requires Inv(h) && Live(h, off) && EndOf(h, off) <= |m| && to + HDR + sz <= |r| && Copied(m, off, r, to, KeptBytes(h, off, sz))
    requires i < sz && off + HDR + i < EndOf(h, off)
    ensures r[to + HDR + i] == m[off + HDR + i]
  {
    var n := KeptBytes(h, off, sz);
    assert i < n;
    assert Slice(r, to + HDR, n)[i] == Slice(m, off + HDR, n)[i];
  }

  lemma ResizeShrinks(h: Heap, off: nat, sz: nat, i: nat)
    requires Inv(h) && Live(h, off) && i == IndexAt(h.blocks, off) < |h.blocks| && Shrinkable(h, i, sz)
    ensures var g := Shrink(h, i, sz);
            (off, EndOf(g, off)) in Spans(g) && EndOf(g, off) == off + HDR + sz <= End(h) && Others(h, off) <= Spans(g)
  {
    ReallocShrinks(h, off, sz);
  }

  lemma FreeOthers(h: Heap, off: nat)
    requires Inv(h) && Live(h, off)
    ensures Others(h, off) <= Spans(HeapModel.Free(h, off))
  {
    FreeSpans(h, off);
  }

  lemma InitLinked(hs: Heads, size: nat)
    requires hs == map[0 := Header(MAGIC, 0, size + HDR, 0), size + HDR := Header(MAGIC, 1, size + HDR, size + HDR)]
    ensures Linked(hs, [Block(0, false)], size + HDR)
  {
    var bs := [Block(0, false)];
    assert HeadOk(hs, bs, size + HDR, 0);
    assert bs[0] in bs;
    assert Offsets(bs) == {0};
  }

  function Zeros(n: nat): (z: seq<Byte>)
    ensures |z| == n
  {
    seq(n, _ => 0)
  }

  /** What zeroing a new block relies on. */
  lemma CallocOk(h: Heap, total: nat)
    requires Inv(h) && total <= WORD - 4 && HeapModel.Malloc(h, total).1.Some?
    ensures var (g, r) := HeapModel.Malloc(h, total);
            var j := IndexAt(g.blocks, r.value);
            && Spans(h) <= Spans(g) && j < |g.blocks| && g.blocks[j].off == r.value
            && total <= Payload(g.blocks, End(g), j) && (forall s :: s in Spans(h) ==> s.0 != r.value)
  {
    var (g, r) := HeapModel.Malloc(h, total);
    var (o, n) := Granted(h, total);
    MallocOk(h, total);
    MallocGrants(h, total);
    SpanLive(g, o, n);
    LiveAt(g, o);
    forall s | s in Spans(h) ensures s.0 != o { StartsApart(h, s); }
  }

  class SmallMem {
    const base: nat          // heap_ptr
    const size: nat          // mem_size_aligned
    const mem: array<Byte>   // the bytes from heap_ptr to the end of the end marker
    var lfree: nat           // as an offset from heap_ptr
    var usedMem: int
    var maxMem: int
    ghost var heads: Heads   // the headers that the bytes hold
    ghost var h: Heap        // the heap they encode

    /** A fresh heap of `size` bytes at the aligned address `base`, as `rt_system_heap_init` leaves it. */
    constructor (base: nat, size: nat)
      requires base % 4 == 0 && size % 4 == 0 && base + size + 2 * HDR < WORD
      ensures this.base == base && this.size == size && fresh(mem) && mem.Length == size + 2 * HDR
      ensures MIN <= size ==> Valid() && h == Init(size)
    {
      this.base, this.size := base, size;
      mem := new Byte[size + 2 * HDR];
      lfree, usedMem, maxMem := 0, 0, 0;
      heads, h := map[], Init(size);
      new;
      Store(0, Header(MAGIC, 0, size + HDR, 0), {});
      Store(size + HDR, Header(MAGIC, 1, size + HDR, size + HDR), {});
      if MIN <= size {
        InitInv(size);
        InitLinked(heads, size);
      }
    }

    /** The bytes hold `heads`. */
    ghost predicate Held()
      reads this`heads, mem
    {
      mem.Length == size + 2 * HDR && Holds(mem[..], heads)
    }

    /** The bytes are a linked chain of the blocks of `h`. */
    ghost predicate Wired()
      reads this, mem
    {
      && base % 4 == 0 && base + size + 2 * HDR < WORD
      && h.size == size && h.lfree == lfree
      && Held() && Tiled(h.blocks, End(h)) && Linked(heads, h.blocks, End(h))
    }

    ghost predicate Valid()
      reads this, mem
    {
      Wired() && Inv(h) && h.usedMem == usedMem && h.maxMem == maxMem
    }

    method Load(p: nat) returns (x: Header)
      requires Held() && p in heads
      ensures x == heads[p] && Encodable(x) && ApartFrom(p, heads) && p + HDR <= mem.Length
    {
      assert HoldsAt(mem[..], p, heads[p]);
      x := HeaderAt(mem[..], p);
    }

    method WriteBytes(p: nat, b: seq<Byte>)
      requires p + |b| <= mem.Length
      modifies mem
      ensures mem[..] == Write(old(mem[..]), p, b)
    {
      for k := 0 to |b|
        invariant forall j :: 0 <= j < mem.Length ==> mem[j] == if p <= j < p + k then b[j - p] else old(mem[j])
      {
        mem[p + k] := b[k];
      }
    }

    /** Writes a header; the payloads of `spans`, in none of which it lies, are kept. */
    method Store(p: nat, x: Header, ghost spans: set<(nat, nat)>)
      requires Held() && p + HDR <= mem.Length && Encodable(x) && Clear(p, spans)
      requires ApartFrom(p, heads)
      modifies mem, this`heads
      ensures Held() && heads == old(heads)[p := x] && Kept(old(mem[..]), mem[..], spans)
    {
      PutHolds(mem[..], heads, p, x);
      PutKept(mem[..], p, x, spans);
      WriteBytes(p, Encode(x));
      heads := heads[p := x];
    }

    /** Links the header at `p` to the successor of the one at `q`, both ways. */
    method LinkPast(p: nat, q: nat, ghost spans: set<(nat, nat)>)
      requires Held() && p in heads && q in heads && heads[q].next in heads && p < WORD
      requires Clear(p, spans) && Clear(heads[q].next, spans)
      modifies mem, this`heads
      ensures Held() && heads == Unlink(old(heads), p, q) && Kept(old(mem[..]), mem[..], spans)
    {
      var x := Load(q);
      var y := Load(p);
      Store(p, y.(next := x.next), spans);
      y := Load(x.next);
      Store(x.next, y.(prev := p), spans);
      DropHolds(mem[..], heads, q);
      heads := heads - {q};
    }

    /** Puts a free header at `q` between the one at `p` and its successor. */
    method LinkIn(p: nat, q: nat, ghost spans: set<(nat, nat)>)
      requires Held() && p in heads && heads[p].next in heads && p < WORD && q < WORD && q != p && q + HDR <= mem.Length
      requires q != heads[p].next && heads[p].next != p
      requires ApartFrom(q, heads)
      requires Clear(p, spans) && Clear(q, spans) && Clear(heads[p].next, spans)
      modifies mem, this`heads
      ensures Held() && heads == Link(old(heads), p, q, size + HDR) && Kept(old(mem[..]), mem[..], spans)
    {
      var x := Load(p);
      Store(q, Header(MAGIC, 0, x.next, p), spans);
      Store(p, x.(next := q), spans);
      if x.next != size + HDR {
        var y := Load(x.next);
        Store(x.next, y.(prev := q), spans);
      }
    }

    /** Takes the header at `q`, free block `i`, out of the chain; its free predecessor at `p` absorbs it. */
    method Absorb(p: nat, q: nat, ghost i: nat)
      requires Wired() && 0 < i < |h.blocks| && h.blocks[i - 1] == Block(p, false) && h.blocks[i] == Block(q, false)
      modifies mem, this`heads, this`h
      ensures Wired() && h == old(h).(blocks := Remove(old(h.blocks), i))
      ensures Kept(old(mem[..]), mem[..], Spans(old(h)))
    {
      ghost var bs, e := h.blocks, End(h);
      AbsorbOk(heads, bs, e, i);
      LinkPast(p, q, UsedSpans(bs, e));
      h := h.(blocks := Remove(bs, i));
      assert h.blocks == Remove(bs, i) && End(h) == e;
    }

    /** Puts a free header at `q` behind block `i`, which is at `p`. */
    method Split(p: nat, q: nat, ghost i: nat, ghost spans: set<(nat, nat)>)
      requires Wired() && i < |h.blocks| && h.blocks[i].off == p
      requires p + HDR < q && q + HDR < Next(h.blocks, End(h), i)
      requires Clear(p, spans) && Clear(q, spans) && Clear(Next(h.blocks, End(h), i), spans)
      modifies mem, this`heads, this`h
      ensures Wired() && h == old(h).(blocks := Insert(old(h.blocks), i, q))
      ensures Kept(old(mem[..]), mem[..], spans)
    {
      ghost var bs, e := h.blocks, End(h);
      SplitOk(heads, bs, e, i, q);
      LinkIn(p, q, spans);
      h := h.(blocks := Insert(bs, i, q));
      assert h.blocks == Insert(bs, i, q) && End(h) == e;
    }

    /** Sets the used flag, and the magic number, of block `i` at `p`. */
    method SetUsed(p: nat, used: bool, ghost i: nat)
      requires Wired() && i < |h.blocks| && h.blocks[i].off == p
      modifies mem, this`heads, this`h
      ensures Wired() && h == old(h).(blocks := Mark(old(h.blocks), i, used))
      ensures Kept(old(mem[..]), mem[..], Spans(old(h)))
    {
      ghost var bs, e := h.blocks, End(h);
      LinkedMark(heads, bs, e, i, used);
      MarkTiled(bs, e, i, used);
      HeaderClear(bs, e, i);
      var x := Load(p);
      Store(p, x.(used := if used then 1 else 0, magic := MAGIC), UsedSpans(bs, e));
      h := h.(blocks := Mark(bs, i, used));
      assert h.blocks == Mark(bs, i, used) && End(h) == e;
    }

    /** Sets the cached pointer and the two counters. */
    method Account(lf: nat, used: int, max: int)
      requires Wired()
      modifies this`h, this`lfree, this`usedMem, this`maxMem
      ensures Wired() && usedMem == used && maxMem == max
      ensures h == old(h).(lfree := lf, usedMem := used, maxMem := max)
    {
      ghost var bs, e := h.blocks, End(h);
      lfree, usedMem, maxMem := lf, used, max;
      h := h.(lfree := lf, usedMem := used, maxMem := max);
      assert h.blocks == bs && End(h) == e;
    }

    /** `plug_holes` on free block `i` at `ptr`. */
    method PlugHoles(ptr: nat, ghost i: nat)
      requires Wired() && i < |h.blocks| && h.blocks[i] == Block(ptr, false)
      modifies mem, this`heads, this`h, this`lfree
      ensures Wired()
      ensures h == Plugged(old(h), i)
      ensures Kept(old(mem[..]), mem[..], Spans(old(h)))
    {
      ghost var h0, m0 := h, mem[..];
      ForwardSpans(h0.blocks, End(h0), h0.lfree, i);
      PlugForwards(ptr, i);
      ghost var h1, m1 := h, mem[..];
      assert h1.blocks == PlugForward(h0.blocks, h0.lfree, i).0 && End(h1) == End(h0);
      PlugBackwards(ptr, i);
      KeptTwice(m0, m1, mem[..], Spans(h0), Spans(h1), Spans(h0));
    }

    /** The successor of block `i`, and whether it is a hole to plug. */
    method HoleBehind(ptr: nat, ghost i: nat) returns (next: nat, hole: bool)
      requires Wired() && i < |h.blocks| && h.blocks[i].off == ptr
      ensures next == Next(h.blocks, End(h), i)
      ensures hole == (i + 1 < |h.blocks| && !h.blocks[i + 1].used)
    {
      assert HeadOk(heads, h.blocks, End(h), i);
      var x := Load(ptr);
      next := x.next;
      assert i + 1 < |h.blocks| ==> HeadOk(heads, h.blocks, End(h), i + 1);
      x := Load(next);
      hole := ptr != next && x.used == 0 && next != size + HDR;
    }

    /** The predecessor of block `i`, and whether it is a hole to plug. */
    method HoleBefore(ptr: nat, ghost i: nat) returns (prev: nat, hole: bool)
      requires Wired() && i < |h.blocks| && h.blocks[i].off == ptr
      ensures prev == Prev(h.blocks, i)
      ensures hole == (0 < i && !h.blocks[i - 1].used)
    {
      assert HeadOk(heads, h.blocks, End(h), i);
      var x := Load(ptr);
      prev := x.prev;
      assert 0 < i ==> HeadOk(heads, h.blocks, End(h), i - 1);
      x := Load(prev);
      hole := prev != ptr && x.used == 0;
    }

    method PlugForwards(ptr: nat, ghost i: nat)
      requires Wired() && i < |h.blocks| && h.blocks[i] == Block(ptr, false)
      modifies mem, this`heads, this`h, this`lfree
      ensures Wired() && i < |h.blocks| && h.blocks[i] == Block(ptr, false)
      ensures var (bs, lf) := PlugForward(old(h.blocks), old(lfree), i); h == old(h).(blocks := bs, lfree := lf)
      ensures Kept(old(mem[..]), mem[..], Spans(old(h)))
    {
      var next, hole := HoleBehind(ptr, i);
      if hole {
        if lfree == next {
          lfree := ptr;
          h := h.(lfree := ptr);
        }
        Absorb(ptr, next, i + 1);
      }
    }

    method PlugBackwards(ptr: nat, ghost i: nat)
      requires Wired() && i < |h.blocks| && h.blocks[i] == Block(ptr, false)
      modifies mem, this`heads, this`h, this`lfree
      ensures Wired()
      ensures var (bs, lf) := PlugBackward(old(h.blocks), old(lfree), i); h == old(h).(blocks := bs, lfree := lf)
      ensures Kept(old(mem[..]), mem[..], Spans(old(h)))
    {
      var prev, hole := HoleBefore(ptr, i);
      if hole {
        if lfree == ptr {
          lfree := prev;
          h := h.(lfree := prev);
        }
        Absorb(prev, ptr, i);
      }
    }

    predicate InHeap(rmem: nat) { 0 < rmem && base <= rmem < base + size + HDR }

    /** The header offset of the block whose payload is at `rmem`. */
    function Offset(rmem: nat): nat { if base + HDR <= rmem then rmem - base - HDR else 0 }

    /** A pointer the caller owns. */
    ghost predicate Owned(rmem: nat)
      reads this
    {
      base + HDR <= rmem && Live(h, Offset(rmem))
    }

    /** `rt_free`.  A pointer outside the heap, and the null pointer, are ignored. */
    method Free(rmem: nat)
      requires Valid() && (InHeap(rmem) ==> Owned(rmem))
      modifies mem, this
      ensures Valid()
      ensures h == if InHeap(rmem) then HeapModel.Free(old(h), Offset(rmem)) else old(h)
      ensures Kept(old(mem[..]), mem[..], Spans(h))
    {
      if InHeap(rmem) {
        FreeBlock(Offset(rmem));
      }
    }

    /** Marks block `i` free and accounts for it. */
    method Release(ptr: nat, ghost i: nat)
      requires Valid() && i < |h.blocks| && h.blocks[i].off == ptr
      modifies mem, this
      ensures Wired() && h == Released(old(h), i) && h.usedMem == usedMem && h.maxMem == maxMem
      ensures Kept(old(mem[..]), mem[..], Spans(old(h)))
    {
      ghost var h0 := h;
      var next, _ := HoleBehind(ptr, i);
      SetUsed(ptr, false, i);
      Account(if ptr < lfree then ptr else lfree, usedMem - (next - ptr), maxMem);
      assert h == Released(h0, i);
    }

    method FreeBlock(ptr: nat)
      requires Valid() && Live(h, ptr)
      modifies mem, this
      ensures Valid() && h == HeapModel.Free(old(h), ptr)
      ensures Kept(old(mem[..]), mem[..], Spans(h))
    {
      ghost var h0, i, m0 := h, IndexAt(h.blocks, ptr), mem[..];
      FreeOk(h0, ptr);
      Release(ptr, i);
      ghost var h1, m1 := h, mem[..];
      PlugHoles(ptr, i);
      assert h == HeapModel.Free(h0, ptr);
      KeptTwice(m0, m1, mem[..], Spans(h0), Spans(h1), Spans(h));
    }

    /** The header fields of block `i` that a walk along the chain reads. */
    method ReadBlock(ptr: nat, ghost i: nat) returns (next: nat, used: bool)
      requires Wired() && i < |h.blocks| && h.blocks[i].off == ptr
      ensures next == Next(h.blocks, End(h), i) && used == h.blocks[i].used
    {
      assert HeadOk(heads, h.blocks, End(h), i);
      var x := Load(ptr);
      next, used := x.next, x.used != 0;
    }

    /** The search loop of `rt_malloc`. */
    method Search(sz: nat) returns (ptr: nat, found: bool, ghost i: nat)
      requires Valid() && sz <= size
      ensures i == FindFit(h, IndexAt(h.blocks, h.lfree), sz)
      ensures found == (i < |h.blocks|) && (found ==> ptr == h.blocks[i].off)
    {
      ghost var e, fit := End(h), FindFit(h, IndexAt(h.blocks, h.lfree), sz);
      ptr, i := lfree, IndexAt(h.blocks, h.lfree);
      StartAt(h);
      while ptr < size - sz
        invariant i <= |h.blocks| && ptr == OffAt(h.blocks, e, i)
        invariant FindFit(h, i, sz) == fit
        decreases |h.blocks| - i
      {
        var next, used := ReadBlock(ptr, i);
        if !used && next - (ptr + HDR) >= sz {
          found := true;
          return;
        }
        ptr, i := next, i + 1;
      }
      i, found := |h.blocks|, false;
    }

    /** The first free block from block `i` at `ptr` on. */
    method FirstFree(ptr: nat, ghost i: nat) returns (lf: nat)
      requires Wired() && i < |h.blocks| && h.blocks[i].off == ptr
      ensures lf == NextFree(h.blocks, End(h), i)
    {
      ghost var k := i;
      lf := ptr;
      var next, used := ReadBlock(lf, k);
      while lf != size + HDR && used
        invariant k <= |h.blocks| && lf == OffAt(h.blocks, End(h), k)
        invariant k < |h.blocks| ==> next == Next(h.blocks, End(h), k) && used == h.blocks[k].used
        invariant NextFree(h.blocks, End(h), k) == NextFree(h.blocks, End(h), i)
        decreases |h.blocks| - k
      {
        lf, k := next, k + 1;
        if lf != size + HDR {
          next, used := ReadBlock(lf, k);
        }
      }
    }

    /** The cached pointer once block `i` at `ptr` is taken. */
    method AfterTaking(ptr: nat, ghost i: nat) returns (lf: nat)
      requires Wired() && i < |h.blocks| && h.blocks[i].off == ptr
      ensures lf == if ptr == lfree then NextFree(h.blocks, End(h), i) else lfree
    {
      lf := lfree;
      if ptr == lfree {
        lf := FirstFree(ptr, i);
      }
    }

    /** Marks free block `i` used and cuts off what is not needed. */
    method Carve(ptr: nat, sz: nat, ghost i: nat) returns (span: nat)
      requires Valid() && i < |h.blocks| && h.blocks[i].off == ptr && Fits(h, i, sz) && sz % 4 == 0 && 0 < sz
      modifies mem, this`heads, this`h
      ensures Wired() && h == old(h).(blocks := Taken(old(h), i, sz)) && i < |h.blocks| && h.blocks[i].off == ptr
      ensures span == TakenEnd(old(h), i, sz) - ptr
      ensures Kept(old(mem[..]), mem[..], Spans(old(h)))
    {
      ghost var h0, m0 := h, mem[..];
      var next, _ := HoleBehind(ptr, i);
      CarveOk(h0, heads, i, sz);
      SetUsed(ptr, true, i);
      ghost var m1, h1 := mem[..], h;
      assert h1.blocks == Mark(h0.blocks, i, true) && End(h1) == End(h0);
      span := next - ptr;
      var q := ptr + HDR + sz;
      assert Splits(h0, i, sz) == (sz + HDR + MIN <= next - (ptr + HDR));
      if sz + HDR + MIN <= next - (ptr + HDR) {
        span := HDR + sz;
        Split(ptr, q, i, Spans(h0));
        KeptTwice(m0, m1, mem[..], Spans(h0), Spans(h0), Spans(h0));
      }
      CarveSteps(h0, h1, h, i, sz, q);
    }

    method TakeBlock(ptr: nat, sz: nat, ghost i: nat)
      requires Valid() && i < |h.blocks| && h.blocks[i].off == ptr && Fits(h, i, sz) && sz % 4 == 0 && 0 < sz
      modifies mem, this
      ensures Valid() && h == Take(old(h), i, sz)
      ensures Kept(old(mem[..]), mem[..], Spans(old(h)))
    {
      ghost var h0 := h;
      var span := Carve(ptr, sz, i);
      ghost var h1 := h;
      var lf := AfterTaking(ptr, i);
      Account(lf, usedMem + span, Max(maxMem, usedMem + span));
      TakeSteps(h0, h1, h, i, sz, span, lf);
      TakeInv(h0, i, sz);
    }

    function Pointer(off: Option<nat>): nat { if off.None? then 0 else base + off.value + HDR }

    /** `rt_malloc`. */
    method Malloc(req: nat) returns (p: nat)
      requires Valid() && req < WORD
      modifies mem, this
      ensures Valid() && h == HeapModel.Malloc(old(h), req).0 && p == Pointer(HeapModel.Malloc(old(h), req).1)
      ensures Kept(old(mem[..]), mem[..], Spans(old(h)))
    {
      if req == 0 {
        return 0;
      }
      var sz := Align4(req);
      if sz > size {
        return 0;
      }
      if sz < MIN {
        sz := MIN;
      }
      WantedOk(req);
      FindFitLeast(h, IndexAt(h.blocks, h.lfree), sz);
      var ptr, found, i := Search(sz);
      if !found {
        return 0;
      }
      TakeBlock(ptr, sz, i);
      return base + ptr + HDR;
    }

    /** Splits live block `i` so that it keeps `sz` bytes. */
    method Cut(ptr: nat, sz: nat, ghost i: nat) returns (q: nat)
      requires Valid() && i < |h.blocks| && h.blocks[i].off == ptr && Shrinkable(h, i, sz)
      modifies mem, this
      ensures q == ptr + HDR + sz
      ensures Wired() && h == CutTo(old(h), i, sz) && h.usedMem == usedMem && h.maxMem == maxMem
      ensures Kept(old(mem[..]), mem[..], Spans(h))
    {
      q := ptr + HDR + sz;
      ShrinkOk(h, i, sz, q);
      ghost var h0, bs, e := h, h.blocks, End(h);
      var next, _ := HoleBehind(ptr, i);
      Split(ptr, q, i, UsedSpans(Insert(bs, i, q), e));
      Account(lfree, usedMem - (next - ptr - HDR - sz), maxMem);
      assert h.blocks == Insert(bs, i, q) && End(h) == e;
      CutSteps(h0, h, i, sz, q);
    }

    /** The in-place path of `rt_realloc` on block `i` at `ptr`. */
    method ShrinkBlock(ptr: nat, sz: nat, ghost i: nat)
      requires Valid() && i < |h.blocks| && h.blocks[i].off == ptr && Shrinkable(h, i, sz)
      modifies mem, this
      ensures Valid() && h == Shrink(old(h), i, sz)
      ensures Kept(old(mem[..]), mem[..], Spans(h))
    {
      ghost var h0, m0 := h, mem[..];
      ShrunkOk(h0, i, sz);
      var q := Cut(ptr, sz, i);
      ghost var h1, m1 := h, mem[..];
      PlugHoles(q, i + 1);
      assert h == Shrink(h0, i, sz);
      KeptTwice(m0, m1, mem[..], Spans(h1), Spans(h1), Spans(h));
    }

    method ReadBytes(at: nat, n: nat) returns (b: seq<Byte>)
      requires at + n <= mem.Length
      ensures SliceIs(mem[..], at, n, b) && |b| == n
    {
      b := mem[at..at + n];
    }

    /** Writes `n` bytes at `at`, in the payload of block `i`. */
    method WritePayload(at: nat, b: seq<Byte>, n: nat, ghost i: nat)
      requires Valid() && |b| == n
      requires i < |h.blocks| && h.blocks[i].off + HDR <= at && at + n <= Next(h.blocks, End(h), i)
      modifies mem
      ensures Valid() && SliceIs(mem[..], at, n, b)
      ensures forall spans :: spans <= Spans(h) && (forall s :: s in spans ==> s.0 != h.blocks[i].off)
                ==> Kept(old(mem[..]), mem[..], spans)
    {
      ghost var ptr := h.blocks[i].off;
      ghost var m0, span := mem[..], (ptr, Next(h.blocks, End(h), i));
      PayloadApart(h.blocks, End(h), heads, i, at, n);
      assert Next(h.blocks, End(h), i) <= End(h);
      WriteHolds(m0, heads, at, b);
      WriteBytes(at, b);
      forall spans | spans <= Spans(h) && (forall s :: s in spans ==> s.0 != ptr) ensures Kept(m0, mem[..], spans) {
        forall s | s in spans ensures Disjoint(span, s) { SpansApart(h.blocks, End(h), i, s); }
        WriteKept(m0, at, b, span, spans);
      }
    }

    /** A new block of `sz` bytes that starts with the first `n` bytes of the block at `ptr`. */
    method Duplicate(ptr: nat, n: nat, sz: nat) returns (p: nat)
      requires Valid() && Live(h, ptr) && ptr + HDR + n <= EndOf(h, ptr)
      requires n <= sz && 0 < sz < WORD && sz % 4 == 0
      modifies mem, this
      ensures Valid() && h == HeapModel.Malloc(old(h), sz).0 && p == Pointer(HeapModel.Malloc(old(h), sz).1)
      ensures p == 0 ==> Kept(old(mem[..]), mem[..], Spans(old(h)))
      ensures Kept(old(mem[..]), mem[..], Others(old(h), ptr))
      ensures p != 0 ==> Copied(old(mem[..]), ptr, mem[..], HeapModel.Malloc(old(h), sz).1.value, n)
    {
      ghost var h0, m0 := h, mem[..];
      p := Malloc(sz);
      if p != 0 {
        MoveOk(h0, ptr, sz);
        CopyPayload(ptr, n, p - base, HeapModel.Malloc(h0, sz).1.value, h0, m0);
      }
    }

    /** Copies `n` bytes of the block at `ptr` to the payload at `to`; `h0` and `m0` are from before it was allocated. */
    method CopyPayload(ptr: nat, n: nat, to: nat, ghost dst: nat, ghost h0: Heap, ghost m0: seq<Byte>)
      requires Valid() && to == dst + HDR && Live(h, dst) && to + n <= EndOf(h, dst)
      requires ptr + HDR + n <= EndOf(h0, ptr) <= mem.Length && (ptr, EndOf(h0, ptr)) in Spans(h0)
      requires Others(h0, ptr) <= Spans(h) && (forall s :: s in Others(h0, ptr) ==> s.0 != dst)
      requires Kept(m0, mem[..], Spans(h0))
      modifies mem
      ensures Valid() && Copied(m0, ptr, mem[..], dst, n) && Kept(m0, mem[..], Others(h0, ptr))
    {
      ghost var m1, i := mem[..], IndexAt(h.blocks, dst);
      KeptSlice(m0, m1, Spans(h0), ptr, EndOf(h0, ptr), n);
      LiveAt(h, dst);
      var b := ReadBytes(ptr + HDR, n);
      WritePayload(to, b, n, i);
      CopiedBy(m0, m1, mem[..], ptr, dst, n, b);
      KeptTwice(m0, m1, mem[..], Spans(h0), Others(h0, ptr), Others(h0, ptr));
    }

    /** The moving path of `rt_realloc`: a new block, a copy, and the old one freed. */
    method MoveBlock(ptr: nat, n: nat, sz: nat) returns (p: nat)
      requires Valid() && Live(h, ptr) && ptr + HDR + n <= EndOf(h, ptr)
      requires n <= sz && 0 < sz < WORD && sz % 4 == 0
      modifies mem, this
      ensures Valid() && p == Pointer(HeapModel.Malloc(old(h), sz).1)
      ensures p == 0 ==> h == old(h) && Kept(old(mem[..]), mem[..], Spans(old(h)))
      ensures p != 0 ==> h == HeapModel.Free(HeapModel.Malloc(old(h), sz).0, ptr)
      ensures Kept(old(mem[..]), mem[..], Others(old(h), ptr))
      ensures p != 0 ==> Copied(old(mem[..]), ptr, mem[..], HeapModel.Malloc(old(h), sz).1.value, n)
    {
      ghost var h0, m0 := h, mem[..];
      p := Duplicate(ptr, n, sz);
      if p != 0 {
        MoveOk(h0, ptr, sz);
        ghost var m1, dst := mem[..], HeapModel.Malloc(h0, sz).1.value;
        ghost var end := EndOf(h, dst);
        FreeBlock(ptr);
        KeptTwice(m0, m1, mem[..], Others(h0, ptr), Spans(h), Others(h0, ptr));
        KeptSlice(m1, mem[..], Spans(h), dst, end, n);
        CopiedKept(m0, m1, mem[..], ptr, dst, n);
      }
    }

    /** The in-place path, in terms of what it keeps. */
    method ShrinkInPlace(ptr: nat, sz: nat, ghost i: nat)
      requires Valid() && Live(h, ptr) && i == IndexAt(h.blocks, ptr) < |h.blocks| && Shrinkable(h, i, sz)
      modifies mem, this
      ensures Valid() && h == Shrink(old(h), i, sz)
      ensures Kept(old(mem[..]), mem[..], Others(old(h), ptr)) && Copied(old(mem[..]), ptr, mem[..], ptr, sz)
    {
      ghost var h0, m0 := h, mem[..];
      ResizeShrinks(h0, ptr, sz, i);
      ShrinkBlock(ptr, sz, i);
      KeptSlice(m0, mem[..], Spans(h), ptr, EndOf(h, ptr), sz);
      KeptTwice(m0, m0, mem[..], Others(h0, ptr), Spans(h), Others(h0, ptr));
    }

    /** `rt_realloc` of the live block at `ptr`, for a size that is not 0 once rounded. */
    method ReallocBlock(ptr: nat, sz: nat) returns (p: nat)
      requires Valid() && Live(h, ptr) && 0 < sz <= size && sz % 4 == 0
      modifies mem, this
      ensures Valid() && h == Resize(old(h), ptr, sz).0 && p == Pointer(Resize(old(h), ptr, sz).1)
      ensures Kept(old(mem[..]), mem[..], if p == 0 then Spans(old(h)) else Others(old(h), ptr))
      ensures p != 0 ==> Copied(old(mem[..]), ptr, mem[..], Resize(old(h), ptr, sz).1.value, KeptBytes(old(h), ptr, sz))
    {
      ghost var h0, i := h, IndexAt(h.blocks, ptr);
      LiveAt(h, ptr);
      var next, _ := HoleBehind(ptr, i);
      var oldSize := next - ptr - HDR;
      var n := Min(oldSize, sz);
      assert n == KeptBytes(h0, ptr, sz);
      if oldSize == sz {
        p := base + ptr + HDR;
      } else if sz + HDR + MIN < oldSize {
        ShrinkInPlace(ptr, sz, i);
        p := base + ptr + HDR;
      } else {
        p := MoveBlock(ptr, n, sz);
      }
    }

    /** `rt_realloc` of the live block at `ptr`. */
    method ReallocOwned(ptr: nat, req: nat) returns (p: nat)
      requires Valid() && req < WORD && Live(h, ptr)
      modifies mem, this
      ensures Valid() && h == HeapModel.Realloc(old(h), ptr, req).0 && p == Pointer(HeapModel.Realloc(old(h), ptr, req).1)
      ensures Kept(old(mem[..]), mem[..], Others(old(h), ptr))
      ensures p == 0 && Align4(req) != 0 ==> Kept(old(mem[..]), mem[..], Spans(old(h)))
      ensures p != 0 ==> Copied(old(mem[..]), ptr, mem[..], HeapModel.Realloc(old(h), ptr, req).1.value,
                                KeptBytes(old(h), ptr, Align4(req)))
    {
      ghost var h0, m0 := h, mem[..];
      var sz := Align4(req);
      AlignMultiple(req);
      if sz > size {
        p := 0;
      } else if sz == 0 {
        FreeOthers(h0, ptr);
        FreeBlock(ptr);
        KeptTwice(m0, m0, mem[..], Others(h0, ptr), Spans(h), Others(h0, ptr));
        p := 0;
      } else {
        p := ReallocBlock(ptr, sz);
      }
    }

    /** `rt_realloc`. */
    method Realloc(rmem: nat, req: nat) returns (p: nat)
      requires Valid() && req < WORD && (InHeap(rmem) ==> Owned(rmem))
      modifies mem, this
      ensures Valid()
      ensures InHeap(rmem) ==>
                && h == HeapModel.Realloc(old(h), Offset(rmem), req).0
                && p == Pointer(HeapModel.Realloc(old(h), Offset(rmem), req).1)
                && Kept(old(mem[..]), mem[..], Others(old(h), Offset(rmem)))
                && (p == 0 && Align4(req) != 0 ==> Kept(old(mem[..]), mem[..], Spans(old(h))))
                && (p != 0 ==> Copied(old(mem[..]), Offset(rmem), mem[..],
                                      HeapModel.Realloc(old(h), Offset(rmem), req).1.value,
                                      KeptBytes(old(h), Offset(rmem), Align4(req))))
      ensures !InHeap(rmem) ==>
                && Kept(old(mem[..]), mem[..], Spans(old(h)))
                && if Align4(req) == 0 || size < Align4(req) then h == old(h) && p == 0
                   else if rmem == 0
                   then h == HeapModel.Malloc(old(h), Align4(req)).0 && p == Pointer(HeapModel.Malloc(old(h), Align4(req)).1)
                   else h == old(h) && p == rmem
    {
      var sz := Align4(req);
      AlignMultiple(req);
      if InHeap(rmem) {
        p := ReallocOwned(Offset(rmem), req);
      } else if sz > size || sz == 0 {
        p := 0;
      } else if rmem == 0 {
        p := Malloc(sz);
      } else {
        p := rmem;
      }
    }

    /** Where in the heap a pointer points. */
    function Position(p: nat): nat { if base <= p then p - base else 0 }

    /**
     * `rt_calloc`. When rounding the byte count wraps, malloc grants twelve bytes, and the source goes on to clear bytes
     * outside the block: `overrun` says so, and the heap is as it is before that.
     */
    method Calloc(count: nat, sz: nat) returns (p: nat, overrun: bool)
      requires Valid()
      modifies mem, this
      ensures Valid() && h == HeapModel.Malloc(old(h), count * sz % WORD).0
      ensures p == Pointer(HeapModel.Malloc(old(h), count * sz % WORD).1)
      ensures Kept(old(mem[..]), mem[..], Spans(old(h)))
      ensures overrun <==> p != 0 && count * sz % WORD > WORD - 4
      ensures p != 0 && !overrun ==> SliceIs(mem[..], Position(p), count * sz % WORD, Zeros(count * sz % WORD))
    {
      var total := count * sz % WORD;
      if total <= WORD - 4 {
        p := CallocBytes(total);
        overrun := false;
      } else {
        p := Malloc(total);
        overrun := p != 0;
      }
    }

    method CallocBytes(total: nat) returns (p: nat)
      requires Valid() && total <= WORD - 4
      modifies mem, this
      ensures Valid() && h == HeapModel.Malloc(old(h), total).0 && p == Pointer(HeapModel.Malloc(old(h), total).1)
      ensures Kept(old(mem[..]), mem[..], Spans(old(h)))
      ensures p != 0 ==> SliceIs(mem[..], Position(p), total, Zeros(total))
    {
      ghost var h0, m0 := h, mem[..];
      p := Malloc(total);
      if p != 0 {
        CallocOk(h0, total);
        ghost var m1, o := mem[..], HeapModel.Malloc(h0, total).1.value;
        WritePayload(Position(p), Zeros(total), total, IndexAt(h.blocks, o));
        KeptTwice(m0, m1, mem[..], Spans(h0), Spans(h0), Spans(h0));
      }
    }
  }

  /** `rt_system_heap_init`: null when there is no room for the two headers. */
  method SystemHeapInit(begin: nat, end: nat) returns (r: SmallMem?)
    requires begin < WORD && end < WORD
    ensures r == null <==> end / 4 * 4 <= 2 * HDR || end / 4 * 4 - 2 * HDR < Align4(begin)
    ensures r != null ==> && fresh(r) && fresh(r.mem)
                          && r.base == Align4(begin) && r.base + r.size + 2 * HDR == end / 4 * 4
                          && (MIN <= r.size ==> r.Valid() && r.h == Init(r.size))
  {
    var b, e := Align4(begin), end / 4 * 4;
    if e > 2 * HDR && e - 2 * HDR >= b {
      r := new SmallMem(b, e - b - 2 * HDR);
    } else {
      r := null;
    }
  }
}
