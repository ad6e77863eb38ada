/**
 The block structure of the small-memory heap, away from the bytes that encode it.

 A heap is the list of its blocks in address order.  A block is the offset of its header
 and its used flag; it extends to the header of the next block, and the last one to the
 end marker at `End(h)`.  `Malloc`, `Free` and `Shrink` are the critical sections of
 `rt_malloc`, `rt_free` and `rt_realloc`; class SmallMem implements them over bytes.
 */
module HeapModel {
  import opened Common

  const HDR: nat := 12   // SIZEOF_STRUCT_MEM on the 32-bit target
  const MIN: nat := 12   // MIN_SIZE and MIN_SIZE_ALIGNED

  datatype Block = Block(off: nat, used: bool)

  datatype Heap = Heap(size: nat, blocks: seq<Block>, lfree: nat, usedMem: int, maxMem: int)

  function End(h: Heap): nat { h.size + HDR }

  function First(bs: seq<Block>, e: nat): nat { if bs == [] then e else bs[0].off }

  function Next(bs: seq<Block>, e: nat, i: nat): nat
    requires i < |bs|
  {
    if i + 1 < |bs| then bs[i + 1].off else e
  }

  function Payload(bs: seq<Block>, e: nat, i: nat): int
    requires i < |bs|
  {
    Next(bs, e, i) - bs[i].off - HDR
  }

  /** The chain from offset 0 covers the heap exactly, with no empty payload. */
  ghost predicate Tiled(bs: seq<Block>, e: nat) {
    && bs != [] && bs[0].off == 0
    && (forall i :: 0 <= i < |bs| ==> bs[i].off + HDR < e)
    && (forall i, j :: 0 <= i < j < |bs| ==> bs[i].off + HDR < bs[j].off)
  }

  predicate AlignedAt(bs: seq<Block>, i: int)
    requires 0 <= i < |bs|
  {
    bs[i].off % 4 == 0
  }

  ghost predicate Aligned(bs: seq<Block>) {
    forall i :: 0 <= i < |bs| ==> AlignedAt(bs, i)
  }

  predicate PairOk(bs: seq<Block>, i: int)
    requires 0 < i < |bs|
  {
    bs[i - 1].used || bs[i].used
  }

  /** Free neighbours have been merged. */
  ghost predicate Coalesced(bs: seq<Block>) {
    forall i :: 0 < i < |bs| ==> PairOk(bs, i)
  }

  /** `lfree` names a free block, or the end marker; the latter only when something is in use. */
  ghost predicate LfreeOk(bs: seq<Block>, e: nat, lfree: nat) {
    || Block(lfree, false) in bs
    || (lfree == e && exists i :: 0 <= i < |bs| && bs[i].used)
  }

  /** Total span, headers included, of the used blocks. */
  function Sum(bs: seq<Block>, e: nat): int {
    if bs == [] then 0
    else (if bs[0].used then First(bs[1..], e) - bs[0].off else 0) + Sum(bs[1..], e)
  }

  /** What every critical section keeps. */
  ghost predicate Inv(h: Heap) {
    && MIN <= h.size && h.size % 4 == 0 && h.size + 2 * HDR < WORD
    && Tiled(h.blocks, End(h))
    && Aligned(h.blocks)
    && Coalesced(h.blocks)
    && LfreeOk(h.blocks, End(h), h.lfree)
    && h.usedMem == Sum(h.blocks, End(h))
    && h.usedMem <= h.maxMem
  }

  /** No free block lies below `lfree`. */
  ghost predicate Lowest(bs: seq<Block>, lfree: nat) {
    forall i :: 0 <= i < |bs| && !bs[i].used ==> lfree <= bs[i].off
  }

  ghost predicate Roomy(bs: seq<Block>, e: nat) {
    forall i {:trigger Payload(bs, e, i)} :: 0 <= i < |bs| ==> MIN <= Payload(bs, e, i)
  }

  /** `lfree` is the lowest free block, or the end marker. */
  ghost predicate Sharp(h: Heap) { Inv(h) && Lowest(h.blocks, h.lfree) }

  /** What malloc and free keep on top of `Inv`, but realloc does not: moreover no payload is below the minimum. */
  ghost predicate Strong(h: Heap) { Sharp(h) && Roomy(h.blocks, End(h)) }

  function Init(size: nat): Heap { Heap(size, [Block(0, false)], 0, 0, 0) }

  // ---------------------------------------------------------------- operations

  /** RT_ALIGN(n, 4) in 32-bit arithmetic: the sum wraps to less than 4 for the last three sizes. */
  function Align4(n: nat): nat { if n <= WORD - 4 then (n + 3) / 4 * 4 else 0 }

  /** The index of the block at `off`, or the length of the list. */
  function IndexAt(bs: seq<Block>, off: nat): (i: nat)
    ensures i <= |bs|
    ensures i < |bs| ==> bs[i].off == off
    ensures forall j :: 0 <= j < i ==> bs[j].off != off
  {
    if bs == [] || bs[0].off == off then 0
    else
      var i := IndexAt(bs[1..], off);
      assert forall j :: 0 < j < i + 1 ==> bs[j] == bs[1..][j - 1];
      i + 1
  }

  predicate Fits(h: Heap, i: nat, size: nat)
    requires i < |h.blocks|
  {
    !h.blocks[i].used && size <= Payload(h.blocks, End(h), i)
  }

  /** The search loop of `rt_malloc` from block `i` on: the block taken, or the length of the list. */
  function FindFit(h: Heap, i: nat, size: nat): nat
    decreases |h.blocks| - i
  {
    if i >= |h.blocks| || h.blocks[i].off >= h.size - size then |h.blocks|
    else if Fits(h, i, size) then i
    else FindFit(h, i + 1, size)
  }

  /** The first free offset from block `i` on, or the end marker. */
  function NextFree(bs: seq<Block>, e: nat, i: nat): nat
    decreases |bs| - i
  {
    if i >= |bs| then e
    else if !bs[i].used then bs[i].off
    else NextFree(bs, e, i + 1)
  }

  predicate Splits(h: Heap, i: nat, size: nat)
    requires i < |h.blocks|
  {
    size + HDR + MIN <= Payload(h.blocks, End(h), i)
  }

  /** Sets the used flag of block `i`. */
  function Mark(bs: seq<Block>, i: nat, used: bool): seq<Block>
    requires i < |bs|
  {
    bs[i := Block(bs[i].off, used)]
  }

  /** Puts a free header at `off` behind block `i`. */
  function Insert(bs: seq<Block>, i: nat, off: nat): seq<Block>
    requires i < |bs|
  {
    bs[..i + 1] + [Block(off, false)] + bs[i + 1..]
  }

  /** Unlinks the header of block `i`. */
  function Remove(bs: seq<Block>, i: nat): seq<Block>
    requires i < |bs|
  {
    bs[..i] + bs[i + 1..]
  }

  /** Free block `i` gives `size` bytes to the caller and the rest, if worth a block, to a new free one. */
  function Taken(h: Heap, i: nat, size: nat): seq<Block>
    requires i < |h.blocks|
  {
    var bs := Mark(h.blocks, i, true);
    if Splits(h, i, size) then Insert(bs, i, h.blocks[i].off + HDR + size) else bs
  }

  function Take(h: Heap, i: nat, size: nat): Heap
    requires i < |h.blocks|
  {
    var o, bs := h.blocks[i].off, Taken(h, i, size);
    var used := h.usedMem + (if Splits(h, i, size) then size + HDR else Next(h.blocks, End(h), i) - o);
    Heap(h.size, bs, if h.lfree == o then NextFree(bs, End(h), i) else h.lfree, used, Max(h.maxMem, used))
  }

  /** The size `rt_malloc` looks for. */
  function Wanted(req: nat): nat { Max(Align4(req), MIN) }

  /** `rt_malloc`: the heap afterwards and the offset of the block taken. */
  function Malloc(h: Heap, req: nat): (Heap, Option<nat>) {
    if req == 0 || Align4(req) > h.size then (h, None)
    else
      var i := FindFit(h, IndexAt(h.blocks, h.lfree), Wanted(req));
      if i < |h.blocks| then (Take(h, i, Wanted(req)), Some(h.blocks[i].off)) else (h, None)
  }

  /** The forward half of `plug_holes` on free block `i`. */
  function PlugForward(bs: seq<Block>, lfree: nat, i: nat): (seq<Block>, nat)
    requires i < |bs|
  {
    if i + 1 < |bs| && !bs[i + 1].used
    then (Remove(bs, i + 1), if lfree == bs[i + 1].off then bs[i].off else lfree)
    else (bs, lfree)
  }

  /** The backward half: block `i` is merged into a free predecessor. */
  function PlugBackward(bs: seq<Block>, lfree: nat, i: nat): (seq<Block>, nat)
    requires i < |bs|
  {
    if i > 0 && !bs[i - 1].used
    then (Remove(bs, i), if lfree == bs[i].off then bs[i - 1].off else lfree)
    else (bs, lfree)
  }

  function Plug(bs: seq<Block>, lfree: nat, i: nat): (seq<Block>, nat)
    requires i < |bs|
  {
    var (f, lf) := PlugForward(bs, lfree, i);
    PlugBackward(f, lf, i)
  }

  /** `plug_holes` on free block `i`. */
  function Plugged(h: Heap, i: nat): Heap
    requires i < |h.blocks|
  {
    var (bs, lfree) := Plug(h.blocks, h.lfree, i);
    h.(blocks := bs, lfree := lfree)
  }

  ghost predicate Live(h: Heap, off: nat) { Block(off, true) in h.blocks }

  /** Block `i` marked free, before holes are plugged. */
  function Released(h: Heap, i: nat): Heap
    requires i < |h.blocks|
  {
    var off := h.blocks[i].off;
    h.(blocks := Mark(h.blocks, i, false), lfree := if off < h.lfree then off else h.lfree,
       usedMem := h.usedMem - (Next(h.blocks, End(h), i) - off))
  }

  /** `rt_free` of the live block at `off`. */
  function Free(h: Heap, off: nat): Heap {
    var i := IndexAt(h.blocks, off);
    if i == |h.blocks| then h else Plugged(Released(h, i), i)
  }

  predicate Shrinkable(h: Heap, i: nat, size: nat)
    requires i < |h.blocks|
  {
    h.blocks[i].used && 0 < size && size % 4 == 0 && size + HDR + MIN < Payload(h.blocks, End(h), i)
  }

  /** Block `i` cut down to `size` bytes, before holes are plugged. */
  function CutTo(h: Heap, i: nat, size: nat): Heap
    requires i < |h.blocks|
  {
    h.(blocks := Insert(h.blocks, i, h.blocks[i].off + HDR + size),
       usedMem := h.usedMem - (Payload(h.blocks, End(h), i) - size))
  }

  /** The in-place path of `rt_realloc`: live block `i` keeps `size` bytes and the rest is freed. */
  function Shrink(h: Heap, i: nat, size: nat): Heap
    requires i < |h.blocks|
  {
    Plugged(CutTo(h, i, size), i + 1)
  }

  /** `rt_realloc` of the live block at `off` to `size` bytes, a positive multiple of 4. */
  function Resize(h: Heap, off: nat, size: nat): (Heap, Option<nat>) {
    var i := IndexAt(h.blocks, off);
    if i == |h.blocks| then (h, None)
    else if Payload(h.blocks, End(h), i) == size then (h, Some(off))
    else if size + HDR + MIN < Payload(h.blocks, End(h), i) then (Shrink(h, i, size), Some(off))
    else
      var (g, r) := Malloc(h, size);
      if r.None? then (h, None) else (Free(g, off), r)
  }

  /** `rt_realloc` of the live block at `off`. */
  function Realloc(h: Heap, off: nat, req: nat): (Heap, Option<nat>) {
    if h.size < Align4(req) then (h, None)
    else if Align4(req) == 0 then (Free(h, off), None)
    else Resize(h, off, Align4(req))
  }

  // ---------------------------------------------------------------- accounting

  lemma {:induction false} SumAppend(a: seq<Block>, b: seq<Block>, e: nat)
    ensures Sum(a + b, e) == Sum(a, First(b, e)) + Sum(b, e)
  {
    if a == [] {
      assert a + b == b;
    } else {
      assert (a + b)[1..] == a[1..] + b;
      SumAppend(a[1..], b, e);
    }
  }
}
