/** `rt_malloc_align` and `rt_free_align`, with the masks computed bit by bit. */
module AlignedAlloc {
  import opened Common
  import opened HeapModel
  import opened HeapSafety
  import opened HeapSpans
  import opened HeapBytes
  import opened LittleEndian
  import opened HeapRuns
  import opened SmallMemory

  // ---------------------------------------------------------------- masks

  /** Bitwise and. */
  function And(a: nat, b: nat): nat {
    if a == 0 || b == 0 then 0 else (if a % 2 == 1 && b % 2 == 1 then 1 else 0) + 2 * And(a / 2, b / 2)
  }

  function Pow2(k: nat): (p: nat)
    ensures 0 < p
  {
    if k == 0 then 1 else 2 * Pow2(k - 1)
  }

  /** `x & (a - 1)` is the remainder by a power of two. */
  lemma {:induction false} AndLow(x: nat, k: nat)
    ensures And(x, Pow2(k) - 1) == x % Pow2(k)
  {
    if k == 0 {
      assert And(x, 0) == 0 == x % 1;
    } else {
      var p := Pow2(k - 1);
      var m := p - 1;
      AndLow(x / 2, k - 1);
      HalfMod(x, p);
      AndStep(x, 2 * m + 1);
      assert (2 * m + 1) / 2 == m && Pow2(k) == 2 * p;
    }
  }

  lemma AndStep(a: nat, b: nat)
    ensures And(a, b) == (if a % 2 == 1 && b % 2 == 1 then 1 else 0) + 2 * And(a / 2, b / 2)
  {
  }

  lemma HalfMod(x: nat, p: nat)
    requires 0 < p
    ensures x % (2 * p) == 2 * (x / 2 % p) + x % 2
  {
    var h, q := x / 2, x / 2 / p;
    DivMod(h, p);
    var r := 2 * (h % p) + x % 2;
    assert (2 * p) * q == 2 * (p * q);
    ModUnique(x, 2 * p, q, r);
  }

  lemma {:induction false} Pow2Monotone(k: nat, n: nat)
    requires k <= n
    ensures Pow2(k) <= Pow2(n)
    decreases n
  {
    if k < n { Pow2Monotone(k, n - 1); }
  }

  /** The bits of `x` from `k` on, below `n`: `x & ~(a - 1)` in `n` bits, for `a` the power of two. */
  function High(n: nat, k: nat): nat
    requires k <= n
  {
    Pow2Monotone(k, n);
    Pow2(n) - Pow2(k)
  }

  /** Masking with the complement of `a - 1` clears the remainder by `a`. */
  lemma {:induction false} AndHigh(x: nat, k: nat, n: nat)
    requires k <= n && x < Pow2(n)
    ensures And(x, High(n, k)) == x - x % Pow2(k)
    decreases n
  {
    if k == 0 {
      AndLow(x, n);
      ModUnique(x, Pow2(n), 0, x);
    } else {
      var (m, p) := (High(n - 1, k - 1), Pow2(k - 1));
      assert Pow2(n) == 2 * Pow2(n - 1) && Pow2(k) == 2 * p && High(n, k) == 2 * m;
      AndHigh(x / 2, k - 1, n - 1);
      HalfMod(x, p);
      AndEven(x, m);
    }
  }

  lemma AndEven(x: nat, m: nat)
    ensures And(x, 2 * m) == 2 * And(x / 2, m)
  {
    assert (2 * m) % 2 == 0 && (2 * m) / 2 == m;
    AndStep(x, 2 * m);
  }

  lemma Pow2Word()
    ensures Pow2(32) == WORD
  {
    assert Pow2(8) == 0x100;
    assert Pow2(16) == 0x100 * Pow2(8);
    assert Pow2(24) == 0x100 * Pow2(16);
    assert Pow2(32) == 0x100 * Pow2(24);
  }

  /** RT_ALIGN(n, 4) as the source writes it: a sum, and a mask, in 32 bits. */
  lemma Align4IsMask(n: nat)
    requires n < WORD
    ensures Align4(n) == And((n + 3) % WORD, WORD - 4)
  {
    var x := (n + 3) % WORD;
    assert x == if n <= WORD - 4 then n + 3 else n + 3 - WORD;
    MaskFour(x);
    assert x / 4 * 4 == x - x % 4;
  }

  lemma MaskFour(x: nat)
    requires x < WORD
    ensures And(x, WORD - 4) == x - x % 4
  {
    Pow2Word();
    AndHigh(x, 2, 32);
    var four := Pow2(2);
    assert four == 4 && x % four == x % 4;
  }

  // ---------------------------------------------------------------- aligned blocks

  /** The address handed out for a block whose payload is at `ptr`, for an alignment `a`: the masks of the source. */
  function AlignUp(ptr: nat, a: nat): nat
    requires 0 < a < WORD
  {
    if And(ptr, a - 1) == 0 then ptr + a else And(ptr + (a - 1), WORD - a)
  }

  /** Both masks come to the next multiple strictly above the payload. */
  lemma AlignUpValue(ptr: nat, k: nat)
    requires k < 32 && ptr + Pow2(k) < WORD
    ensures Pow2(k) < WORD && AlignUp(ptr, Pow2(k)) == ptr + Pow2(k) - ptr % Pow2(k)
  {
    var a := Pow2(k);
    AndLow(ptr, k);
    HighMask(ptr + (a - 1), k);
    if ptr % a != 0 { RemainderUp(ptr, a); }
  }

  lemma HighMask(x: nat, k: nat)
    requires k < 32 && x < WORD
    ensures Pow2(k) < WORD && And(x, WORD - Pow2(k)) == x - x % Pow2(k)
  {
    Pow2Word();
    Pow2Small(k);
    AndHigh(x, k, 32);
  }

  lemma RemainderUp(x: nat, a: nat)
    requires 0 < a && x % a != 0
    ensures (x + (a - 1)) % a == x % a - 1
  {
    DivMod(x, a);
    assert a * (x / a + 1) == a * (x / a) + a;
    ModUnique(x + (a - 1), a, x / a + 1, x % a - 1);
  }

  lemma StepUp(x: nat, a: nat)
    requires 0 < a
    ensures (x + a - x % a) % a == 0 && x % a < a
  {
    DivMod(x, a);
    assert a * (x / a + 1) == a * (x / a) + a;
    ModUnique(x + a - x % a, a, x / a + 1, 0);
  }

  lemma NextMultiple(x: nat, a: nat, b: nat)
    requires 0 < b && a == b * 4 && x % 4 == 0
    ensures var r := x + a - x % a; r % a == 0 && x + 4 <= r <= x + a
  {
    var r := x + a - x % a;
    StepUp(x, a);
    MultipleOf(r, b, 4);
  }

  /** The address is aligned, leaves at least a word free below it, and is at most one alignment up. */
  lemma AlignUpOk(ptr: nat, k: nat)
    requires 2 <= k < 32 && ptr + Pow2(k) < WORD && ptr % 4 == 0
    ensures AlignUp(ptr, Pow2(k)) % Pow2(k) == 0
    ensures ptr + 4 <= AlignUp(ptr, Pow2(k)) <= ptr + Pow2(k)
  {
    AlignUpValue(ptr, k);
    assert Pow2(k) == 2 * Pow2(k - 1) == 4 * Pow2(k - 2);
    NextMultiple(ptr, Pow2(k), Pow2(k - 2));
  }

  /** Rounding a power of two up to a multiple of the word size. */
  lemma RoundedAlignment(j: nat)
    requires j < 32
    ensures var k := if j < 2 then 2 else j; Align4(Pow2(j)) == Pow2(k) && Pow2(j) < WORD - 3 && Pow2(k) % Pow2(j) == 0
  {
    Pow2Small(j);
    if j < 2 {
      assert Pow2(0) == 1 && Pow2(1) == 2 && Pow2(2) == 4;
    } else {
      assert Pow2(j) == 2 * Pow2(j - 1) == 4 * Pow2(j - 2);
      RoundedMultiple(Pow2(j - 2));
      ModUnique(Pow2(j), Pow2(j), 1, 0);
    }
  }

  lemma Pow2Small(j: nat)
    requires j < 32
    ensures Pow2(j) <= WORD / 2
  {
    Pow2Word();
    Pow2Monotone(j, 31);
    assert Pow2(32) == 2 * Pow2(31);
  }

  lemma RoundedMultiple(x: nat)
    requires 4 * x <= WORD - 4
    ensures Align4(4 * x) == 4 * x
  {
    assert (4 * x + 3) / 4 == x;
  }

  // ---------------------------------------------------------------- the two operations

  /** The word at `at` holds `ptr`. */
  ghost predicate SavedIs(m: seq<Byte>, at: nat, ptr: nat) { Slice(m, at, 4) == Field(ptr, 4) }

  /** What a call keeps of the block keeps the saved pointer in it. */
  lemma SavedKept(m: seq<Byte>, r: seq<Byte>, spans: set<(nat, nat)>, s: (nat, nat), at: nat, ptr: nat)
    requires Kept(m, r, spans) && s in spans && s.0 + HDR <= at && at + 4 <= s.1 <= |m| && SavedIs(m, at, ptr)
    ensures SavedIs(r, at, ptr)
  {
    var d := at - s.0 - HDR;
    assert SpanBytes(m, s) == SpanBytes(r, s);
    SliceInSpan(m, s, at, d);
    SliceInSpan(r, s, at, d);
  }

  lemma SliceInSpan(m: seq<Byte>, s: (nat, nat), at: nat, d: nat)
    requires s.0 + HDR + d == at && at + 4 <= s.1 <= |m|
    ensures Slice(m, at, 4) == SpanBytes(m, s)[d..d + 4]
  {
    var b := SpanBytes(m, s);
    assert forall i :: d <= i < d + 4 ==> b[i] == m[s.0 + HDR + i];
  }

  /** In the heap `g` the block at `o` is live and has room for `total` bytes on a word boundary; the live spans of `h` are others. */
  ghost predicate BlockFor(base: nat, h: Heap, g: Heap, o: nat, total: nat) {
    && Live(g, o) && o + HDR + total <= EndOf(g, o) <= End(h) && (base + o + HDR) % 4 == 0
    && Spans(h) <= Spans(g) && (forall s :: s in Spans(h) ==> s.0 != o)
  }

  /** The block of a non-null malloc of `total` bytes, by address. */
  lemma BlockOk(m: SmallMem, h: Heap, total: nat)
    requires Inv(h) && 0 < total <= WORD - 4 && HeapModel.Malloc(h, total).1.Some?
    requires m.base % 4 == 0 && h.size == m.size
    ensures BlockFor(m.base, h, HeapModel.Malloc(h, total).0, HeapModel.Malloc(h, total).1.value, total)
  {
    var (o, n) := Granted(h, total);
    MallocOk(h, total);
    MallocGrants(h, total);
    ApartStarts(h, total);
    GrantedBlock(m, h, HeapModel.Malloc(h, total).0, o, n, total);
  }

  lemma ApartStarts(h: Heap, total: nat)
    requires Inv(h) && total <= WORD - 4 && HeapModel.Malloc(h, total).1.Some?
    ensures forall s :: s in Spans(h) ==> s.0 != HeapModel.Malloc(h, total).1.value
  {
    CallocOk(h, total);
  }

  lemma GrantedBlock(m: SmallMem, h: Heap, g: Heap, o: nat, n: nat, total: nat)
    requires Inv(g) && Spans(g) == Spans(h) + {(o, n)} && o % 4 == 0 && m.base % 4 == 0
    requires o + HDR + total <= n <= End(h) && (forall s :: s in Spans(h) ==> s.0 != o)
    ensures BlockFor(m.base, h, g, o, total)
  {
    SpanLive(g, o, n);
  }

  /** Where the word below the address `p` lies in the heap. */
  function WordBelow(m: SmallMem, p: nat): nat { if m.base + 4 <= p then p - m.base - 4 else 0 }

  /** The bytes asked of malloc: both arguments rounded to words. */
  function TotalSize(size: nat, align: nat): nat { Align4(size) + Align4(align) }

  /** `p` is aligned; the word below it and the `size` bytes at it lie in the payload from `ptr` to `end`. */
  predicate Placed(p: nat, align: nat, size: nat, ptr: nat, end: nat) {
    0 < align && p % align == 0 && ptr + 4 <= p && p + size <= end
  }

  lemma PlaceOk(ptr: nat, end: nat, size: nat, align: nat, a: nat, j: nat)
    requires j < 32 && align == Pow2(j) && a == Align4(align) && size <= WORD - 4
    requires ptr % 4 == 0 && ptr + Align4(size) + a <= end < WORD
    ensures 0 < a < WORD && Placed(AlignUp(ptr, a), align, size, ptr, end)
  {
    RoundedAlignment(j);
    var k := if j < 2 then 2 else j;
    Pow2Monotone(2, k);
    AlignUpOk(ptr, k);
    AlignedFor(AlignUp(ptr, a), a, align, j);
    assert size <= Align4(size);
  }

  /** Saves `ptr` in the word below `p`, inside the live block at `o`; `kept` are the other live spans. */
  method SaveBelow(m: SmallMem, p: nat, ptr: nat, ghost o: nat, ghost kept: set<(nat, nat)>)
    requires m.Valid() && Live(m.h, o) && ptr == m.base + o + HDR && ptr + 4 <= p && p <= m.base + EndOf(m.h, o)
    requires kept <= Spans(m.h) && (forall s :: s in kept ==> s.0 != o)
    modifies m.mem
    ensures m.Valid() && SavedIs(m.mem[..], WordBelow(m, p), ptr) && Kept(old(m.mem[..]), m.mem[..], kept)
  {
    LiveAt(m.h, o);
    m.WritePayload(WordBelow(m, p), Field(ptr, 4), 4, IndexAt(m.h.blocks, o));
  }

  /** The inner `rt_malloc`, with what its block is by address. */
  method TakeTotal(m: SmallMem, total: nat) returns (ptr: nat)
    requires m.Valid() && 0 < total <= WORD - 4
    modifies m, m.mem
    ensures m.Valid() && m.h == HeapModel.Malloc(old(m.h), total).0 && ptr == m.Pointer(HeapModel.Malloc(old(m.h), total).1)
    ensures Kept(old(m.mem[..]), m.mem[..], Spans(old(m.h)))
    ensures ptr == 0 <==> HeapModel.Malloc(old(m.h), total).1 == None
    ensures ptr != 0 ==>
              && BlockFor(m.base, old(m.h), m.h, HeapModel.Malloc(old(m.h), total).1.value, total)
              && m.base + End(old(m.h)) < WORD && ptr == m.base + HeapModel.Malloc(old(m.h), total).1.value + HDR
  {
    ghost var h0 := m.h;
    assert Inv(h0) && h0.size == m.size && m.base % 4 == 0 && m.base + End(h0) < WORD;
    ptr := m.Malloc(total);
    if ptr != 0 {
      BlockOk(m, h0, total);
    }
  }

  lemma TotalPositive(size: nat, j: nat)
    requires j < 32
    ensures 0 < TotalSize(size, Pow2(j))
  {
    RoundedAlignment(j);
  }

  /** Neither rounding the size nor adding the rounded alignment to it wraps around 2^32. */
  predicate SumFits(size: nat, align: nat) { size <= WORD - 4 && TotalSize(size, align) <= WORD - 4 }

  lemma NoWrap(size: nat, align: nat)
    requires SumFits(size, align)
    ensures TotalSize(size, align) % WORD == TotalSize(size, align)
  {
  }

  /** `rt_malloc_align` when nothing wraps. */
  method PlaceAligned(m: SmallMem, size: nat, align: nat, total: nat, ghost j: nat) returns (p: nat)
    requires m.Valid() && j < 32 && align == Pow2(j) && SumFits(size, align) && total == TotalSize(size, align)
    modifies m, m.mem
    ensures m.Valid() && m.h == HeapModel.Malloc(old(m.h), total).0
    ensures Kept(old(m.mem[..]), m.mem[..], Spans(old(m.h)))
    ensures p == 0 <==> HeapModel.Malloc(old(m.h), total).1 == None
    ensures p != 0 ==> PlacedAt(m, p, align, size, HeapModel.Malloc(old(m.h), total).1)
  {
    var a := Align4(align);
    ghost var h0, m0 := m.h, m.mem[..];
    TotalPositive(size, j);
    var ptr := TakeTotal(m, total);
    p := 0;
    if ptr != 0 {
      ghost var m1, o := m.mem[..], HeapModel.Malloc(h0, total).1.value;
      PlaceOk(ptr, m.base + EndOf(m.h, o), size, align, a, j);
      p := AlignUp(ptr, a);
      SaveBelow(m, p, ptr, o, Spans(h0));
      KeptTwice(m0, m1, m.mem[..], Spans(h0), Spans(h0), Spans(h0));
    }
  }

  /** The address is aligned, has its bytes and the word below it in the block `r`, and that word holds the block's pointer. */
  ghost predicate PlacedAt(m: SmallMem, p: nat, align: nat, size: nat, r: Option<nat>)
    reads m, m.mem
  {
    && r.Some? && Placed(p, align, size, m.Pointer(r), m.base + EndOf(m.h, r.value))
    && SavedIs(m.mem[..], WordBelow(m, p), m.Pointer(r))
  }

  /**
   * `rt_malloc_align` for a power of two. When size and alignment wrap in rounding or in the sum, malloc is asked for too
   * little, and the block it takes has no room for the request: `tooSmall` says so, and the heap is as it is before the
   * source saves a pointer, in the block or beyond it.
   */
  method MallocAlign(m: SmallMem, size: nat, align: nat, ghost j: nat) returns (p: nat, tooSmall: bool)
    requires m.Valid() && j < 32 && align == Pow2(j) && size < WORD
    modifies m, m.mem
    ensures m.Valid() && m.h == HeapModel.Malloc(old(m.h), TotalSize(size, align) % WORD).0
    ensures Kept(old(m.mem[..]), m.mem[..], Spans(old(m.h)))
    ensures tooSmall <==> HeapModel.Malloc(old(m.h), TotalSize(size, align) % WORD).1.Some? && !SumFits(size, align)
    ensures !tooSmall ==> (p == 0 <==> HeapModel.Malloc(old(m.h), TotalSize(size, align) % WORD).1 == None)
    ensures !tooSmall && p != 0 ==> PlacedAt(m, p, align, size, HeapModel.Malloc(old(m.h), TotalSize(size, align) % WORD).1)
  {
    var total := TotalSize(size, align) % WORD;
    if SumFits(size, align) {
      NoWrap(size, align);
      p := PlaceAligned(m, size, align, total, j);
      tooSmall := false;
    } else {
      p := m.Malloc(total);
      tooSmall := p != 0;
    }
  }

  /** Only a sum that does not wrap leaves room: an aligned address with its bytes below the top word needs both roundings exact. */
  lemma PlacedNeedsSum(p: nat, size: nat, align: nat, ptr: nat, end: nat, j: nat)
    requires j < 32 && align == Pow2(j) && HDR <= ptr && end <= WORD - 4 && Placed(p, align, size, ptr, end)
    ensures SumFits(size, align)
  {
    RoundedAlignment(j);
    AtLeastItself(p, align);
    if j < 2 {
      assert Pow2(2) == 4;
    }
    SumOfWords(size, align, p);
  }

  lemma AtLeastItself(p: nat, align: nat)
    requires 0 < p && 0 < align && p % align == 0
    ensures align <= p
  {
    DivMod(p, align);
    AtLeastOne(align, p / align);
  }

  lemma SumOfWords(size: nat, align: nat, p: nat)
    requires Align4(align) <= p && p + size <= WORD - 4
    ensures SumFits(size, align)
  {
    assert Align4(size) <= size + 3 && Align4(size) % 4 == 0 && Align4(align) % 4 == 0;
  }

  /** The sum of a huge size and an alignment wraps, and a twelve-byte block is granted for it. */
  lemma MallocAlignWraps()
    ensures var h := Init(1024);
            && Inv(h) && TotalSize(WORD - 4, 8) % WORD == 4
            && HeapModel.Malloc(h, 4) == (Take(h, 0, MIN), Some(0)) && Granted(h, 4) == (0, HDR + MIN)
  {
    var h := Init(1024);
    InitInv(1024);
    assert FindFit(h, 0, MIN) == 0;
  }

  lemma AlignedFor(p: nat, a: nat, align: nat, j: nat)
    requires j < 32 && align == Pow2(j) && a == Align4(align) && 0 < a && p % a == 0
    ensures p % align == 0
  {
    RoundedAlignment(j);
    DivMod(a, align);
    assert a == a / align * align;
    MultipleOf(p, a / align, align);
  }

  lemma FieldValue(ptr: nat)
    requires ptr < WORD
    ensures Value(Field(ptr, 4)) == ptr
  {
    ValueOfField(ptr, 4);
  }

  /** `rt_free_align` of an address whose word below holds the owned pointer `ptr`. */
  method FreeAlign(m: SmallMem, p: nat, ghost ptr: nat)
    requires m.Valid() && m.InHeap(ptr) && m.Owned(ptr) && m.base + 4 <= p
    requires SavedIs(m.mem[..], WordBelow(m, p), ptr)
    modifies m, m.mem
    ensures m.Valid() && m.h == HeapModel.Free(old(m.h), m.Offset(ptr))
    ensures Kept(old(m.mem[..]), m.mem[..], Spans(m.h))
  {
    FieldValue(ptr);
    var real_ptr := Value(Slice(m.mem[..], WordBelow(m, p), 4));
    m.Free(real_ptr);
  }
}
