/** The headers of the heap as bytes in its memory. */
module HeapBytes {
  import opened Common
  import opened HeapModel
  import opened LittleEndian

  const MAGIC: nat := 0x1ea0

  /** struct heap_mem, without RT_USING_MEMTRACE. */
  datatype Header = Header(magic: nat, used: nat, next: nat, prev: nat)

  predicate Encodable(h: Header) {
    h.magic < 0x1_0000 && h.used < 0x1_0000 && h.next < WORD && h.prev < WORD
  }

  function Decode(b: seq<Byte>): Header
    requires |b| == HDR
  {
    Header(Value(b[..2]), Value(b[2..4]), Value(b[4..8]), Value(b[8..]))
  }

  function HeaderAt(m: seq<Byte>, p: nat): Header
    requires p + HDR <= |m|
  {
    Decode(m[p..p + HDR])
  }

  function Encode(h: Header): (b: seq<Byte>)
    ensures |b| == HDR
  {
    Field(h.magic, 2) + Field(h.used, 2) + Field(h.next, 4) + Field(h.prev, 4)
  }

  /** Memory with `b` written at `p`. */
  function Write(m: seq<Byte>, p: nat, b: seq<Byte>): (r: seq<Byte>)
    requires p + |b| <= |m|
    ensures |r| == |m|
  {
    m[..p] + b + m[p + |b|..]
  }

  /** The `n` bytes from `p` on. */
  function Slice(m: seq<Byte>, p: nat, n: nat): seq<Byte> { if p + n <= |m| then m[p..p + n] else [] }

  function Put(m: seq<Byte>, p: nat, h: Header): (r: seq<Byte>)
    requires p + HDR <= |m|
    ensures |r| == |m|
  {
    Write(m, p, Encode(h))
  }

  lemma TwoBytes(v: nat)
    requires v < 0x1_0000
    ensures Field(v, 2) == [v % 0x100, v / 0x100]
  {
    assert Field(v / 0x100, 1) == [v / 0x100] + Field(v / 0x100 / 0x100, 0);
  }

  lemma FourBytes(v: nat)
    requires v < WORD
    ensures Field(v, 4) == [v % 0x100, v / 0x100 % 0x100, v / 0x1_0000 % 0x100, v / 0x100_0000]
  {
    assert v / 0x100 / 0x100 == v / 0x1_0000;
    assert Field(v, 4) == [v % 0x100, v / 0x100 % 0x100] + Field(v / 0x1_0000, 2);
    TwoBytes(v / 0x1_0000);
    assert v / 0x1_0000 / 0x100 == v / 0x100_0000;
  }

  /** The fields of a header byte by byte: magic, used, next and prev, each with its lowest byte first. */
  lemma HeaderLayout(h: Header)
    requires Encodable(h)
    ensures Encode(h)[..4] == [h.magic % 0x100, h.magic / 0x100, h.used % 0x100, h.used / 0x100]
    ensures Encode(h)[4..8] == [h.next % 0x100, h.next / 0x100 % 0x100, h.next / 0x1_0000 % 0x100, h.next / 0x100_0000]
    ensures Encode(h)[8..] == [h.prev % 0x100, h.prev / 0x100 % 0x100, h.prev / 0x1_0000 % 0x100, h.prev / 0x100_0000]
  {
    TwoBytes(h.magic);
    TwoBytes(h.used);
    FourBytes(h.next);
    FourBytes(h.prev);
  }

  lemma DecodeEncode(h: Header)
    requires Encodable(h)
    ensures Decode(Encode(h)) == h
  {
    var b := Encode(h);
    assert b[..2] == Field(h.magic, 2) && b[2..4] == Field(h.used, 2);
    assert b[4..8] == Field(h.next, 4) && b[8..] == Field(h.prev, 4);
    ValueOfField(h.magic, 2);
    ValueOfField(h.used, 2);
    ValueOfField(h.next, 4);
    ValueOfField(h.prev, 4);
  }

  /** A header is read back as written. */
  lemma PutGet(m: seq<Byte>, p: nat, h: Header)
    requires p + HDR <= |m| && Encodable(h)
    ensures HeaderAt(Put(m, p, h), p) == h
  {
    assert Put(m, p, h)[p..p + HDR] == Encode(h);
    DecodeEncode(h);
  }

  /** Writing outside a header leaves it alone. */
  lemma WriteOther(m: seq<Byte>, p: nat, b: seq<Byte>, q: nat)
    requires p + |b| <= |m| && q + HDR <= |m| && (q + HDR <= p || p + |b| <= q)
    ensures HeaderAt(Write(m, p, b), q) == HeaderAt(m, q)
  {
    assert Write(m, p, b)[q..q + HDR] == m[q..q + HDR];
  }

  predicate Apart(p: nat, q: nat) { p == q || p + HDR <= q || q + HDR <= p }

  /** A header at `p` would overlap none of `hs`. */
  ghost predicate ApartFrom(p: nat, hs: map<nat, Header>) {
    forall q {:trigger Apart(p, q)} :: q in hs ==> Apart(p, q)
  }

  predicate HoldsAt(m: seq<Byte>, p: nat, h: Header) {
    p + HDR <= |m| && Encodable(h) && HeaderAt(m, p) == h
  }

  /** The bytes hold the headers `hs`, which do not overlap. */
  ghost predicate Holds(m: seq<Byte>, hs: map<nat, Header>) {
    forall p {:trigger HoldsAt(m, p, hs[p])} {:trigger ApartFrom(p, hs)} ::
      p in hs ==> HoldsAt(m, p, hs[p]) && ApartFrom(p, hs)
  }

  /** Writing a header that overlaps no other one. */
  lemma PutHolds(m: seq<Byte>, hs: map<nat, Header>, p: nat, h: Header)
    requires Holds(m, hs) && p + HDR <= |m| && Encodable(h) && ApartFrom(p, hs)
    ensures Holds(Put(m, p, h), hs[p := h])
  {
    var r, gs := Put(m, p, h), hs[p := h];
    forall q | q in gs ensures HoldsAt(r, q, gs[q]) && ApartFrom(q, gs) {
      if q == p {
        PutGet(m, p, h);
      } else {
        assert HoldsAt(m, q, hs[q]) && ApartFrom(q, hs) && Apart(p, q);
        WriteOther(m, p, Encode(h), q);
      }
    }
  }

  /** Writing outside the headers. */
  lemma WriteHolds(m: seq<Byte>, hs: map<nat, Header>, p: nat, b: seq<Byte>)
    requires Holds(m, hs) && p + |b| <= |m|
    requires forall q :: q in hs ==> p + |b| <= q || q + HDR <= p
    ensures Holds(Write(m, p, b), hs)
  {
    var r := Write(m, p, b);
    forall q | q in hs ensures HoldsAt(r, q, hs[q]) && ApartFrom(q, hs) {
      assert HoldsAt(m, q, hs[q]) && ApartFrom(q, hs);
      WriteOther(m, p, b, q);
    }
  }

  /** A header that is merged away no longer counts. */
  lemma DropHolds(m: seq<Byte>, hs: map<nat, Header>, p: nat)
    requires Holds(m, hs)
    ensures Holds(m, hs - {p})
  {
    var gs := hs - {p};
    forall q | q in gs ensures HoldsAt(m, q, gs[q]) && ApartFrom(q, gs) {
      assert HoldsAt(m, q, hs[q]) && ApartFrom(q, hs);
      forall o | o in gs ensures Apart(q, o) { assert o in hs; }
    }
  }

  // ---------------------------------------------------------------- payloads

  /** The payload of a span. */
  function SpanBytes(m: seq<Byte>, s: (nat, nat)): seq<Byte> {
    if s.0 + HDR <= s.1 <= |m| then m[s.0 + HDR..s.1] else []
  }

  /** The payloads of the spans are the same in both memories. */
  ghost predicate Kept(m: seq<Byte>, r: seq<Byte>, spans: set<(nat, nat)>) {
    && |m| == |r|
    && forall s {:trigger SpanBytes(m, s)} {:trigger SpanBytes(r, s)} :: s in spans ==> SpanBytes(m, s) == SpanBytes(r, s)
  }

  /** A header at `p` would lie in no payload of the spans. */
  ghost predicate Clear(p: nat, spans: set<(nat, nat)>) {
    forall s :: s in spans ==> p <= s.0 || s.1 <= p
  }

  lemma PutKept(m: seq<Byte>, p: nat, h: Header, spans: set<(nat, nat)>)
    requires p + HDR <= |m| && Clear(p, spans)
    ensures Kept(m, Put(m, p, h), spans)
  {
    var r := Put(m, p, h);
    forall s | s in spans ensures SpanBytes(m, s) == SpanBytes(r, s) { WriteSpan(m, p, Encode(h), s); }
  }

  lemma WriteSpan(m: seq<Byte>, p: nat, b: seq<Byte>, s: (nat, nat))
    requires p + |b| <= |m| && (p + |b| <= s.0 + HDR || s.1 <= p)
    ensures SpanBytes(Write(m, p, b), s) == SpanBytes(m, s)
  {
  }

  /** What two steps keep, for the spans both keep. */
  lemma KeptTwice(m: seq<Byte>, n: seq<Byte>, r: seq<Byte>, a: set<(nat, nat)>, b: set<(nat, nat)>, c: set<(nat, nat)>)
    requires Kept(m, n, a) && Kept(n, r, b) && c <= a && c <= b
    ensures Kept(m, r, c)
  {
    forall s | s in c ensures SpanBytes(m, s) == SpanBytes(r, s) { assert SpanBytes(m, s) == SpanBytes(n, s); }
  }
}
