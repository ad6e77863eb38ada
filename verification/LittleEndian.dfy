/** Numbers as little-endian bytes. */
module LittleEndian {
  import opened Common

  /** The number a little-endian field holds. */
  function Value(b: seq<Byte>): nat {
    if b == [] then 0 else b[0] as int + 0x100 * Value(b[1..])
  }

  /** The `n` bytes of a little-endian field. */
  function Field(v: nat, n: nat): (b: seq<Byte>)
    ensures |b| == n
  {
    if n == 0 then [] else [v % 0x100] + Field(v / 0x100, n - 1)
  }

  lemma ValueOfField(v: nat, n: nat)
    ensures n == 2 && v < 0x1_0000 ==> Value(Field(v, n)) == v
    ensures n == 4 && v < WORD ==> Value(Field(v, n)) == v
  {
    if n == 2 {
      ValueField(v / 0x100, 1);
      ValueField(v, 2);
    }
    if n == 4 {
      ValueField(v / 0x100_0000, 1);
      ValueField(v / 0x1_0000, 2);
      ValueField(v / 0x100, 3);
      ValueField(v, 4);
    }
  }

  lemma ValueField(v: nat, n: nat)
    requires 0 < n
    ensures Value(Field(v, n)) == v % 0x100 + 0x100 * Value(Field(v / 0x100, n - 1))
  {
    assert Field(v, n)[1..] == Field(v / 0x100, n - 1);
  }

  lemma {:induction false} FieldOfValue(b: seq<Byte>)
    ensures Field(Value(b), |b|) == b
  {
    if b != [] {
      FieldOfValue(b[1..]);
      assert Value(b) % 0x100 == b[0] && Value(b) / 0x100 == Value(b[1..]);
      assert b == [b[0]] + b[1..];
    }
  }

  lemma WordValue(b: seq<Byte>)
    requires |b| == 4
    ensures Value(b) < WORD
  {
    assert b[1..][1..] == b[2..] && b[2..][1..] == b[3..] && b[3..][1..] == [];
    assert Value(b[3..]) == b[3] && Value(b[2..]) == b[2] + 0x100 * Value(b[3..]) && Value(b[1..]) == b[1] + 0x100 * Value(b[2..]);
  }
}
