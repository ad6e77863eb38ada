/** Types shared by the models. */
module Common {
  datatype Option<+T> = None | Some(value: T)

  type Byte = b: int | 0 <= b < 256

  type Message = seq<Byte>

  /** Width of `rt_size_t` and `rt_ubase_t` on the Cortex-M3 target. */
  const WORD: nat := 0x1_0000_0000

  function Max(a: int, b: int): int { if a < b then b else a }

  function Min(a: int, b: int): int { if a < b then a else b }

  /** Ten to the power of `k`. */
  function Ten(k: nat): nat { if k == 0 then 1 else 10 * Ten(k - 1) }

  lemma TenTens()
    ensures Ten(10) == 10_000_000_000
  {
    assert Ten(5) == 100000;
    assert Ten(10) == 100000 * Ten(5);
  }

  // ---------------------------------------------------------------- sequences

  lemma Assoc<T>(a: seq<T>, b: seq<T>, c: seq<T>)
    ensures (a + b) + c == a + (b + c)
  {
  }

  lemma FourParts<T>(a: seq<T>, b: seq<T>, c: seq<T>, d: seq<T>)
    ensures a + b + c + d == a + (b + (c + d))
  {
  }

  // ---------------------------------------------------------------- division

  lemma DivMod(x: nat, d: nat)
    requires 0 < d
    ensures x == d * (x / d) + x % d && x % d < d
  {
  }

  lemma AtLeastOne(d: nat, t: int)
    requires 0 < t
    ensures d <= d * t
  {
  }

  lemma ModUnique(x: nat, d: nat, q: nat, r: nat)
    requires 0 < d && x == d * q + r && r < d
    ensures x % d == r
  {
    DivMod(x, d);
    var t := q - x / d;
    assert d * t == d * q - d * (x / d);
    if t > 0 { AtLeastOne(d, t); }
    if t < 0 { AtLeastOne(d, -t); }
  }

  lemma DivUnique(x: nat, d: nat, q: nat, r: nat)
    requires 0 < d && x == d * q + r && r < d
    ensures x / d == q
  {
    DivMod(x, d);
    ModUnique(x, d, q, r);
    assert d * (x / d) == d * q;
  }

  lemma MultipleOf(x: nat, a: nat, b: nat)
    requires 0 < a && 0 < b && x % (a * b) == 0
    ensures x % b == 0
  {
    DivMod(x, a * b);
    assert x == b * (a * (x / (a * b)));
    ModUnique(x, b, a * (x / (a * b)), 0);
  }
}
