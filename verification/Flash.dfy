/** The flash partition a firmware image is downloaded to, and the driver that erases and programs it (`drv_flash_f1.c`). */
module Flash {
  import opened Common

  type Cell = bv8

  const BLANK: Cell := 0xFF

  type Bytes = seq<Cell>

  /** `GetPage`: the start of the page an address lies in, for pages of `p` bytes. */
  function PageOf(addr: nat, p: nat): nat
    requires 0 < p
  {
    addr - addr % p
  }

  /** How many pages an erase of `size` bytes takes. */
  function Pages(size: nat, p: nat): nat
    requires 0 < p
  {
    (size + p - 1) / p
  }

  predicate Within(i: int, from: nat, n: nat) { from <= i < from + n }

  /** `n` bytes from `from` on become blank. */
  function Blanked(f: Bytes, from: nat, n: nat): Bytes {
    seq(|f|, i requires 0 <= i < |f| => if Within(i, from, n) then BLANK else f[i])
  }

  /** What `stm32_flash_erase_bank` does when it erases `k` pages from the page of `addr`. */
  function ErasedPages(f: Bytes, addr: nat, k: nat, p: nat): Bytes
    requires 0 < p
  {
    Blanked(f, PageOf(addr, p), k * p)
  }

  function Erased(f: Bytes, addr: nat, size: nat, p: nat): Bytes
    requires 0 < p
  {
    ErasedPages(f, addr, Pages(size, p), p)
  }

  /** Programming a cell can only clear bits. */
  function Burn(f: Cell, d: Cell): Cell { f & d }

  function Burned(f: Bytes, addr: nat, d: Bytes): Bytes {
    seq(|f|, i requires 0 <= i < |f| => if Within(i, addr, |d|) then Burn(f[i], d[i - addr]) else f[i])
  }

  lemma BurnBlank(d: Cell)
    ensures Burn(BLANK, d) == d
  {
  }

  lemma BurnSame(d: Cell)
    ensures Burn(d, d) == d
  {
  }

  /** The bytes programmed for a buffer: whole words, the last filled up with what follows the buffer in memory. */
  function Padded(d: Bytes, pad: Bytes): Bytes { if |d| % 4 == 0 || |pad| < 3 then d else d + pad[..4 - |d| % 4] }

  /** `stm32_flash_write` with cells that program without fault: an address that is not word-aligned is refused. */
  function Programmed(f: Bytes, addr: nat, d: Bytes, pad: Bytes): Bytes {
    if addr % 4 != 0 then f else Burned(f, addr, Padded(d, pad))
  }

  // ---------------------------------------------------------------- erasing

  lemma CoverPages(size: nat, p: nat)
    requires 0 < p
    ensures size <= Pages(size, p) * p
  {
    assert size + p - 1 == p * ((size + p - 1) / p) + (size + p - 1) % p;
  }

  /** On a page boundary, an erase blanks what it was asked to and nothing before it. */
  lemma EraseExact(f: Bytes, addr: nat, size: nat, p: nat)
    requires 0 < p && addr % p == 0
    ensures var r := Erased(f, addr, size, p);
            && |r| == |f| && (forall i :: 0 <= i < |f| && i < addr ==> r[i] == f[i])
            && (forall i :: addr <= i < addr + size && i < |f| ==> r[i] == BLANK)
            && (forall i :: 0 <= i < |f| ==> r[i] == f[i] || r[i] == BLANK)
  {
    CoverPages(size, p);
  }

  /** The byte before the address survives an erase, if it was not blank, exactly if the address starts a page. */
  lemma EraseKeepsBelow(f: Bytes, addr: nat, size: nat, p: nat)
    requires 0 < p && 0 < addr <= |f| && 0 < size && f[addr - 1] != BLANK
    ensures Erased(f, addr, size, p)[addr - 1] == f[addr - 1] <==> addr % p == 0
  {
    CoverPages(size, p);
    if addr % p == 0 {
      EraseExact(f, addr, size, p);
    } else {
      assert Pages(size, p) >= 1 && Pages(size, p) * p >= p;
      assert Within(addr - 1, PageOf(addr, p), Pages(size, p) * p);
    }
  }

  /** Byte `i` lies in a page from the first to the last one of a range that starts on a page. */
  predicate InPages(i: nat, addr: nat, size: nat, p: nat)
    requires 0 < p && 0 < size
  {
    addr / p <= i / p <= (addr + size - 1) / p
  }

  lemma FromPage(i: nat, a: nat, p: nat)
    requires 0 < p
    ensures a <= i / p <==> p * a <= i
  {
    DivMod(i, p);
    if a <= i / p { assert p * a <= p * (i / p); } else { assert p * (i / p + 1) <= p * a; }
  }

  lemma PageCount(addr: nat, size: nat, p: nat)
    requires 0 < p && 0 < size && addr % p == 0
    ensures p * (addr / p) == addr && p * ((addr + size - 1) / p + 1) == addr + Pages(size, p) * p
  {
    var (a, b) := (addr / p, (size - 1) / p);
    DivMod(addr, p);
    DivMod(size - 1, p);
    DivUnique(addr + size - 1, p, a + b, (size - 1) % p);
    DivUnique(size + p - 1, p, b + 1, (size - 1) % p);
  }

  lemma PageRange(i: nat, addr: nat, size: nat, p: nat)
    requires 0 < p && 0 < size && addr % p == 0
    ensures InPages(i, addr, size, p) <==> addr <= i < addr + Pages(size, p) * p
  {
    PageCount(addr, size, p);
    FromPage(i, addr / p, p);
    FromPage(i, (addr + size - 1) / p + 1, p);
  }

  /** An erase from a page boundary blanks the pages of its range, and no others. */
  lemma ErasesPages(f: Bytes, addr: nat, size: nat, p: nat)
    requires 0 < p && 0 < size && addr % p == 0
    ensures |Erased(f, addr, size, p)| == |f|
    ensures forall i :: 0 <= i < |f| ==> Erased(f, addr, size, p)[i] == if InPages(i, addr, size, p) then BLANK else f[i]
  {
    forall i | 0 <= i < |f| ensures Erased(f, addr, size, p)[i] == if InPages(i, addr, size, p) then BLANK else f[i] {
      PageRange(i, addr, size, p);
    }
  }

  // ---------------------------------------------------------------- the driver on the array

  /**
   * `stm32_flash_erase_bank`: a range that does not fit is refused, otherwise the pages are erased one by one, up to the
   * first that cannot be erased; `good` is how many pages can.
   */
  method EraseBank(flash: array<Cell>, addr: nat, size: nat, p: nat, good: nat) returns (ok: bool)
    requires 0 < p
    modifies flash
    ensures ok <==> addr + size <= flash.Length && Pages(size, p) <= good
    ensures flash[..] == if addr + size <= flash.Length then ErasedPages(old(flash[..]), addr, Min(good, Pages(size, p)), p)
                         else old(flash[..])
  {
    if addr + size > flash.Length {
      return false;
    }
    ok := Pages(size, p) <= good;
    EraseLoop(flash, addr, Min(good, Pages(size, p)), p);
  }

  method EraseLoop(flash: array<Cell>, addr: nat, n: nat, p: nat)
    requires 0 < p
    modifies flash
    ensures flash[..] == ErasedPages(old(flash[..]), addr, n, p)
  {
    var page := PageOf(addr, p);
    ghost var f := flash[..];
    var k := 0;
    var at := page;
    while k < n
      invariant 0 <= k <= n && at == page + k * p && |f| == flash.Length
      invariant forall i :: 0 <= i < flash.Length ==> flash[i] == if Within(i, page, k * p) then BLANK else f[i]
    {
      ErasePage(flash, at, p);
      k := k + 1;
      assert k * p == (k - 1) * p + p;
      at := at + p;
    }
  }

  method ErasePage(flash: array<Cell>, at: nat, p: nat)
    modifies flash
    ensures forall i :: 0 <= i < flash.Length ==> flash[i] == if Within(i, at, p) then BLANK else old(flash[i])
  {
    var i := at;
    while i < at + p && i < flash.Length
      invariant at <= i <= at + p
      invariant forall j :: 0 <= j < flash.Length ==> flash[j] == if Within(j, at, i - at) then BLANK else old(flash[j])
    {
      flash[i] := BLANK;
      i := i + 1;
    }
  }

  /** The cells of a range take the data: nothing in it needs a bit set that is clear. */
  predicate Takes(f: Bytes, addr: nat, d: Bytes) {
    forall i :: 0 <= i < |d| && addr + i < |f| ==> Burn(f[addr + i], d[i]) == d[i]
  }

  /** The cells take the data exactly if programming it leaves it there. */
  lemma TakesExactly(f: Bytes, addr: nat, d: Bytes)
    requires addr + |d| <= |f|
    ensures Takes(f, addr, d) <==> Burned(f, addr, d)[addr..addr + |d|] == d
  {
    var r := Burned(f, addr, d)[addr..addr + |d|];
    assert forall i :: 0 <= i < |d| ==> r[i] == Burn(f[addr + i], d[i]);
  }

  function Words(size: nat): nat { (size + 3) / 4 * 4 }

  /** One word is programmed and read back. */
  method ProgramWord(flash: array<Cell>, addr: nat, d: Bytes, k: nat) returns (same: bool)
    requires addr + k + 4 <= flash.Length && k + 4 <= |d|
    modifies flash
    ensures same == forall i :: k <= i < k + 4 ==> Burn(old(flash[addr + i]), d[i]) == d[i]
    ensures forall j :: 0 <= j < flash.Length ==>
              flash[j] == if Within(j, addr + k, 4) then Burn(old(flash[j]), d[j - addr]) else old(flash[j])
  {
    var i := 0;
    same := true;
    while i < 4
      invariant 0 <= i <= 4
      invariant same == forall j :: k <= j < k + i ==> Burn(old(flash[addr + j]), d[j]) == d[j]
      invariant forall j :: 0 <= j < flash.Length ==>
                  flash[j] == if Within(j, addr + k, i) then Burn(old(flash[j]), d[j - addr]) else old(flash[j])
    {
      flash[addr + k + i] := Burn(flash[addr + k + i], d[k + i]);
      same := same && flash[addr + k + i] == d[k + i];
      i := i + 1;
    }
  }

  /**
   * `stm32_flash_write` of the `size` bytes at the start of the memory `mem`: words are programmed and read back one by
   * one, up to the first that differs or cannot be programmed; `good` is how many can. `n` is the number of bytes programmed.
   */
  method WriteFlash(flash: array<Cell>, addr: nat, mem: Bytes, size: nat, good: nat) returns (ok: bool, ghost n: nat)
    requires Words(size) <= |mem| && flash.Length % 4 == 0
    modifies flash
    ensures addr % 4 != 0 || addr + size > flash.Length ==> !ok && n == 0
    ensures n <= Words(size) && n % 4 == 0 && n <= 4 * good && flash[..] == Burned(old(flash[..]), addr, mem[..n])
    ensures addr % 4 == 0 && addr + size <= flash.Length ==>
              && (ok <==> Takes(old(flash[..]), addr, mem[..Words(size)]) && Words(size) <= 4 * good) && (ok ==> n == Words(size))
              && (!ok ==> n == 4 * good || Differs(old(flash[..]), addr, mem[..n]))
  {
    n := 0;
    if addr % 4 != 0 || addr + size > flash.Length {
      return false, n;
    }
    WordsFit(addr, size, flash.Length);
    ok, n := WriteLoop(flash, addr, mem, size, Words(size), good);
  }

  /** Some cell does not read back as the byte programmed to it. */
  ghost predicate Differs(f: Bytes, addr: nat, d: Bytes) {
    exists i :: 0 <= i < |d| && addr + i < |f| && Burn(f[addr + i], d[i]) != d[i]
  }

  lemma WordsFit(addr: nat, size: nat, length: nat)
    requires addr % 4 == 0 && length % 4 == 0 && addr + size <= length
    ensures addr + Words(size) <= length && size <= Words(size) < size + 4
  {
  }

  method WriteLoop(flash: array<Cell>, addr: nat, mem: Bytes, size: nat, ghost total: nat, good: nat) returns (ok: bool, ghost n: nat)
    requires size <= total < size + 4 && total % 4 == 0 && total <= |mem| && addr + total <= flash.Length
    modifies flash
    ensures n <= total && n % 4 == 0 && n <= 4 * good && flash[..] == Burned(old(flash[..]), addr, mem[..n])
    ensures (ok <==> Takes(old(flash[..]), addr, mem[..total]) && total <= 4 * good) && (ok ==> n == total)
    ensures !ok ==> n == 4 * good || Differs(old(flash[..]), addr, mem[..n])
  {
    ok, n := true, 0;
    ghost var f := flash[..];
    var k, w := 0, 0;
    while k < size
      invariant k == 4 * w && k <= total && w <= good && n == k && ok
      invariant forall i :: 0 <= i < k ==> Burn(f[addr + i], mem[i]) == mem[i]
      invariant forall j :: 0 <= j < flash.Length ==> flash[j] == if Within(j, addr, k) then Burn(f[j], mem[j - addr]) else f[j]
    {
      if w == good {
        ok := false;
        return;
      }
      ghost var now := flash[..];
      ok := ProgramWord(flash, addr, mem, k);
      n := k + 4;
      if !ok {
        ghost var i :| k <= i < k + 4 && Burn(now[addr + i], mem[i]) != mem[i];
        assert now[addr + i] == f[addr + i] && mem[..total][i] == mem[i] && mem[..n][i] == mem[i];
        return;
      }
      k, w := k + 4, w + 1;
    }
  }
}
