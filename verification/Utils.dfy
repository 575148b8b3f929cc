/** Alignment arithmetic on 32-bit addresses, with the masks of the program taken bit by bit. */
module Utils {
  import opened Bytes

  const FLASH_ALIGN: U32 := 0x1000
  const NAND_ALIGN: U32 := 512

  function Pow2(k: nat): (p: nat)
    ensures p >= 1
  {
    if k == 0 then 1 else 2 * Pow2(k - 1)
  }

  /** a & b */
  function And(a: nat, b: nat): nat {
    if a == 0 || b == 0 then 0 else (a % 2) * (b % 2) + 2 * And(a / 2, b / 2)
  }

  /** ~a */
  function Not(a: U32): U32 { 0xFFFF_FFFF - a }

  function AlignUp(addr: U32, align: U32): int {
    if align == 0 then addr else And(Wrap(addr + align - 1), Not(align - 1))
  }

  function AlignDown(addr: U32, align: U32): int {
    if align == 0 then addr else And(addr, Not(align - 1))
  }

  predicate IsAligned(addr: U32, align: U32)
    requires align != 0
  {
    addr % align == 0
  }

  lemma DivModUnique(a: int, m: int, q: int, r: int)
    requires m > 0 && 0 <= r < m && a == m * q + r
    ensures a % m == r && a / m == q
  {
    ProductSmall(m, a / m - q, r - a % m);
  }

  lemma MulGrows(m: int, d: int)
    requires m > 0 && d >= 1
    ensures m * d >= m
  {
  }

  lemma ProductSmall(m: int, d: int, p: int)
    requires p == m * d && -m < p < m
    ensures d == 0
  {
    if d > 0 {
      MulGrows(m, d);
    } else if d < 0 {
      assert m * -d == -p;
      MulGrows(m, -d);
    }
  }

  lemma ModHalves(a: nat, m: nat)
    requires m > 0
    ensures a % (2 * m) == 2 * (a / 2 % m) + a % 2
  {
    var q, r := a / 2 / m, a / 2 % m;
    assert a / 2 == m * q + r;
    assert a == (2 * m) * q + (2 * r + a % 2);
    DivModUnique(a, 2 * m, q, 2 * r + a % 2);
  }

  lemma {:induction false} Pow2Mono(k: nat, n: nat)
    requires k <= n
    ensures Pow2(k) <= Pow2(n)
  {
    if k < n {
      Pow2Mono(k, n - 1);
    }
  }

  lemma AndStep(a: nat, c: nat, odd: bool)
    ensures And(a, 2 * c + if odd then 1 else 0) == (if odd then a % 2 else 0) + 2 * And(a / 2, c)
  {
    var b := 2 * c + if odd then 1 else 0;
    assert b / 2 == c && b % 2 == if odd then 1 else 0;
    if a == 0 {
    } else if b == 0 {
      assert And(a / 2, 0) == 0;
    }
  }

  lemma MaskStep(a: nat, p: nat, q: nat)
    requires 1 <= q <= p && And(a / 2, p - q) == a / 2 - a / 2 % q
    ensures And(a, 2 * p - 2 * q) == a - a % (2 * q)
  {
    hide And;
    AndStep(a, p - q, false);
    ModHalves(a, q);
    var r := a / 2 % q;
    assert a % (2 * q) == 2 * r + a % 2;
  }

  /** Masking with the bits k to n - 1 clears the k low bits. */
  lemma {:induction false} MaskClears(a: nat, n: nat, k: nat)
    requires k <= n && a < Pow2(n)
    ensures Pow2(k) <= Pow2(n) && And(a, Pow2(n) - Pow2(k)) == a - a % Pow2(k)
    decreases n
  {
    hide And;
    Pow2Mono(k, n);
    if n == 0 {
      AndStep(a, 0, false);
    } else if k == 0 {
      MaskClears(a / 2, n - 1, 0);
      AndStep(a, Pow2(n - 1) - 1, true);
    } else {
      MaskClears(a / 2, n - 1, k - 1);
      MaskStep(a, Pow2(n - 1), Pow2(k - 1));
    }
  }

  lemma Pow2Values()
    ensures Pow2(12) == 0x1000 && Pow2(31) == 0x8000_0000 && Pow2(32) == 0x1_0000_0000
  {
    assert Pow2(4) == 16;
    assert Pow2(8) == 256;
    assert Pow2(12) == 0x1000;
    assert Pow2(16) == 0x1_0000;
    assert Pow2(20) == 0x10_0000;
    assert Pow2(24) == 0x100_0000;
    assert Pow2(28) == 0x1000_0000;
  }

  /** align_down gives the greatest multiple of a power of two that is not above addr. */
  lemma AlignDownIsGreatest(addr: U32, k: nat)
    requires k < 32
    ensures var m := Pow2(k); m < 0x1_0000_0000 && AlignDown(addr, m) == addr - addr % m
  {
    hide And, Pow2;
    Pow2Values();
    Pow2Mono(k, 31);
    MaskClears(addr, 32, k);
    assert Not(Pow2(k) - 1) == Pow2(32) - Pow2(k);
  }

  /** align_up gives the least multiple of a power of two that is not below addr if and only if that
      multiple is below 2^32; otherwise it gives 0. */
  lemma AlignUpExactly(addr: U32, k: nat)
    requires k < 32
    ensures var m := Pow2(k);
      && m < 0x1_0000_0000
      && var r := AlignUp(addr, m);
      && (addr + m - 1 < 0x1_0000_0000 <==> addr <= r < addr + m && r % m == 0)
      && (addr + m - 1 >= 0x1_0000_0000 ==> r == 0)
  {
    hide And, Pow2;
    Pow2Values();
    Pow2Mono(k, 31);
    var m := Pow2(k);
    var x := Wrap(addr + m - 1);
    MaskClears(x, 32, k);
    assert Not(m - 1) == Pow2(32) - m;
    if addr + m - 1 < 0x1_0000_0000 {
      assert x == addr + m - 1;
      var q := x / m;
      assert x == m * q + x % m;
      DivModUnique(m * q, m, q, 0);
    } else {
      assert x == addr + m - 1 - 0x1_0000_0000 < m;
      DivModUnique(x, m, 0, x);
    }
  }

  // ---- Alignments that are no powers of two ----

  /** No number has a bit in common with its complement. */
  lemma {:induction false} Complement(n: nat, h: nat)
    requires h < Pow2(n)
    ensures And(h, Pow2(n) - 1 - h) == 0
  {
    hide And;
    var c := Pow2(n) - 1 - h;
    if n == 0 {
      AndStep(h, 0, false);
    } else {
      Complement(n - 1, h / 2);
      AndStep(h, c / 2, c % 2 == 1);
      assert c / 2 == Pow2(n - 1) - 1 - h / 2 && c % 2 == 1 - h % 2;
    }
  }

  /** A number that has all its bits in common with its negative is a power of two. */
  lemma {:induction false} LowBit(n: nat, m: nat) returns (k: nat)
    requires 0 < m < Pow2(n) && And(m, Pow2(n) - m) == m
    ensures m == Pow2(k)
  {
    hide And;
    if m % 2 == 0 {
      AndStep(m, Pow2(n - 1) - m / 2, false);
      var j := LowBit(n - 1, m / 2);
      k := j + 1;
    } else {
      AndStep(m, Pow2(n - 1) - m / 2 - 1, true);
      Complement(n - 1, m / 2);
      k := 0;
    }
  }

  ghost predicate PowerOfTwo(m: nat) { exists k: nat :: k < 32 && m == Pow2(k) }

  lemma SmallPower(m: nat)
    requires 0 < m < 0x1_0000_0000 && And(m, 0x1_0000_0000 - m) == m
    ensures PowerOfTwo(m)
  {
    hide And, Pow2;
    Pow2Values();
    var k := LowBit(32, m);
    if k >= 32 {
      Pow2Mono(32, k);
    }
  }

  /** align_down gives the greatest multiple not above every address exactly for powers of two. */
  lemma AlignDownIff(m: U32)
    requires m > 0
    ensures (forall addr: U32 :: AlignDown(addr, m) == addr - addr % m) <==> PowerOfTwo(m)
  {
    hide And, Pow2;
    if PowerOfTwo(m) {
      var k: nat :| k < 32 && m == Pow2(k);
      forall addr: U32 ensures AlignDown(addr, m) == addr - addr % m {
        AlignDownIsGreatest(addr, k);
      }
    } else if forall addr: U32 :: AlignDown(addr, m) == addr - addr % m {
      assert AlignDown(m, m) == m;
      SmallPower(m);
    }
  }

  /** The least multiple not below addr, where it fits 32 bits. */
  predicate UpExact(addr: U32, m: U32)
    requires m > 0
  {
    addr as int + m - 1 < 0x1_0000_0000 ==>
      var r := AlignUp(addr, m);
      addr <= r < addr as int + m && r % m == 0
  }

  /** And so does align_up: for any other alignment it already fails at address 1. */
  lemma AlignUpIff(m: U32)
    requires m > 0
    ensures (forall addr: U32 :: UpExact(addr, m)) <==> PowerOfTwo(m)
    ensures !PowerOfTwo(m) ==> !UpExact(1, m)
  {
    hide And, Pow2;
    if PowerOfTwo(m) {
      var k: nat :| k < 32 && m == Pow2(k);
      forall addr: U32 ensures UpExact(addr, m) {
        AlignUpExactly(addr, k);
      }
    } else if UpExact(1, m) {
      var r := AlignUp(1, m);
      FirstMultiple(r, m);
      assert Wrap(1 + m as int - 1) == m;
      SmallPower(m);
    }
  }

  lemma FirstMultiple(r: int, m: int)
    requires 1 <= r < 1 + m && r % m == 0
    ensures r == m
  {
    if r < m {
      DivModUnique(r, m, 0, r);
    }
  }

  lemma NextMultiple(a: int, r: int)
    requires a <= r < a + 0x1000 && r % 0x1000 == 0
    ensures r == (a + 0xFFF) / 0x1000 * 0x1000
  {
  }

  /** align_up to a flash sector, in numbers. */
  lemma SectorUp(addr: U32)
    ensures addr <= 0xFFFF_F000 ==> AlignUp(addr, FLASH_ALIGN) == (addr + 0xFFF) / 0x1000 * 0x1000
    ensures addr > 0xFFFF_F000 ==> AlignUp(addr, FLASH_ALIGN) == 0
  {
    hide AlignUp, Pow2;
    Pow2Values();
    AlignUpExactly(addr, 12);
    if addr <= 0xFFFF_F000 {
      NextMultiple(addr, AlignUp(addr, FLASH_ALIGN));
    }
  }
}
