/** The arithmetic of the 64-bit message length kept in two 32-bit words. */
module Md5Length {
  import opened Bytes
  import Utils

  const TWO64: int := 0x1_0000_0000_0000_0000

  lemma ModPeriod(b: int, c: int, m: int)
    requires m > 0
    ensures (b + c * m) % m == b % m
  {
    assert b + c * m == m * (b / m + c) + b % m;
    Utils.DivModUnique(b + c * m, m, b / m + c, b % m);
  }

  lemma ModSum(a: nat, b: nat)
    requires a % 64 == 0
    ensures (a + b) % 64 == b % 64
  {
    ModPeriod(b, a / 64, 64);
  }

  /** The two length words count modulo 2^64, as long as one call adds less than 2^32. */
  lemma LengthCounts(t0: U32, t1: U32, n: nat, k: nat)
    requires t0 + t1 * 0x1_0000_0000 == n % TWO64 && k < 0x1_0000_0000
    ensures var s0 := Wrap(t0 + k);
      var s1 := if s0 < k then Wrap(t1 + 1) else t1;
      s0 + s1 * 0x1_0000_0000 == (n + k) % TWO64
    ensures t0 % 64 == n % 64
  {
    var c, v := n / TWO64, t0 + t1 * 0x1_0000_0000;
    assert n == v + c * TWO64;
    ModPeriod(v, c * 0x400_0000_0000_0000, 64);
    ModPeriod(t0, t1 * 0x400_0000, 64);
    ModPeriod(v + k, c, TWO64);
    assert (n + k) % TWO64 == (v + k) % TWO64;
    TwoWords(t0, t1, k);
  }

  lemma TwoWords(t0: U32, t1: U32, k: nat)
    requires k < 0x1_0000_0000
    ensures var s0 := Wrap(t0 + k);
      var s1 := if s0 < k then Wrap(t1 + 1) else t1;
      s0 + s1 * 0x1_0000_0000 == (t0 + t1 * 0x1_0000_0000 + k) % TWO64
  {
    var s := t0 + k;
    if s < 0x1_0000_0000 {
      assert Wrap(s) == s;
    } else if t1 < 0xFFFF_FFFF {
      assert Wrap(s) == s - 0x1_0000_0000 < k;
    } else {
      assert Wrap(s) == s - 0x1_0000_0000 < k;
      ModPeriod(s - 0x1_0000_0000, 1, TWO64);
    }
  }

  lemma HighHalf(x: U32, y: nat)
    ensures (x + y * 0x1_0000_0000) % TWO64 == x + Wrap(y) * 0x1_0000_0000
  {
    ModPeriod(x + Wrap(y) * 0x1_0000_0000, y / 0x1_0000_0000, TWO64);
  }

  /** The length in bits, in two words. */
  lemma BitLength(t0: U32, t1: U32, n: nat)
    requires t0 + t1 * 0x1_0000_0000 == n % TWO64
    ensures 8 * n % TWO64 == Wrap(t0 * 8) + Wrap(t0 / 0x2000_0000 + t1 * 8) * 0x1_0000_0000
  {
    var c, a, b := n / TWO64, t0 / 0x2000_0000, t0 % 0x2000_0000;
    var v := t0 * 8 + t1 * 8 * 0x1_0000_0000;
    assert 8 * n == v + 8 * c * TWO64;
    ModPeriod(v, 8 * c, TWO64);
    assert t0 * 8 == 8 * b + a * 0x1_0000_0000;
    assert Wrap(t0 * 8) == 8 * b by { ModPeriod(8 * b, a, 0x1_0000_0000); }
    HighHalf(8 * b, a + t1 * 8);
  }
}
