/** Fixed-width integers of the host program, as ranges of `int`. */
module Bytes {
  type Byte = x: int | 0 <= x < 0x100
  type U16 = x: int | 0 <= x < 0x1_0000
  type U32 = x: int | 0 <= x < 0x1_0000_0000

  function Least(a: nat, b: nat): nat { if a <= b then a else b }

  /** n bytes of 0. */
  function Zeros(n: nat): (s: seq<Byte>)
    ensures |s| == n
  {
    seq(n, _ => 0)
  }

  /** The value that a uint32_t keeps of x. */
  function Wrap(x: int): U32 { x % 0x1_0000_0000 }

  /** The two-byte number hi, lo. */
  function Word(hi: Byte, lo: Byte): U16 { hi as int * 0x100 + lo }

  lemma WrapShift(a: int, b: int, k: int)
    requires Wrap(a) == Wrap(b)
    ensures Wrap(a + k) == Wrap(b + k)
  {
    var m := (a - b) / 0x1_0000_0000;
    assert a == b + m * 0x1_0000_0000;
  }

  lemma WrapTwice(a: int, k: int)
    ensures Wrap(Wrap(a) + k) == Wrap(a + k)
  {
    WrapShift(Wrap(a), a, k);
  }

  /** n low-order bytes of v, low-order byte first. */
  function LittleEndian(v: nat, n: nat): (b: seq<Byte>)
    ensures |b| == n
  {
    if n == 0 then [] else [v % 0x100] + LittleEndian(v / 0x100, n - 1)
  }

  function Pow256(n: nat): nat { if n == 0 then 1 else 0x100 * Pow256(n - 1) }

  lemma {:induction false} LittleEndianSplit(n: nat, low: nat, high: nat, k: nat)
    requires low < Pow256(n)
    ensures LittleEndian(low + Pow256(n) * high, n + k) == LittleEndian(low, n) + LittleEndian(high, k)
  {
    if n > 0 {
      var p := Pow256(n - 1);
      LittleEndianSplit(n - 1, low / 0x100, high, k);
      ScaledDigits(low, p, high);
    }
  }

  lemma ScaledDigits(low: nat, p: nat, high: nat)
    ensures var v := low + 0x100 * p * high; v % 0x100 == low % 0x100 && v / 0x100 == low / 0x100 + p * high
  {
    var w := p * high;
    assert 0x100 * p * high == 0x100 * w;
  }

  lemma Pow256Four()
    ensures Pow256(4) == 0x1_0000_0000
  {
    assert Pow256(2) == 0x1_0000;
  }
}
