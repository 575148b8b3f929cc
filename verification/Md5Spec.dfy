/** The MD5 message digest as RFC 1321 defines it (sections 3.1 to 3.5). */
module Md5Spec {
  import opened Bytes

  type Word = bv32

  /** The chaining variables A, B, C and D. */
  datatype Quad = Quad(a: Word, b: Word, c: Word, d: Word)

  const INIT: Quad := Quad(0x67452301, 0xEFCDAB89, 0x98BADCFE, 0x10325476)

  /** The integer part of 2^32 * |sin(i + 1)|. */
  function T(i: nat): Word
    requires i < 64
  {
    if i < 4 then [0xD76AA478, 0xE8C7B756, 0x242070DB, 0xC1BDCEEE][i % 4]
    else if i < 8 then [0xF57C0FAF, 0x4787C62A, 0xA8304613, 0xFD469501][i % 4]
    else if i < 12 then [0x698098D8, 0x8B44F7AF, 0xFFFF5BB1, 0x895CD7BE][i % 4]
    else if i < 16 then [0x6B901122, 0xFD987193, 0xA679438E, 0x49B40821][i % 4]
    else if i < 20 then [0xF61E2562, 0xC040B340, 0x265E5A51, 0xE9B6C7AA][i % 4]
    else if i < 24 then [0xD62F105D, 0x02441453, 0xD8A1E681, 0xE7D3FBC8][i % 4]
    else if i < 28 then [0x21E1CDE6, 0xC33707D6, 0xF4D50D87, 0x455A14ED][i % 4]
    else if i < 32 then [0xA9E3E905, 0xFCEFA3F8, 0x676F02D9, 0x8D2A4C8A][i % 4]
    else if i < 36 then [0xFFFA3942, 0x8771F681, 0x6D9D6122, 0xFDE5380C][i % 4]
    else if i < 40 then [0xA4BEEA44, 0x4BDECFA9, 0xF6BB4B60, 0xBEBFBC70][i % 4]
    else if i < 44 then [0x289B7EC6, 0xEAA127FA, 0xD4EF3085, 0x04881D05][i % 4]
    else if i < 48 then [0xD9D4D039, 0xE6DB99E5, 0x1FA27CF8, 0xC4AC5665][i % 4]
    else if i < 52 then [0xF4292244, 0x432AFF97, 0xAB9423A7, 0xFC93A039][i % 4]
    else if i < 56 then [0x655B59C3, 0x8F0CCC92, 0xFFEFF47D, 0x85845DD1][i % 4]
    else if i < 60 then [0x6FA87E4F, 0xFE2CE6E0, 0xA3014314, 0x4E0811A1][i % 4]
    else [0xF7537E82, 0xBD3AF235, 0x2AD7D2BB, 0xEB86D391][i % 4]
  }

  function Rotl(x: Word, s: nat): Word
    requires s <= 32
  {
    (x << s) | (x >> (32 - s))
  }

  /** Addition modulo 2^32. */
  function Add(x: Word, y: Word): Word { x + y }

  /** The auxiliary functions F, G, H and I of section 3.4. */
  function AuxF(x: Word, y: Word, z: Word): Word { (x & y) | (!x & z) }
  function AuxG(x: Word, y: Word, z: Word): Word { (x & z) | (y & !z) }
  function AuxH(x: Word, y: Word, z: Word): Word { x ^ y ^ z }
  function AuxI(x: Word, y: Word, z: Word): Word { y ^ (x | !z) }

  function Aux(round: int, x: Word, y: Word, z: Word): Word {
    if round == 0 then AuxF(x, y, z) else if round == 1 then AuxG(x, y, z)
    else if round == 2 then AuxH(x, y, z) else AuxI(x, y, z)
  }

  /** Which word of the block step i reads. */
  function Index(i: nat): (k: nat)
    ensures k < 16
  {
    (if i < 16 then i else if i < 32 then 5 * i + 1 else if i < 48 then 3 * i + 5 else 7 * i) % 16
  }

  function Shift(i: nat): (s: nat)
    ensures s <= 32
  {
    var j := i % 4;
    if i < 16 then [7, 12, 17, 22][j] else if i < 32 then [5, 9, 14, 20][j]
    else if i < 48 then [4, 11, 16, 23][j] else [6, 10, 15, 21][j]
  }

  /** b + ((a + aux(b, c, d) + x + t) <<< s) */
  function Op(round: int, a: Word, b: Word, c: Word, d: Word, x: Word, s: nat, t: Word): Word
    requires s <= 32
  {
    Add(b, Rotl(Add(a, Add(Add(Aux(round, b, c, d), x), t)), s))
  }

  /** Step i writes the register that stands first and passes the four on in rotation. */
  function Step(q: Quad, x: seq<Word>, i: nat): Quad
    requires |x| == 16 && i < 64
  {
    Quad(q.d, Op(i / 16, q.a, q.b, q.c, q.d, x[Index(i)], Shift(i), T(i)), q.b, q.c)
  }

  function Steps(q: Quad, x: seq<Word>, n: nat): Quad
    requires |x| == 16 && n <= 64
  {
    if n == 0 then q else Step(Steps(q, x, n - 1), x, n - 1)
  }

  /** A word from four bytes, low-order byte first. */
  function Decode(b: seq<Byte>, i: nat): Word
    requires i + 4 <= |b|
  {
    (b[i] as bv32) | ((b[i + 1] as bv32) << 8) | ((b[i + 2] as bv32) << 16) | ((b[i + 3] as bv32) << 24)
  }

  function Words(block: seq<Byte>): (x: seq<Word>)
    requires |block| == 64
    ensures |x| == 16
  {
    seq(16, k requires 0 <= k < 16 => Decode(block, 4 * k))
  }

  function Compress(q: Quad, block: seq<Byte>): Quad
    requires |block| == 64
  {
    var r := Steps(q, Words(block), 64);
    Quad(Add(q.a, r.a), Add(q.b, r.b), Add(q.c, r.c), Add(q.d, r.d))
  }

  /** All whole blocks of m, in order. */
  function Fold(q: Quad, m: seq<Byte>): Quad
    decreases |m|
  {
    if |m| < 64 then q else Fold(Compress(q, m[..64]), m[64..])
  }

  /** One bit, zeros up to 56 bytes modulo 64, and the length in bits modulo 2^64. */
  function Pad(m: seq<Byte>): seq<Byte> {
    m + [0x80] + Zeros((55 - |m|) % 64) + LittleEndian(8 * |m| % 0x1_0000_0000_0000_0000, 8)
  }

  function WordBytes(w: Word): (b: seq<Byte>)
    ensures |b| == 4
  {
    [(w & 0xFF) as Byte, ((w >> 8) & 0xFF) as Byte, ((w >> 16) & 0xFF) as Byte, (w >> 24) as Byte]
  }

  function Output(q: Quad): seq<Byte> {
    WordBytes(q.a) + WordBytes(q.b) + WordBytes(q.c) + WordBytes(q.d)
  }

  function Digest(m: seq<Byte>): seq<Byte> { Output(Fold(INIT, Pad(m))) }

  lemma {:induction false} FoldAppend(q: Quad, a: seq<Byte>, b: seq<Byte>)
    requires |a| % 64 == 0
    ensures Fold(q, a + b) == Fold(Fold(q, a), b)
    decreases |a|
  {
    hide Compress;
    if a == [] {
      assert a + b == b;
    } else {
      assert (a + b)[..64] == a[..64] && (a + b)[64..] == a[64..] + b;
      FoldAppend(Compress(q, a[..64]), a[64..], b);
    }
  }

  lemma FoldBlock(q: Quad, block: seq<Byte>)
    requires |block| == 64
    ensures Fold(q, block) == Compress(q, block)
  {
    assert block[..64] == block && block[64..] == [];
  }
}
