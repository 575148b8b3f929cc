/** The CRC-64 of the USB images: a table of 256 entries, and the bit-at-a-time register it stands for. */
module Crc64 {
  /** One bit of the shift register: the reflected polynomial is entry 128 of the table. */
  function BitStep(c: bv64): bv64 {
    if c & 1 == 1 then (c >> 1) ^ 0x95ac9329ac4bc9b5 else c >> 1
  }

  function Bits(c: bv64, n: nat): bv64
    decreases n
  {
    if n == 0 then c else Bits(BitStep(c), n - 1)
  }

  function EightBits(c: bv64): bv64 {
    BitStep(BitStep(BitStep(BitStep(BitStep(BitStep(BitStep(BitStep(c))))))))
  }

  function Xor(x: bv64, y: bv64): bv64 { x ^ y }

  /** The byte enters the low end of the register. */
  function Enter(c: bv64, b: bv8): bv64 { c ^ (b as bv64) }

  /** (uint8_t)crc ^ byte, and crc >> 8 */
  function Index(c: bv64, b: bv8): bv8 { ((c & 0xFF) as bv8) ^ b }
  function Down(c: bv64): bv64 { c >> 8 }

  /** The CRC of a byte string, one bit after another. */
  function Crc(c: bv64, s: seq<bv8>): bv64
    decreases |s|
  {
    if s == [] then c else Crc(Bits(Enter(c, s[0]), 8), s[1..])
  }

  function Pick(k: bv8, e0: bv64, e1: bv64, e2: bv64, e3: bv64, e4: bv64, e5: bv64, e6: bv64, e7: bv64, e8: bv64, e9: bv64, e10: bv64, e11: bv64, e12: bv64, e13: bv64, e14: bv64, e15: bv64): bv64 {
    if k == 0 then e0 else if k == 1 then e1 else if k == 2 then e2 else if k == 3 then e3 else
    if k == 4 then e4 else if k == 5 then e5 else if k == 6 then e6 else if k == 7 then e7 else
    if k == 8 then e8 else if k == 9 then e9 else if k == 10 then e10 else if k == 11 then e11 else
    if k == 12 then e12 else if k == 13 then e13 else if k == 14 then e14 else e15
  }

  /** crc64_tab, by the two halves of the index. */
  function Table(x: bv8): bv64 {
    if x < 0x10 then Pick(x & 0xF,
      0x0000000000000000, 0x7ad870c830358979, 0xf5b0e190606b12f2, 0x8f689158505e9b8b,
      0xc038e5739841b68f, 0xbae095bba8743ff6, 0x358804e3f82aa47d, 0x4f50742bc81f2d04,
      0xab28ecb46814fe75, 0xd1f09c7c5821770c, 0x5e980d24087fec87, 0x24407dec384a65fe,
      0x6b1009c7f05548fa, 0x11c8790fc060c183, 0x9ea0e857903e5a08, 0xe478989fa00bd371)
    else if x < 0x20 then Pick(x & 0xF,
      0x7d08ff3b88be6f81, 0x07d08ff3b88be6f8, 0x88b81eabe8d57d73, 0xf2606e63d8e0f40a,
      0xbd301a4810ffd90e, 0xc7e86a8020ca5077, 0x4880fbd87094cbfc, 0x32588b1040a14285,
      0xd620138fe0aa91f4, 0xacf86347d09f188d, 0x2390f21f80c18306, 0x594882d7b0f40a7f,
      0x1618f6fc78eb277b, 0x6cc0863448deae02, 0xe3a8176c18803589, 0x997067a428b5bcf0)
    else if x < 0x30 then Pick(x & 0xF,
      0xfa11fe77117cdf02, 0x80c98ebf2149567b, 0x0fa11fe77117cdf0, 0x75796f2f41224489,
      0x3a291b04893d698d, 0x40f16bccb908e0f4, 0xcf99fa94e9567b7f, 0xb5418a5cd963f206,
      0x513912c379682177, 0x2be1620b495da80e, 0xa489f35319033385, 0xde51839b2936bafc,
      0x9101f7b0e12997f8, 0xebd98778d11c1e81, 0x64b116208142850a, 0x1e6966e8b1770c73)
    else if x < 0x40 then Pick(x & 0xF,
      0x8719014c99c2b083, 0xfdc17184a9f739fa, 0x72a9e0dcf9a9a271, 0x08719014c99c2b08,
      0x4721e43f0183060c, 0x3df994f731b68f75, 0xb29105af61e814fe, 0xc849756751dd9d87,
      0x2c31edf8f1d64ef6, 0x56e99d30c1e3c78f, 0xd9810c6891bd5c04, 0xa3597ca0a188d57d,
      0xec09088b6997f879, 0x96d1784359a27100, 0x19b9e91b09fcea8b, 0x636199d339c963f2)
    else if x < 0x50 then Pick(x & 0xF,
      0xdf7adabd7a6e2d6f, 0xa5a2aa754a5ba416, 0x2aca3b2d1a053f9d, 0x50124be52a30b6e4,
      0x1f423fcee22f9be0, 0x659a4f06d21a1299, 0xeaf2de5e82448912, 0x902aae96b271006b,
      0x74523609127ad31a, 0x0e8a46c1224f5a63, 0x81e2d7997211c1e8, 0xfb3aa75142244891,
      0xb46ad37a8a3b6595, 0xceb2a3b2ba0eecec, 0x41da32eaea507767, 0x3b024222da65fe1e)
    else if x < 0x60 then Pick(x & 0xF,
      0xa2722586f2d042ee, 0xd8aa554ec2e5cb97, 0x57c2c41692bb501c, 0x2d1ab4dea28ed965,
      0x624ac0f56a91f461, 0x1892b03d5aa47d18, 0x97fa21650afae693, 0xed2251ad3acf6fea,
      0x095ac9329ac4bc9b, 0x7382b9faaaf135e2, 0xfcea28a2faafae69, 0x8632586aca9a2710,
      0xc9622c4102850a14, 0xb3ba5c8932b0836d, 0x3cd2cdd162ee18e6, 0x460abd1952db919f)
    else if x < 0x70 then Pick(x & 0xF,
      0x256b24ca6b12f26d, 0x5fb354025b277b14, 0xd0dbc55a0b79e09f, 0xaa03b5923b4c69e6,
      0xe553c1b9f35344e2, 0x9f8bb171c366cd9b, 0x10e3202993385610, 0x6a3b50e1a30ddf69,
      0x8e43c87e03060c18, 0xf49bb8b633338561, 0x7bf329ee636d1eea, 0x012b592653589793,
      0x4e7b2d0d9b47ba97, 0x34a35dc5ab7233ee, 0xbbcbcc9dfb2ca865, 0xc113bc55cb19211c)
    else if x < 0x80 then Pick(x & 0xF,
      0x5863dbf1e3ac9dec, 0x22bbab39d3991495, 0xadd33a6183c78f1e, 0xd70b4aa9b3f20667,
      0x985b3e827bed2b63, 0xe2834e4a4bd8a21a, 0x6debdf121b863991, 0x1733afda2bb3b0e8,
      0xf34b37458bb86399, 0x8993478dbb8deae0, 0x06fbd6d5ebd3716b, 0x7c23a61ddbe6f812,
      0x3373d23613f9d516, 0x49aba2fe23cc5c6f, 0xc6c333a67392c7e4, 0xbc1b436e43a74e9d)
    else if x < 0x90 then Pick(x & 0xF,
      0x95ac9329ac4bc9b5, 0xef74e3e19c7e40cc, 0x601c72b9cc20db47, 0x1ac40271fc15523e,
      0x5594765a340a7f3a, 0x2f4c0692043ff643, 0xa02497ca54616dc8, 0xdafce7026454e4b1,
      0x3e847f9dc45f37c0, 0x445c0f55f46abeb9, 0xcb349e0da4342532, 0xb1eceec59401ac4b,
      0xfebc9aee5c1e814f, 0x8464ea266c2b0836, 0x0b0c7b7e3c7593bd, 0x71d40bb60c401ac4)
    else if x < 0xA0 then Pick(x & 0xF,
      0xe8a46c1224f5a634, 0x927c1cda14c02f4d, 0x1d148d82449eb4c6, 0x67ccfd4a74ab3dbf,
      0x289c8961bcb410bb, 0x5244f9a98c8199c2, 0xdd2c68f1dcdf0249, 0xa7f41839ecea8b30,
      0x438c80a64ce15841, 0x3954f06e7cd4d138, 0xb63c61362c8a4ab3, 0xcce411fe1cbfc3ca,
      0x83b465d5d4a0eece, 0xf96c151de49567b7, 0x76048445b4cbfc3c, 0x0cdcf48d84fe7545)
    else if x < 0xB0 then Pick(x & 0xF,
      0x6fbd6d5ebd3716b7, 0x15651d968d029fce, 0x9a0d8ccedd5c0445, 0xe0d5fc06ed698d3c,
      0xaf85882d2576a038, 0xd55df8e515432941, 0x5a3569bd451db2ca, 0x20ed197575283bb3,
      0xc49581ead523e8c2, 0xbe4df122e51661bb, 0x3125607ab548fa30, 0x4bfd10b2857d7349,
      0x04ad64994d625e4d, 0x7e7514517d57d734, 0xf11d85092d094cbf, 0x8bc5f5c11d3cc5c6)
    else if x < 0xC0 then Pick(x & 0xF,
      0x12b5926535897936, 0x686de2ad05bcf04f, 0xe70573f555e26bc4, 0x9ddd033d65d7e2bd,
      0xd28d7716adc8cfb9, 0xa85507de9dfd46c0, 0x273d9686cda3dd4b, 0x5de5e64efd965432,
      0xb99d7ed15d9d8743, 0xc3450e196da80e3a, 0x4c2d9f413df695b1, 0x36f5ef890dc31cc8,
      0x79a59ba2c5dc31cc, 0x037deb6af5e9b8b5, 0x8c157a32a5b7233e, 0xf6cd0afa9582aa47)
    else if x < 0xD0 then Pick(x & 0xF,
      0x4ad64994d625e4da, 0x300e395ce6106da3, 0xbf66a804b64ef628, 0xc5bed8cc867b7f51,
      0x8aeeace74e645255, 0xf036dc2f7e51db2c, 0x7f5e4d772e0f40a7, 0x05863dbf1e3ac9de,
      0xe1fea520be311aaf, 0x9b26d5e88e0493d6, 0x144e44b0de5a085d, 0x6e963478ee6f8124,
      0x21c640532670ac20, 0x5b1e309b16452559, 0xd476a1c3461bbed2, 0xaeaed10b762e37ab)
    else if x < 0xE0 then Pick(x & 0xF,
      0x37deb6af5e9b8b5b, 0x4d06c6676eae0222, 0xc26e573f3ef099a9, 0xb8b627f70ec510d0,
      0xf7e653dcc6da3dd4, 0x8d3e2314f6efb4ad, 0x0256b24ca6b12f26, 0x788ec2849684a65f,
      0x9cf65a1b368f752e, 0xe62e2ad306bafc57, 0x6946bb8b56e467dc, 0x139ecb4366d1eea5,
      0x5ccebf68aecec3a1, 0x2616cfa09efb4ad8, 0xa97e5ef8cea5d153, 0xd3a62e30fe90582a)
    else if x < 0xF0 then Pick(x & 0xF,
      0xb0c7b7e3c7593bd8, 0xca1fc72bf76cb2a1, 0x45775673a732292a, 0x3faf26bb9707a053,
      0x70ff52905f188d57, 0x0a2722586f2d042e, 0x854fb3003f739fa5, 0xff97c3c80f4616dc,
      0x1bef5b57af4dc5ad, 0x61372b9f9f784cd4, 0xee5fbac7cf26d75f, 0x9487ca0fff135e26,
      0xdbd7be24370c7322, 0xa10fceec0739fa5b, 0x2e675fb4576761d0, 0x54bf2f7c6752e8a9)
    else Pick(x & 0xF,
      0xcdcf48d84fe75459, 0xb71738107fd2dd20, 0x387fa9482f8c46ab, 0x42a7d9801fb9cfd2,
      0x0df7adabd7a6e2d6, 0x772fdd63e7936baf, 0xf8474c3bb7cdf024, 0x829f3cf387f8795d,
      0x66e7a46c27f3aa2c, 0x1c3fd4a417c62355, 0x935745fc4798b8de, 0xe98f353477ad31a7,
      0xa6df411fbfb21ca3, 0xdc0731d78f8795da, 0x536fa08fdfd90e51, 0x29b7d047efec8728)
  }

  lemma Row0Part0(x: bv8)
    requires 0 <= x < 4
    ensures Table(x) == EightBits(x as bv64)
  {
  }

  lemma Row0Part1(x: bv8)
    requires 4 <= x < 8
    ensures Table(x) == EightBits(x as bv64)
  {
  }

  lemma Row0Part2(x: bv8)
    requires 8 <= x < 12
    ensures Table(x) == EightBits(x as bv64)
  {
  }

  lemma Row0Part3(x: bv8)
    requires 12 <= x < 16
    ensures Table(x) == EightBits(x as bv64)
  {
  }

  lemma Row0(x: bv8)
    requires x < 0x10
    ensures Table(x) == EightBits(x as bv64)
  {
    hide Table, EightBits;
    if x < 4 {
      Row0Part0(x);
    } else if x < 8 {
      Row0Part1(x);
    } else if x < 12 {
      Row0Part2(x);
    } else {
      Row0Part3(x);
    }
  }

  lemma Row1(x: bv8)
    requires 0x10 <= x < 0x20
    ensures Table(x) == EightBits(x as bv64)
  {
    if x & 1 == 0 {
      if x & 2 == 0 {
      }
    } else {
      if x & 2 == 0 {
      }
    }
  }

  lemma Row2(x: bv8)
    requires 0x20 <= x < 0x30
    ensures Table(x) == EightBits(x as bv64)
  {
  }

  lemma Row3(x: bv8)
    requires 0x30 <= x < 0x40
    ensures Table(x) == EightBits(x as bv64)
  {
  }

  lemma Row4(x: bv8)
    requires 0x40 <= x < 0x50
    ensures Table(x) == EightBits(x as bv64)
  {
  }

  lemma Row5(x: bv8)
    requires 0x50 <= x < 0x60
    ensures Table(x) == EightBits(x as bv64)
  {
  }

  lemma Row6(x: bv8)
    requires 0x60 <= x < 0x70
    ensures Table(x) == EightBits(x as bv64)
  {
  }

  lemma Row7(x: bv8)
    requires 0x70 <= x < 0x80
    ensures Table(x) == EightBits(x as bv64)
  {
  }

  lemma Row8(x: bv8)
    requires 0x80 <= x < 0x90
    ensures Table(x) == EightBits(x as bv64)
  {
  }

  lemma Row9(x: bv8)
    requires 0x90 <= x < 0xA0
    ensures Table(x) == EightBits(x as bv64)
  {
  }

  lemma RowA(x: bv8)
    requires 0xA0 <= x < 0xB0
    ensures Table(x) == EightBits(x as bv64)
  {
  }

  lemma RowB(x: bv8)
    requires 0xB0 <= x < 0xC0
    ensures Table(x) == EightBits(x as bv64)
  {
  }

  lemma RowC(x: bv8)
    requires 0xC0 <= x < 0xD0
    ensures Table(x) == EightBits(x as bv64)
  {
  }

  lemma RowD(x: bv8)
    requires 0xD0 <= x < 0xE0
    ensures Table(x) == EightBits(x as bv64)
  {
  }

  lemma RowE(x: bv8)
    requires 0xE0 <= x < 0xF0
    ensures Table(x) == EightBits(x as bv64)
  {
  }

  lemma RowF(x: bv8)
    requires 0xF0 <= x
    ensures Table(x) == EightBits(x as bv64)
  {
  }

  /** Every table entry is its index, run through the register for eight bits. */
  lemma TableEntries(x: bv8)
    ensures Table(x) == EightBits(x as bv64)
  {
    hide Table, EightBits;
    if x < 0x80 {
      if x < 0x40 {
        if x < 0x10 { Row0(x); } else if x < 0x20 { Row1(x); } else if x < 0x30 { Row2(x); } else { Row3(x); }
      } else {
        if x < 0x50 { Row4(x); } else if x < 0x60 { Row5(x); } else if x < 0x70 { Row6(x); } else { Row7(x); }
      }
    } else {
      if x < 0xC0 {
        if x < 0x90 { Row8(x); } else if x < 0xA0 { Row9(x); } else if x < 0xB0 { RowA(x); } else { RowB(x); }
      } else {
        if x < 0xD0 { RowC(x); } else if x < 0xE0 { RowD(x); } else if x < 0xF0 { RowE(x); } else { RowF(x); }
      }
    }
  }

  // ---- The register is linear ----

  lemma ShiftXor(x: bv64, y: bv64)
    ensures (x ^ y) >> 1 == (x >> 1) ^ (y >> 1)
    ensures (x ^ y) & 1 == (x & 1) ^ (y & 1)
  {
  }

  lemma LowBit(x: bv64)
    ensures x & 1 == 0 || x & 1 == 1
  {
  }

  lemma XorMoves(x: bv64, y: bv64, p: bv64)
    ensures (x ^ p) ^ (y ^ p) == x ^ y && (x ^ y) ^ p == (x ^ p) ^ y && (x ^ y) ^ p == x ^ (y ^ p)
  {
  }

  lemma BitStepXor(x: bv64, y: bv64)
    ensures BitStep(Xor(x, y)) == Xor(BitStep(x), BitStep(y))
  {
    ShiftXor(x, y);
    LowBit(x);
    LowBit(y);
    XorMoves(x >> 1, y >> 1, 0x95ac9329ac4bc9b5);
  }

  lemma {:induction false} BitsXor(x: bv64, y: bv64, n: nat)
    ensures Bits(Xor(x, y), n) == Xor(Bits(x, n), Bits(y, n))
    decreases n
  {
    hide BitStep, Xor;
    if n > 0 {
      BitStepXor(x, y);
      BitsXor(BitStep(x), BitStep(y), n - 1);
    }
  }

  lemma HighShift(h: bv64)
    ensures var t := h >> 8;
      && BitStep(t << 8) == t << 7 && BitStep(t << 7) == t << 6 && BitStep(t << 6) == t << 5 && BitStep(t << 5) == t << 4
      && BitStep(t << 4) == t << 3 && BitStep(t << 3) == t << 2 && BitStep(t << 2) == t << 1 && BitStep(t << 1) == t
  {
  }

  function LowByte(c: bv64): bv64 { c & 0xFF }
  function Rest(c: bv64): bv64 { (c >> 8) << 8 }

  lemma RestMovesDown(c: bv64)
    ensures EightBits(Rest(c)) == Down(c)
  {
    hide BitStep;
    HighShift(c);
  }

  lemma EightBitsAre(c: bv64)
    ensures EightBits(c) == Bits(c, 8)
  {
    hide BitStep;
    var d := BitStep(BitStep(BitStep(BitStep(c))));
    assert Bits(c, 8) == Bits(BitStep(BitStep(c)), 6) == Bits(d, 4);
    assert Bits(d, 4) == Bits(BitStep(BitStep(d)), 2);
  }

  lemma Halves(c: bv64)
    ensures c == Xor(LowByte(c), Rest(c))
  {
  }

  /** The seven bytes above the lowest only move down. */
  lemma ByteOut(c: bv64)
    ensures Bits(c, 8) == Xor(EightBits(LowByte(c)), Down(c))
  {
    hide Bits, EightBits, Xor, LowByte, Rest, Down;
    Halves(c);
    RestMovesDown(c);
    BitsXor(LowByte(c), Rest(c), 8);
    EightBitsAre(LowByte(c));
    EightBitsAre(Rest(c));
  }

  lemma ByteIn(c: bv64, b: bv8)
    ensures Down(Enter(c, b)) == Down(c)
    ensures Index(c, b) as bv64 == LowByte(Enter(c, b))
  {
  }

  /** One table look-up does the work of eight bits. */
  lemma LookUp(c: bv64, b: bv8)
    ensures Xor(Table(Index(c, b)), Down(c)) == Bits(Enter(c, b), 8)
  {
    hide Bits, EightBits, Xor, LowByte, Down, Table, Enter, Index;
    TableEntries(Index(c, b));
    ByteIn(c, b);
    ByteOut(Enter(c, b));
  }

  lemma {:induction false} CrcAppend(c: bv64, a: seq<bv8>, b: seq<bv8>)
    ensures Crc(c, a + b) == Crc(Crc(c, a), b)
    decreases |a|
  {
    hide Bits, Enter;
    if a == [] {
      assert a + b == b;
    } else {
      assert (a + b)[1..] == a[1..] + b;
      CrcAppend(Bits(Enter(c, a[0]), 8), a[1..], b);
    }
  }

  /** crc64: one table look-up per byte computes the bit-at-a-time CRC. */
  method Crc64(c: bv64, s: seq<bv8>) returns (crc: bv64)
    ensures crc == Crc(c, s)
  {
    hide Bits, Table, Enter, Index, Xor, Down;
    crc := c;
    for j := 0 to |s|
      invariant crc == Crc(c, s[..j])
    {
      var byte := s[j];
      LookUp(crc, byte);
      CrcAppend(c, s[..j], [byte]);
      CrcOne(crc, byte);
      crc := Xor(Table(Index(crc, byte)), Down(crc));
      assert s[..j + 1] == s[..j] + [byte];
    }
    assert s[..|s|] == s;
  }

  lemma CrcOne(c: bv64, b: bv8)
    ensures Crc(c, [b]) == Bits(Enter(c, b), 8)
  {
    hide Bits, Enter;
    assert [b][1..] == [];
  }

  // ---- The check value ----

  lemma Digit1()
    ensures Xor(Table(Index(0x0000000000000000, 0x31)), Down(0x0000000000000000)) == 0xfdc17184a9f739fa
  {
  }

  lemma Digit2()
    ensures Xor(Table(Index(0xfdc17184a9f739fa, 0x32)), Down(0xfdc17184a9f739fa)) == 0xe10364513a98ed96
  {
  }

  lemma Digit3()
    ensures Xor(Table(Index(0xe10364513a98ed96, 0x33)), Down(0xe10364513a98ed96)) == 0xd5bcfb814479b1ac
  {
  }

  lemma Digit4()
    ensures Xor(Table(Index(0xd5bcfb814479b1ac, 0x34)), Down(0xd5bcfb814479b1ac)) == 0x43593c5dcda521f0
  {
  }

  lemma Digit5()
    ensures Xor(Table(Index(0x43593c5dcda521f0, 0x35)), Down(0x43593c5dcda521f0)) == 0xf0758513239c7e0d
  {
  }

  lemma Digit6()
    ensures Xor(Table(Index(0xf0758513239c7e0d, 0x36)), Down(0xf0758513239c7e0d)) == 0xa3a90925b2ab4903
  {
  }

  lemma Digit7()
    ensures Xor(Table(Index(0xa3a90925b2ab4903, 0x37)), Down(0xa3a90925b2ab4903)) == 0x47824d362431ad45
  {
  }

  lemma Digit8()
    ensures Xor(Table(Index(0x47824d362431ad45, 0x38)), Down(0x47824d362431ad45)) == 0x49ec20b315e86dc2
  {
  }

  lemma Digit9()
    ensures Xor(Table(Index(0x49ec20b315e86dc2, 0x39)), Down(0x49ec20b315e86dc2)) == 0xe9c6d914c4b8d9ca
  {
  }

  lemma OneMore(c: bv64, s: seq<bv8>, b: bv8)
    ensures Crc(c, s + [b]) == Xor(Table(Index(Crc(c, s), b)), Down(Crc(c, s)))
  {
    hide Crc, Bits, Table, Enter, Index, Xor, Down;
    LookUp(Crc(c, s), b);
    CrcAppend(c, s, [b]);
    CrcOne(Crc(c, s), b);
  }

  /** The value that catalogues of CRC algorithms list for the digits 1 to 9. */
  lemma CheckValue()
    ensures Crc(0, [0x31, 0x32, 0x33, 0x34, 0x35, 0x36, 0x37, 0x38, 0x39]) == 0xe9c6d914c4b8d9ca
  {
    hide Crc, Table, Index, Xor, Down;
    CrcNone();
    var s: seq<bv8> := [0x31, 0x32, 0x33, 0x34, 0x35, 0x36, 0x37, 0x38, 0x39];
    Digit1();
    OneMore(0, s[..0], 0x31);
    assert s[..1] == s[..0] + [0x31];
    Digit2();
    OneMore(0, s[..1], 0x32);
    assert s[..2] == s[..1] + [0x32];
    Digit3();
    OneMore(0, s[..2], 0x33);
    assert s[..3] == s[..2] + [0x33];
    Digit4();
    OneMore(0, s[..3], 0x34);
    assert s[..4] == s[..3] + [0x34];
    Digit5();
    OneMore(0, s[..4], 0x35);
    assert s[..5] == s[..4] + [0x35];
    Digit6();
    OneMore(0, s[..5], 0x36);
    assert s[..6] == s[..5] + [0x36];
    Digit7();
    OneMore(0, s[..6], 0x37);
    assert s[..7] == s[..6] + [0x37];
    Digit8();
    OneMore(0, s[..7], 0x38);
    assert s[..8] == s[..7] + [0x38];
    Digit9();
    OneMore(0, s[..8], 0x39);
    assert s[..9] == s[..8] + [0x39];
    assert s[..9] == s;
  }

  lemma CrcNone()
    ensures Crc(0, []) == 0
  {
  }

  // ---- What the CRC detects ----

  /** The top bit of a step tells the bit that was shifted out, so a step can be undone. */
  function Unstep(r: bv64): bv64 { if r >= 0x8000_0000_0000_0000 then ((r ^ 0x95ac9329ac4bc9b5) << 1) | 1 else r << 1 }

  lemma StepUndone(x: bv64)
    ensures Unstep(BitStep(x)) == x
  {
  }

  lemma StepDetects(x: bv64, y: bv64)
    requires x != y
    ensures BitStep(x) != BitStep(y)
  {
    hide BitStep, Unstep;
    StepUndone(x);
    StepUndone(y);
  }

  lemma {:induction false} BitsDetect(x: bv64, y: bv64, n: nat)
    requires x != y
    ensures Bits(x, n) != Bits(y, n)
    decreases n
  {
    hide BitStep;
    if n > 0 {
      StepDetects(x, y);
      BitsDetect(BitStep(x), BitStep(y), n - 1);
    }
  }

  lemma EnterDetects(c: bv64, d: bv64, b: bv8)
    ensures c != d ==> Enter(c, b) != Enter(d, b)
  {
  }

  lemma ByteDetected(c: bv64, a: bv8, b: bv8)
    ensures a != b ==> Enter(c, a) != Enter(c, b)
  {
  }

  lemma {:induction false} CrcDetects(c: bv64, d: bv64, s: seq<bv8>)
    requires c != d
    ensures Crc(c, s) != Crc(d, s)
    decreases |s|
  {
    hide Bits, Enter;
    if s != [] {
      EnterDetects(c, d, s[0]);
      BitsDetect(Enter(c, s[0]), Enter(d, s[0]), 8);
      CrcDetects(Bits(Enter(c, s[0]), 8), Bits(Enter(d, s[0]), 8), s[1..]);
    }
  }

  /** Changing any one byte of a message changes its CRC, whatever the initial value. */
  lemma CrcDetectsByteChange(c: bv64, s: seq<bv8>, i: nat, b: bv8)
    requires i < |s| && s[i] != b
    ensures Crc(c, s[i := b]) != Crc(c, s)
  {
    hide Bits, Enter;
    var d := Crc(c, s[..i]);
    assert s == s[..i] + s[i..] && s[i := b] == s[..i] + s[i := b][i..];
    assert s[i..][1..] == s[i + 1..] == s[i := b][i..][1..];
    CrcAppend(c, s[..i], s[i..]);
    CrcAppend(c, s[..i], s[i := b][i..]);
    ByteDetected(d, s[i], b);
    BitsDetect(Enter(d, s[i]), Enter(d, b), 8);
    CrcDetects(Bits(Enter(d, s[i]), 8), Bits(Enter(d, b), 8), s[i + 1..]);
  }
}
