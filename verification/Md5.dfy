/** The MD5 context of the program: a block buffer, a 64-bit length in two words and a chaining state,
    updated in place by each call. */
module Md5 {
  import opened Bytes
  import opened Md5Spec
  import opened Md5Length

  /** The macro F of the first two rounds, in the form the program computes it. */
  function SelectX(x: Word, y: Word, z: Word): Word { z ^ (x & (y ^ z)) }
  function SelectZ(x: Word, y: Word, z: Word): Word { y ^ (z & (x ^ y)) }

  function F(round: int, x: Word, y: Word, z: Word): Word {
    if round == 0 then SelectX(x, y, z) else if round == 1 then SelectZ(x, y, z)
    else if round == 2 then AuxH(x, y, z) else AuxI(x, y, z)
  }

  lemma SelectXBits(x: Word, y: Word, z: Word)
    ensures z ^ (x & (y ^ z)) == (x & y) | (!x & z)
  {
  }

  lemma SelectZBits(x: Word, y: Word, z: Word)
    ensures y ^ (z & (x ^ y)) == (x & z) | (y & !z)
  {
  }

  lemma SelectXIsF(x: Word, y: Word, z: Word)
    ensures SelectX(x, y, z) == AuxF(x, y, z)
  {
    SelectXBits(x, y, z);
  }

  lemma SelectZIsG(x: Word, y: Word, z: Word)
    ensures SelectZ(x, y, z) == AuxG(x, y, z)
  {
    SelectZBits(x, y, z);
  }

  lemma AddCommutes(a: Word, b: Word)
    ensures Add(a, b) == Add(b, a)
  {
  }

  /** The macro P: a += F(b, c, d) + x + t; a = S(a, s) + b */
  function P(round: int, a: Word, b: Word, c: Word, d: Word, x: Word, s: nat, t: Word): Word
    requires s <= 32
  {
    Add(Rotl(Add(a, Add(Add(F(round, b, c, d), x), t)), s), b)
  }

  lemma PIsOp(round: int, a: Word, b: Word, c: Word, d: Word, x: Word, s: nat, t: Word)
    requires s <= 32
    ensures P(round, a, b, c, d, x, s, t) == Op(round, a, b, c, d, x, s, t)
  {
    hide SelectX, SelectZ, AuxF, AuxG, AuxH, AuxI, Rotl, Add;
    SelectXIsF(b, c, d);
    SelectZIsG(b, c, d);
    var f := Aux(round, b, c, d);
    AddCommutes(b, Rotl(Add(a, Add(Add(f, x), t)), s));
  }

  function Four(q: Quad, x: seq<Word>, i: nat): Quad
    requires |x| == 16 && i + 4 <= 64
  {
    Step(Step(Step(Step(q, x, i), x, i + 1), x, i + 2), x, i + 3)
  }

  /** Four steps in the program's terms: the registers take turns instead of rotating. */
  lemma FourOps(q: Quad, x: seq<Word>, i: nat)
    requires |x| == 16 && i + 4 <= 64 && i % 4 == 0
    ensures var r := i / 16;
      var a := Op(r, q.a, q.b, q.c, q.d, x[Index(i)], Shift(i), T(i));
      var d := Op(r, q.d, a, q.b, q.c, x[Index(i + 1)], Shift(i + 1), T(i + 1));
      var c := Op(r, q.c, d, a, q.b, x[Index(i + 2)], Shift(i + 2), T(i + 2));
      var b := Op(r, q.b, c, d, a, x[Index(i + 3)], Shift(i + 3), T(i + 3));
      Four(q, x, i) == Quad(a, b, c, d)
  {
    hide Op, Index, Shift, T;
  }

  lemma Constants1()
    ensures Index(0) == 0 && Shift(0) == 7 && T(0) == 0xD76AA478
    ensures Index(1) == 1 && Shift(1) == 12 && T(1) == 0xE8C7B756
    ensures Index(2) == 2 && Shift(2) == 17 && T(2) == 0x242070DB
    ensures Index(3) == 3 && Shift(3) == 22 && T(3) == 0xC1BDCEEE
    ensures Index(4) == 4 && Shift(4) == 7 && T(4) == 0xF57C0FAF
    ensures Index(5) == 5 && Shift(5) == 12 && T(5) == 0x4787C62A
    ensures Index(6) == 6 && Shift(6) == 17 && T(6) == 0xA8304613
    ensures Index(7) == 7 && Shift(7) == 22 && T(7) == 0xFD469501
    ensures Index(8) == 8 && Shift(8) == 7 && T(8) == 0x698098D8
    ensures Index(9) == 9 && Shift(9) == 12 && T(9) == 0x8B44F7AF
    ensures Index(10) == 10 && Shift(10) == 17 && T(10) == 0xFFFF5BB1
    ensures Index(11) == 11 && Shift(11) == 22 && T(11) == 0x895CD7BE
    ensures Index(12) == 12 && Shift(12) == 7 && T(12) == 0x6B901122
    ensures Index(13) == 13 && Shift(13) == 12 && T(13) == 0xFD987193
    ensures Index(14) == 14 && Shift(14) == 17 && T(14) == 0xA679438E
    ensures Index(15) == 15 && Shift(15) == 22 && T(15) == 0x49B40821
  {
  }

  lemma Constants2()
    ensures Index(16) == 1 && Shift(16) == 5 && T(16) == 0xF61E2562
    ensures Index(17) == 6 && Shift(17) == 9 && T(17) == 0xC040B340
    ensures Index(18) == 11 && Shift(18) == 14 && T(18) == 0x265E5A51
    ensures Index(19) == 0 && Shift(19) == 20 && T(19) == 0xE9B6C7AA
    ensures Index(20) == 5 && Shift(20) == 5 && T(20) == 0xD62F105D
    ensures Index(21) == 10 && Shift(21) == 9 && T(21) == 0x02441453
    ensures Index(22) == 15 && Shift(22) == 14 && T(22) == 0xD8A1E681
    ensures Index(23) == 4 && Shift(23) == 20 && T(23) == 0xE7D3FBC8
    ensures Index(24) == 9 && Shift(24) == 5 && T(24) == 0x21E1CDE6
    ensures Index(25) == 14 && Shift(25) == 9 && T(25) == 0xC33707D6
    ensures Index(26) == 3 && Shift(26) == 14 && T(26) == 0xF4D50D87
    ensures Index(27) == 8 && Shift(27) == 20 && T(27) == 0x455A14ED
    ensures Index(28) == 13 && Shift(28) == 5 && T(28) == 0xA9E3E905
    ensures Index(29) == 2 && Shift(29) == 9 && T(29) == 0xFCEFA3F8
    ensures Index(30) == 7 && Shift(30) == 14 && T(30) == 0x676F02D9
    ensures Index(31) == 12 && Shift(31) == 20 && T(31) == 0x8D2A4C8A
  {
  }

  lemma Constants3()
    ensures Index(32) == 5 && Shift(32) == 4 && T(32) == 0xFFFA3942
    ensures Index(33) == 8 && Shift(33) == 11 && T(33) == 0x8771F681
    ensures Index(34) == 11 && Shift(34) == 16 && T(34) == 0x6D9D6122
    ensures Index(35) == 14 && Shift(35) == 23 && T(35) == 0xFDE5380C
    ensures Index(36) == 1 && Shift(36) == 4 && T(36) == 0xA4BEEA44
    ensures Index(37) == 4 && Shift(37) == 11 && T(37) == 0x4BDECFA9
    ensures Index(38) == 7 && Shift(38) == 16 && T(38) == 0xF6BB4B60
    ensures Index(39) == 10 && Shift(39) == 23 && T(39) == 0xBEBFBC70
    ensures Index(40) == 13 && Shift(40) == 4 && T(40) == 0x289B7EC6
    ensures Index(41) == 0 && Shift(41) == 11 && T(41) == 0xEAA127FA
    ensures Index(42) == 3 && Shift(42) == 16 && T(42) == 0xD4EF3085
    ensures Index(43) == 6 && Shift(43) == 23 && T(43) == 0x04881D05
    ensures Index(44) == 9 && Shift(44) == 4 && T(44) == 0xD9D4D039
    ensures Index(45) == 12 && Shift(45) == 11 && T(45) == 0xE6DB99E5
    ensures Index(46) == 15 && Shift(46) == 16 && T(46) == 0x1FA27CF8
    ensures Index(47) == 2 && Shift(47) == 23 && T(47) == 0xC4AC5665
  {
  }

  lemma Constants4()
    ensures Index(48) == 0 && Shift(48) == 6 && T(48) == 0xF4292244
    ensures Index(49) == 7 && Shift(49) == 10 && T(49) == 0x432AFF97
    ensures Index(50) == 14 && Shift(50) == 15 && T(50) == 0xAB9423A7
    ensures Index(51) == 5 && Shift(51) == 21 && T(51) == 0xFC93A039
    ensures Index(52) == 12 && Shift(52) == 6 && T(52) == 0x655B59C3
    ensures Index(53) == 3 && Shift(53) == 10 && T(53) == 0x8F0CCC92
    ensures Index(54) == 10 && Shift(54) == 15 && T(54) == 0xFFEFF47D
    ensures Index(55) == 1 && Shift(55) == 21 && T(55) == 0x85845DD1
    ensures Index(56) == 8 && Shift(56) == 6 && T(56) == 0x6FA87E4F
    ensures Index(57) == 15 && Shift(57) == 10 && T(57) == 0xFE2CE6E0
    ensures Index(58) == 6 && Shift(58) == 15 && T(58) == 0xA3014314
    ensures Index(59) == 13 && Shift(59) == 21 && T(59) == 0x4E0811A1
    ensures Index(60) == 4 && Shift(60) == 6 && T(60) == 0xF7537E82
    ensures Index(61) == 11 && Shift(61) == 10 && T(61) == 0xBD3AF235
    ensures Index(62) == 2 && Shift(62) == 15 && T(62) == 0x2AD7D2BB
    ensures Index(63) == 9 && Shift(63) == 21 && T(63) == 0xEB86D391
  {
  }

  lemma FourSteps(p: Quad, x: seq<Word>, i: nat)
    requires |x| == 16 && i + 4 <= 64
    ensures Steps(p, x, i + 4) == Four(Steps(p, x, i), x, i)
  {
    hide Step;
    assert Steps(p, x, i + 1) == Step(Steps(p, x, i), x, i);
    assert Steps(p, x, i + 2) == Step(Steps(p, x, i + 1), x, i + 1);
    assert Steps(p, x, i + 3) == Step(Steps(p, x, i + 2), x, i + 2);
  }

  /** The whole blocks of m are in the state and its remaining bytes at the start of the buffer. */
  ghost predicate Holds(q: Quad, b: seq<Byte>, m: seq<Byte>)
    requires |b| == 64
  {
    var used := |m| % 64;
    q == Fold(INIT, m[..|m| - used]) && b[..used] == m[|m| - used..]
  }

  /** The state and the buffer b' after the input, from those before it. */
  ghost predicate Moves(q: Quad, b: seq<Byte>, left: nat, input: seq<Byte>, q': Quad, b': seq<Byte>)
    requires left < 64 == |b| == |b'|
  {
    var all := b[..left] + input;
    var used := |all| % 64;
    q' == Fold(q, all[..|all| - used]) && b'[..used] == all[|all| - used..]
  }

  lemma HoldsMore(q: Quad, b: seq<Byte>, m: seq<Byte>, input: seq<Byte>, q': Quad, b': seq<Byte>)
    requires |b| == |b'| == 64 && Holds(q, b, m) && Moves(q, b, |m| % 64, input, q', b')
    ensures Holds(q', b', m + input)
  {
    hide Fold;
    var left := |m| % 64;
    var whole, all := m[..|m| - left], b[..left] + input;
    assert m + input == whole + all;
    Absorbs(whole, all);
  }

  class Md5Context {
    /** Round 1 of mbedtls_internal_md5_process: sixteen assignments to the four local registers. */
    static method Round1(q: Quad, x: seq<Word>) returns (r: Quad)
      requires |x| == 16
      ensures forall p :: q == Steps(p, x, 0) ==> r == Steps(p, x, 16)
    {
      hide P, Steps, Op, Four, Index, Shift, T;
      Constants1();
      var A, B, C, D := q.a, q.b, q.c, q.d;
      ghost var q0 := Quad(A, B, C, D);
      PIsOp(0, A, B, C, D, x[0], 7, 0xD76AA478);
      A := P(0, A, B, C, D, x[0], 7, 0xD76AA478);
      PIsOp(0, D, A, B, C, x[1], 12, 0xE8C7B756);
      D := P(0, D, A, B, C, x[1], 12, 0xE8C7B756);
      PIsOp(0, C, D, A, B, x[2], 17, 0x242070DB);
      C := P(0, C, D, A, B, x[2], 17, 0x242070DB);
      PIsOp(0, B, C, D, A, x[3], 22, 0xC1BDCEEE);
      B := P(0, B, C, D, A, x[3], 22, 0xC1BDCEEE);
      FourOps(q0, x, 0);
      assert Four(q0, x, 0) == Quad(A, B, C, D);
      ghost var q1 := Quad(A, B, C, D);
      PIsOp(0, A, B, C, D, x[4], 7, 0xF57C0FAF);
      A := P(0, A, B, C, D, x[4], 7, 0xF57C0FAF);
      PIsOp(0, D, A, B, C, x[5], 12, 0x4787C62A);
      D := P(0, D, A, B, C, x[5], 12, 0x4787C62A);
      PIsOp(0, C, D, A, B, x[6], 17, 0xA8304613);
      C := P(0, C, D, A, B, x[6], 17, 0xA8304613);
      PIsOp(0, B, C, D, A, x[7], 22, 0xFD469501);
      B := P(0, B, C, D, A, x[7], 22, 0xFD469501);
      FourOps(q1, x, 4);
      assert Four(q1, x, 4) == Quad(A, B, C, D);
      ghost var q2 := Quad(A, B, C, D);
      PIsOp(0, A, B, C, D, x[8], 7, 0x698098D8);
      A := P(0, A, B, C, D, x[8], 7, 0x698098D8);
      PIsOp(0, D, A, B, C, x[9], 12, 0x8B44F7AF);
      D := P(0, D, A, B, C, x[9], 12, 0x8B44F7AF);
      PIsOp(0, C, D, A, B, x[10], 17, 0xFFFF5BB1);
      C := P(0, C, D, A, B, x[10], 17, 0xFFFF5BB1);
      PIsOp(0, B, C, D, A, x[11], 22, 0x895CD7BE);
      B := P(0, B, C, D, A, x[11], 22, 0x895CD7BE);
      FourOps(q2, x, 8);
      assert Four(q2, x, 8) == Quad(A, B, C, D);
      ghost var q3 := Quad(A, B, C, D);
      PIsOp(0, A, B, C, D, x[12], 7, 0x6B901122);
      A := P(0, A, B, C, D, x[12], 7, 0x6B901122);
      PIsOp(0, D, A, B, C, x[13], 12, 0xFD987193);
      D := P(0, D, A, B, C, x[13], 12, 0xFD987193);
      PIsOp(0, C, D, A, B, x[14], 17, 0xA679438E);
      C := P(0, C, D, A, B, x[14], 17, 0xA679438E);
      PIsOp(0, B, C, D, A, x[15], 22, 0x49B40821);
      B := P(0, B, C, D, A, x[15], 22, 0x49B40821);
      FourOps(q3, x, 12);
      assert Four(q3, x, 12) == Quad(A, B, C, D);
      r := Quad(A, B, C, D);
      forall p | q == Steps(p, x, 0) ensures r == Steps(p, x, 16) {
        FourSteps(p, x, 0);
        FourSteps(p, x, 4);
        FourSteps(p, x, 8);
        FourSteps(p, x, 12);
      }
    }

    /** Round 2 of mbedtls_internal_md5_process: sixteen assignments to the four local registers. */
    static method Round2(q: Quad, x: seq<Word>) returns (r: Quad)
      requires |x| == 16
      ensures forall p :: q == Steps(p, x, 16) ==> r == Steps(p, x, 32)
    {
      hide P, Steps, Op, Four, Index, Shift, T;
      Constants2();
      var A, B, C, D := q.a, q.b, q.c, q.d;
      ghost var q0 := Quad(A, B, C, D);
      PIsOp(1, A, B, C, D, x[1], 5, 0xF61E2562);
      A := P(1, A, B, C, D, x[1], 5, 0xF61E2562);
      PIsOp(1, D, A, B, C, x[6], 9, 0xC040B340);
      D := P(1, D, A, B, C, x[6], 9, 0xC040B340);
      PIsOp(1, C, D, A, B, x[11], 14, 0x265E5A51);
      C := P(1, C, D, A, B, x[11], 14, 0x265E5A51);
      PIsOp(1, B, C, D, A, x[0], 20, 0xE9B6C7AA);
      B := P(1, B, C, D, A, x[0], 20, 0xE9B6C7AA);
      FourOps(q0, x, 16);
      assert Four(q0, x, 16) == Quad(A, B, C, D);
      ghost var q1 := Quad(A, B, C, D);
      PIsOp(1, A, B, C, D, x[5], 5, 0xD62F105D);
      A := P(1, A, B, C, D, x[5], 5, 0xD62F105D);
      PIsOp(1, D, A, B, C, x[10], 9, 0x02441453);
      D := P(1, D, A, B, C, x[10], 9, 0x02441453);
      PIsOp(1, C, D, A, B, x[15], 14, 0xD8A1E681);
      C := P(1, C, D, A, B, x[15], 14, 0xD8A1E681);
      PIsOp(1, B, C, D, A, x[4], 20, 0xE7D3FBC8);
      B := P(1, B, C, D, A, x[4], 20, 0xE7D3FBC8);
      FourOps(q1, x, 20);
      assert Four(q1, x, 20) == Quad(A, B, C, D);
      ghost var q2 := Quad(A, B, C, D);
      PIsOp(1, A, B, C, D, x[9], 5, 0x21E1CDE6);
      A := P(1, A, B, C, D, x[9], 5, 0x21E1CDE6);
      PIsOp(1, D, A, B, C, x[14], 9, 0xC33707D6);
      D := P(1, D, A, B, C, x[14], 9, 0xC33707D6);
      PIsOp(1, C, D, A, B, x[3], 14, 0xF4D50D87);
      C := P(1, C, D, A, B, x[3], 14, 0xF4D50D87);
      PIsOp(1, B, C, D, A, x[8], 20, 0x455A14ED);
      B := P(1, B, C, D, A, x[8], 20, 0x455A14ED);
      FourOps(q2, x, 24);
      assert Four(q2, x, 24) == Quad(A, B, C, D);
      ghost var q3 := Quad(A, B, C, D);
      PIsOp(1, A, B, C, D, x[13], 5, 0xA9E3E905);
      A := P(1, A, B, C, D, x[13], 5, 0xA9E3E905);
      PIsOp(1, D, A, B, C, x[2], 9, 0xFCEFA3F8);
      D := P(1, D, A, B, C, x[2], 9, 0xFCEFA3F8);
      PIsOp(1, C, D, A, B, x[7], 14, 0x676F02D9);
      C := P(1, C, D, A, B, x[7], 14, 0x676F02D9);
      PIsOp(1, B, C, D, A, x[12], 20, 0x8D2A4C8A);
      B := P(1, B, C, D, A, x[12], 20, 0x8D2A4C8A);
      FourOps(q3, x, 28);
      assert Four(q3, x, 28) == Quad(A, B, C, D);
      r := Quad(A, B, C, D);
      forall p | q == Steps(p, x, 16) ensures r == Steps(p, x, 32) {
        FourSteps(p, x, 16);
        FourSteps(p, x, 20);
        FourSteps(p, x, 24);
        FourSteps(p, x, 28);
      }
    }

    /** Round 3 of mbedtls_internal_md5_process: sixteen assignments to the four local registers. */
    static method Round3(q: Quad, x: seq<Word>) returns (r: Quad)
      requires |x| == 16
      ensures forall p :: q == Steps(p, x, 32) ==> r == Steps(p, x, 48)
    {
      hide P, Steps, Op, Four, Index, Shift, T;
      Constants3();
      var A, B, C, D := q.a, q.b, q.c, q.d;
      ghost var q0 := Quad(A, B, C, D);
      PIsOp(2, A, B, C, D, x[5], 4, 0xFFFA3942);
      A := P(2, A, B, C, D, x[5], 4, 0xFFFA3942);
      PIsOp(2, D, A, B, C, x[8], 11, 0x8771F681);
      D := P(2, D, A, B, C, x[8], 11, 0x8771F681);
      PIsOp(2, C, D, A, B, x[11], 16, 0x6D9D6122);
      C := P(2, C, D, A, B, x[11], 16, 0x6D9D6122);
      PIsOp(2, B, C, D, A, x[14], 23, 0xFDE5380C);
      B := P(2, B, C, D, A, x[14], 23, 0xFDE5380C);
      FourOps(q0, x, 32);
      assert Four(q0, x, 32) == Quad(A, B, C, D);
      ghost var q1 := Quad(A, B, C, D);
      PIsOp(2, A, B, C, D, x[1], 4, 0xA4BEEA44);
      A := P(2, A, B, C, D, x[1], 4, 0xA4BEEA44);
      PIsOp(2, D, A, B, C, x[4], 11, 0x4BDECFA9);
      D := P(2, D, A, B, C, x[4], 11, 0x4BDECFA9);
      PIsOp(2, C, D, A, B, x[7], 16, 0xF6BB4B60);
      C := P(2, C, D, A, B, x[7], 16, 0xF6BB4B60);
      PIsOp(2, B, C, D, A, x[10], 23, 0xBEBFBC70);
      B := P(2, B, C, D, A, x[10], 23, 0xBEBFBC70);
      FourOps(q1, x, 36);
      assert Four(q1, x, 36) == Quad(A, B, C, D);
      ghost var q2 := Quad(A, B, C, D);
      PIsOp(2, A, B, C, D, x[13], 4, 0x289B7EC6);
      A := P(2, A, B, C, D, x[13], 4, 0x289B7EC6);
      PIsOp(2, D, A, B, C, x[0], 11, 0xEAA127FA);
      D := P(2, D, A, B, C, x[0], 11, 0xEAA127FA);
      PIsOp(2, C, D, A, B, x[3], 16, 0xD4EF3085);
      C := P(2, C, D, A, B, x[3], 16, 0xD4EF3085);
      PIsOp(2, B, C, D, A, x[6], 23, 0x04881D05);
      B := P(2, B, C, D, A, x[6], 23, 0x04881D05);
      FourOps(q2, x, 40);
      assert Four(q2, x, 40) == Quad(A, B, C, D);
      ghost var q3 := Quad(A, B, C, D);
      PIsOp(2, A, B, C, D, x[9], 4, 0xD9D4D039);
      A := P(2, A, B, C, D, x[9], 4, 0xD9D4D039);
      PIsOp(2, D, A, B, C, x[12], 11, 0xE6DB99E5);
      D := P(2, D, A, B, C, x[12], 11, 0xE6DB99E5);
      PIsOp(2, C, D, A, B, x[15], 16, 0x1FA27CF8);
      C := P(2, C, D, A, B, x[15], 16, 0x1FA27CF8);
      PIsOp(2, B, C, D, A, x[2], 23, 0xC4AC5665);
      B := P(2, B, C, D, A, x[2], 23, 0xC4AC5665);
      FourOps(q3, x, 44);
      assert Four(q3, x, 44) == Quad(A, B, C, D);
      r := Quad(A, B, C, D);
      forall p | q == Steps(p, x, 32) ensures r == Steps(p, x, 48) {
        FourSteps(p, x, 32);
        FourSteps(p, x, 36);
        FourSteps(p, x, 40);
        FourSteps(p, x, 44);
      }
    }

    /** Round 4 of mbedtls_internal_md5_process: sixteen assignments to the four local registers. */
    static method Round4(q: Quad, x: seq<Word>) returns (r: Quad)
      requires |x| == 16
      ensures forall p :: q == Steps(p, x, 48) ==> r == Steps(p, x, 64)
    {
      hide P, Steps, Op, Four, Index, Shift, T;
      Constants4();
      var A, B, C, D := q.a, q.b, q.c, q.d;
      ghost var q0 := Quad(A, B, C, D);
      PIsOp(3, A, B, C, D, x[0], 6, 0xF4292244);
      A := P(3, A, B, C, D, x[0], 6, 0xF4292244);
      PIsOp(3, D, A, B, C, x[7], 10, 0x432AFF97);
      D := P(3, D, A, B, C, x[7], 10, 0x432AFF97);
      PIsOp(3, C, D, A, B, x[14], 15, 0xAB9423A7);
      C := P(3, C, D, A, B, x[14], 15, 0xAB9423A7);
      PIsOp(3, B, C, D, A, x[5], 21, 0xFC93A039);
      B := P(3, B, C, D, A, x[5], 21, 0xFC93A039);
      FourOps(q0, x, 48);
      assert Four(q0, x, 48) == Quad(A, B, C, D);
      ghost var q1 := Quad(A, B, C, D);
      PIsOp(3, A, B, C, D, x[12], 6, 0x655B59C3);
      A := P(3, A, B, C, D, x[12], 6, 0x655B59C3);
      PIsOp(3, D, A, B, C, x[3], 10, 0x8F0CCC92);
      D := P(3, D, A, B, C, x[3], 10, 0x8F0CCC92);
      PIsOp(3, C, D, A, B, x[10], 15, 0xFFEFF47D);
      C := P(3, C, D, A, B, x[10], 15, 0xFFEFF47D);
      PIsOp(3, B, C, D, A, x[1], 21, 0x85845DD1);
      B := P(3, B, C, D, A, x[1], 21, 0x85845DD1);
      FourOps(q1, x, 52);
      assert Four(q1, x, 52) == Quad(A, B, C, D);
      ghost var q2 := Quad(A, B, C, D);
      PIsOp(3, A, B, C, D, x[8], 6, 0x6FA87E4F);
      A := P(3, A, B, C, D, x[8], 6, 0x6FA87E4F);
      PIsOp(3, D, A, B, C, x[15], 10, 0xFE2CE6E0);
      D := P(3, D, A, B, C, x[15], 10, 0xFE2CE6E0);
      PIsOp(3, C, D, A, B, x[6], 15, 0xA3014314);
      C := P(3, C, D, A, B, x[6], 15, 0xA3014314);
      PIsOp(3, B, C, D, A, x[13], 21, 0x4E0811A1);
      B := P(3, B, C, D, A, x[13], 21, 0x4E0811A1);
      FourOps(q2, x, 56);
      assert Four(q2, x, 56) == Quad(A, B, C, D);
      ghost var q3 := Quad(A, B, C, D);
      PIsOp(3, A, B, C, D, x[4], 6, 0xF7537E82);
      A := P(3, A, B, C, D, x[4], 6, 0xF7537E82);
      PIsOp(3, D, A, B, C, x[11], 10, 0xBD3AF235);
      D := P(3, D, A, B, C, x[11], 10, 0xBD3AF235);
      PIsOp(3, C, D, A, B, x[2], 15, 0x2AD7D2BB);
      C := P(3, C, D, A, B, x[2], 15, 0x2AD7D2BB);
      PIsOp(3, B, C, D, A, x[9], 21, 0xEB86D391);
      B := P(3, B, C, D, A, x[9], 21, 0xEB86D391);
      FourOps(q3, x, 60);
      assert Four(q3, x, 60) == Quad(A, B, C, D);
      r := Quad(A, B, C, D);
      forall p | q == Steps(p, x, 48) ensures r == Steps(p, x, 64) {
        FourSteps(p, x, 48);
        FourSteps(p, x, 52);
        FourSteps(p, x, 56);
        FourSteps(p, x, 60);
      }
    }

    var total0: U32
    var total1: U32
    var state: Quad
    const buffer: array<Byte>
    ghost var absorbed: seq<Byte>

    /** The context stands for the bytes absorbed so far. */
    ghost predicate Valid()
      reads this, buffer
    {
      && buffer.Length == 64
      && total0 + total1 * 0x1_0000_0000 == |absorbed| % TWO64
      && Holds(state, buffer[..], absorbed)
    }

    /** mbedtls_md5_init followed by mbedtls_md5_starts */
    constructor ()
      ensures Valid() && absorbed == [] && fresh(buffer)
    {
      buffer := new Byte[64](_ => 0);
      total0, total1, state, absorbed := 0, 0, INIT, [];
    }

    /** mbedtls_internal_md5_process */
    method Process(data: seq<Byte>)
      requires |data| == 64
      modifies this`state
      ensures state == Compress(old(state), data)
    {
      var x := Words(data);
      var r := Round1(state, x);
      r := Round2(r, x);
      r := Round3(r, x);
      r := Round4(r, x);
      assert r == Steps(state, x, 64) by {
        assert state == Steps(state, x, 0);
      }
      state := Quad(Add(state.a, r.a), Add(state.b, r.b), Add(state.c, r.c), Add(state.d, r.d));
    }

    /** memcpy(buffer + at, input, |input|) */
    method Store(at: nat, input: seq<Byte>)
      requires at + |input| <= buffer.Length
      modifies buffer
      ensures buffer[..at] == old(buffer[..at])
      ensures buffer[at..at + |input|] == input
      ensures buffer[at + |input|..] == old(buffer[at + |input|..])
    {
      forall k | 0 <= k < |input| {
        buffer[at + k] := input[k];
      }
    }

    /** The loop over whole blocks of the input. */
    method Drain(input: seq<Byte>) returns (rest: seq<Byte>)
      modifies this`state
      ensures |rest| < 64 && |rest| <= |input| && (|input| - |rest|) % 64 == 0
      ensures rest == input[|input| - |rest|..]
      ensures state == Fold(old(state), input[..|input| - |rest|])
    {
      hide Compress, Fold;
      rest := input;
      assert input[..0] == [];
      FoldNone(state);
      while |rest| >= 64
        invariant |rest| <= |input| && (|input| - |rest|) % 64 == 0
        invariant rest == input[|input| - |rest|..]
        invariant state == Fold(old(state), input[..|input| - |rest|])
        decreases |rest|
      {
        ghost var n := |input| - |rest|;
        AbsorbBlock(old(state), input[..n], rest[..64]);
        assert input[..n] + rest[..64] == input[..n + 64];
        Process(rest[..64]);
        rest := rest[64..];
      }
    }

    /** A partly filled buffer is topped up and processed when the input reaches to its end. */
    method TopUp(left: nat, input: seq<Byte>) returns (at: nat, rest: seq<Byte>)
      requires left < 64 == buffer.Length
      modifies this`state, buffer
      ensures var fill := 64 - left;
        if left != 0 && |input| >= fill then
          at == 0 && rest == input[fill..] && state == Compress(old(state), old(buffer[..left]) + input[..fill])
        else
          at == left && rest == input && state == old(state) && buffer[..left] == old(buffer[..left])
    {
      hide Compress;
      at, rest := left, input;
      var fill := 64 - left;
      if left != 0 && |input| >= fill {
        Store(left, input[..fill]);
        assert buffer[..] == old(buffer[..left]) + input[..fill];
        Process(buffer[..]);
        at, rest := 0, input[fill..];
      }
    }

    /** What is left of the input goes behind the bytes held. */
    method Keep(at: nat, rest: seq<Byte>)
      requires at + |rest| <= buffer.Length
      modifies buffer
      ensures buffer[..at + |rest|] == old(buffer[..at]) + rest
    {
      if |rest| > 0 {
        Store(at, rest);
      }
    }

    /** The part of mbedtls_md5_update that moves the input into the buffer and the state. */
    method Absorb(left: nat, input: seq<Byte>)
      requires left < 64 == buffer.Length
      modifies this`state, buffer
      ensures Moves(old(state), old(buffer[..]), left, input, state, buffer[..])
    {
      hide Fold, Compress, Moves;
      ghost var b, was := buffer[..], state;
      var at, todo := TopUp(left, input);
      ghost var mid := state;
      var rest := Drain(todo);
      ghost var kept := buffer[..at];
      Keep(at, rest);
      assert kept == b[..at];
      assert buffer[..][..at + |rest|] == b[..at] + rest;
      if |todo| < |input| {
        ToppedMoves(was, b, left, input, rest, state, buffer[..]);
      } else {
        PlainMoves(was, b, left, input, rest, state, buffer[..]);
      }
    }

    /** The length goes up by k < 2^32, modulo 2^64. */
    method Count(ghost n: nat, k: nat)
      requires total0 + total1 * 0x1_0000_0000 == n % TWO64 && k < 0x1_0000_0000
      modifies this`total0, this`total1
      ensures total0 + total1 * 0x1_0000_0000 == (n + k) % TWO64
    {
      hide Wrap;
      LengthCounts(total0, total1, n, k);
      total0 := Wrap(total0 + k);
      if total0 < k {
        total1 := Wrap(total1 + 1);
      }
    }

    /** mbedtls_md5_update */
    method Update(input: seq<Byte>)
      requires Valid() && |input| < 0x1_0000_0000
      modifies this, buffer
      ensures Valid() && absorbed == old(absorbed) + input
    {
      hide Holds, Moves;
      ghost var m := absorbed + input;
      if |input| == 0 {
        assert m == absorbed;
        return;
      }
      var left := total0 % 64;
      LengthCounts(total0, total1, |absorbed|, 0);
      Count(|absorbed|, |input|);
      Absorb(left, input);
      HoldsMore(old(state), old(buffer[..]), absorbed, input, state, buffer[..]);
      absorbed := m;
    }

    /** memset(buffer + from, 0, to - from) */
    method Clear(from: nat, to: nat)
      requires from <= to <= buffer.Length
      modifies buffer
      ensures buffer[..] == old(buffer[..from]) + Zeros(to - from) + old(buffer[to..])
    {
      forall k | from <= k < to {
        buffer[k] := 0;
      }
    }

    /** The padding of mbedtls_md5_finish, up to the length: one block, or two when the length does not fit. */
    method PadBuffer(ghost t: seq<Byte>)
      requires buffer.Length == 64 && |t| == total0 % 64 && buffer[..|t|] == t
      modifies this`state, buffer
      ensures if |t| < 56 then state == old(state) && buffer[..56] == t + [0x80] + Zeros(55 - |t|)
              else state == Compress(old(state), t + [0x80] + Zeros(63 - |t|)) && buffer[..56] == Zeros(56)
    {
      hide Compress;
      var used := total0 % 64;
      buffer[used] := 0x80;
      used := used + 1;
      assert buffer[..used] == t + [0x80];
      if used <= 56 {
        Clear(used, 56);
      } else {
        Clear(used, 64);
        assert buffer[..] == t + [0x80] + Zeros(63 - |t|);
        Process(buffer[..]);
        Clear(0, 56);
      }
    }

    /** PUT_UINT32_LE of the two words of the length in bits. */
    method PutLength(ghost n: nat)
      requires buffer.Length == 64 && total0 + total1 * 0x1_0000_0000 == n % TWO64
      modifies buffer
      ensures buffer[..] == old(buffer[..56]) + LittleEndian(8 * n % TWO64, 8)
    {
      hide Wrap, LittleEndian;
      var high := Wrap(total0 / 0x2000_0000 + total1 * 8);
      var low := Wrap(total0 * 8);
      Store(56, LittleEndian(low, 4));
      Store(60, LittleEndian(high, 4));
      BitLength(total0, total1, n);
      Pow256Four();
      LittleEndianSplit(4, low, high, 4);
    }

    /** mbedtls_md5_finish */
    method Finish() returns (output: seq<Byte>)
      requires Valid()
      modifies this`state, buffer
      ensures output == Digest(absorbed)
    {
      hide Compress, Fold, LittleEndian;
      ghost var m, u, q := absorbed, |absorbed| % 64, state;
      LengthCounts(total0, total1, |m|, 0);
      assert buffer[..u] == buffer[..][..u];
      PadBuffer(m[|m| - u..]);
      PutLength(|m|);
      if u < 56 {
        PaddedOne(m, u, buffer[..]);
      } else {
        PaddedTwo(m, u, m[|m| - u..] + [0x80] + Zeros(63 - u), buffer[..]);
      }
      Process(buffer[..]);
      output := Output(state);
    }
  }

  lemma MovesFrom(q: Quad, b: seq<Byte>, left: nat, input: seq<Byte>, n: nat, q': Quad, b': seq<Byte>)
    requires left < 64 == |b| == |b'|
    requires var all := b[..left] + input;
      n <= |all| < n + 64 && n % 64 == 0 && q' == Fold(q, all[..n]) && b'[..|all| - n] == all[n..]
    ensures Moves(q, b, left, input, q', b')
  {
    hide Fold;
    ModSum(n, |b[..left] + input| - n);
  }

  lemma ToppedMoves(q: Quad, b: seq<Byte>, left: nat, input: seq<Byte>, rest: seq<Byte>, q': Quad, b': seq<Byte>)
    requires 0 < left < 64 == |b| == |b'| && |input| >= 64 - left
    requires var todo := input[64 - left..];
      && |rest| < 64 && |rest| <= |todo| && (|todo| - |rest|) % 64 == 0 && rest == todo[|todo| - |rest|..]
      && q' == Fold(Compress(q, b[..left] + input[..64 - left]), todo[..|todo| - |rest|])
    requires b'[..|rest|] == rest
    ensures Moves(q, b, left, input, q', b')
  {
    hide Fold, Compress, Moves;
    var todo, block, all := input[64 - left..], b[..left] + input[..64 - left], b[..left] + input;
    var k := |todo| - |rest|;
    FoldFirst(q, block, todo[..k]);
    assert all[..64 + k] == block + todo[..k];
    assert all[64 + k..] == rest;
    MovesFrom(q, b, left, input, 64 + k, q', b');
  }

  lemma PlainMoves(q: Quad, b: seq<Byte>, left: nat, input: seq<Byte>, rest: seq<Byte>, q': Quad, b': seq<Byte>)
    requires left < 64 == |b| == |b'| && (left != 0 ==> |input| < 64 - left)
    requires |rest| < 64 && |rest| <= |input| && (|input| - |rest|) % 64 == 0 && rest == input[|input| - |rest|..]
    requires q' == Fold(q, input[..|input| - |rest|])
    requires left + |rest| <= 64 && b'[..left + |rest|] == b[..left] + rest
    ensures Moves(q, b, left, input, q', b')
  {
    hide Fold, Moves;
    var k, all := |input| - |rest|, b[..left] + input;
    if left == 0 {
      assert all == input;
    } else {
      assert k == 0 && input[..k] == all[..k];
      assert all[k..] == all;
    }
    MovesFrom(q, b, left, input, k, q', b');
  }

  lemma FoldNone(q: Quad)
    ensures Fold(q, []) == q
  {
  }

  lemma FoldFirst(q: Quad, block: seq<Byte>, more: seq<Byte>)
    requires |block| == 64
    ensures Fold(Compress(q, block), more) == Fold(q, block + more)
  {
    hide Compress;
    assert (block + more)[..64] == block && (block + more)[64..] == more;
  }

  /** The blocks and the rest of a message extended by the input. */
  lemma Absorbs(whole: seq<Byte>, all: seq<Byte>)
    requires |whole| % 64 == 0
    ensures var used := |all| % 64;
      && |whole + all| % 64 == used
      && (whole + all)[|whole + all| - used..] == all[|all| - used..]
      && Fold(INIT, (whole + all)[..|whole + all| - used]) == Fold(Fold(INIT, whole), all[..|all| - used])
  {
    hide Fold;
    ModSum(|whole|, |all|);
    var n := |all| - |all| % 64;
    assert (whole + all)[..|whole| + n] == whole + all[..n];
    FoldAppend(INIT, whole, all[..n]);
  }

  lemma AbsorbBlock(q: Quad, whole: seq<Byte>, block: seq<Byte>)
    requires |whole| % 64 == 0 && |block| == 64
    ensures Compress(Fold(q, whole), block) == Fold(q, whole + block)
  {
    hide Fold, Compress;
    FoldAppend(q, whole, block);
    FoldBlock(Fold(q, whole), block);
  }

  /** The length zeros of the padding, by the bytes of the last block. */
  lemma PadZeros(n: nat)
    ensures var u := n % 64; (55 - n) % 64 == if u < 56 then 55 - u else 119 - u
  {
    var u := n % 64;
    ModPeriod(55 - u, -(n / 64), 64);
  }

  lemma Reassociate(a: seq<Byte>, b: seq<Byte>, c: seq<Byte>, d: seq<Byte>, e: seq<Byte>)
    ensures a + b + c + d + e == a + (b + c + d + e)
  {
  }

  lemma ReassociateTwo(a: seq<Byte>, b: seq<Byte>, c: seq<Byte>, d: seq<Byte>, e: seq<Byte>, f: seq<Byte>)
    ensures a + b + c + (d + e) + f == (a + (b + c + d)) + (e + f)
  {
  }

  /** The whole blocks of a message, its remaining bytes, the zeros and the length of its padding. */
  lemma PadParts(m: seq<Byte>, u: nat, z: nat)
    requires u == |m| % 64 && z == if u < 56 then 55 - u else 119 - u
    ensures Pad(m) == m[..|m| - u] + m[|m| - u..] + [0x80] + Zeros(z) + LittleEndian(8 * |m| % TWO64, 8)
    ensures |m[..|m| - u]| % 64 == 0
  {
    hide LittleEndian, Zeros, Pad;
    PadZeros(|m|);
    PadIs(m);
    CutEnd(m, u);
    WholeBlocks(|m|, u);
  }

  lemma PadIs(m: seq<Byte>)
    ensures Pad(m) == m + [0x80] + Zeros((55 - |m|) % 64) + LittleEndian(8 * |m| % TWO64, 8)
  {
  }

  lemma CutEnd(m: seq<Byte>, u: nat)
    requires u <= |m|
    ensures m[..|m| - u] + m[|m| - u..] == m
  {
  }

  lemma WholeBlocks(n: nat, u: nat)
    requires u == n % 64
    ensures u <= n && (n - u) % 64 == 0
  {
  }

  lemma OneBlock(whole: seq<Byte>, tail: seq<Byte>, len: seq<Byte>)
    requires |whole| % 64 == 0 && |tail| < 56 && |len| == 8
    ensures Compress(Fold(INIT, whole), tail + [0x80] + Zeros(55 - |tail|) + len)
         == Fold(INIT, whole + tail + [0x80] + Zeros(55 - |tail|) + len)
  {
    hide Fold, Compress;
    Reassociate(whole, tail, [0x80], Zeros(55 - |tail|), len);
    AbsorbBlock(INIT, whole, tail + [0x80] + Zeros(55 - |tail|) + len);
  }

  lemma PaddedOne(m: seq<Byte>, u: nat, last: seq<Byte>)
    requires u == |m| % 64 < 56
    requires last == m[|m| - u..] + [0x80] + Zeros(55 - u) + LittleEndian(8 * |m| % TWO64, 8)
    ensures Compress(Fold(INIT, m[..|m| - u]), last) == Fold(INIT, Pad(m))
  {
    hide Fold, Compress, LittleEndian, Pad, Zeros;
    PadParts(m, u, 55 - u);
    OneBlock(m[..|m| - u], m[|m| - u..], LittleEndian(8 * |m| % TWO64, 8));
  }

  lemma TwoBlocks(q: Quad, whole: seq<Byte>, first: seq<Byte>, last: seq<Byte>)
    requires |whole| % 64 == 0 && |first| == |last| == 64
    ensures Compress(Compress(Fold(q, whole), first), last) == Fold(q, (whole + first) + last)
  {
    hide Fold, Compress;
    AbsorbBlock(q, whole, first);
    AbsorbBlock(q, whole + first, last);
  }

  lemma ZerosSplit(a: nat, b: nat)
    ensures Zeros(a + b) == Zeros(a) + Zeros(b)
  {
  }

  lemma TwoLastBlocks(whole: seq<Byte>, tail: seq<Byte>, len: seq<Byte>)
    requires |whole| % 64 == 0 && 56 <= |tail| < 64 && |len| == 8
    ensures Compress(Compress(Fold(INIT, whole), tail + [0x80] + Zeros(63 - |tail|)), Zeros(56) + len)
         == Fold(INIT, whole + tail + [0x80] + Zeros(119 - |tail|) + len)
  {
    hide Fold, Compress;
    ZerosSplit(63 - |tail|, 56);
    ReassociateTwo(whole, tail, [0x80], Zeros(63 - |tail|), Zeros(56), len);
    TwoBlocks(INIT, whole, tail + [0x80] + Zeros(63 - |tail|), Zeros(56) + len);
  }

  lemma PaddedTwo(m: seq<Byte>, u: nat, first: seq<Byte>, last: seq<Byte>)
    requires u == |m| % 64 >= 56
    requires first == m[|m| - u..] + [0x80] + Zeros(63 - u)
    requires last == Zeros(56) + LittleEndian(8 * |m| % TWO64, 8)
    ensures Compress(Compress(Fold(INIT, m[..|m| - u]), first), last) == Fold(INIT, Pad(m))
  {
    hide Fold, Compress, LittleEndian, Pad, Zeros;
    PadParts(m, u, 119 - u);
    TwoLastBlocks(m[..|m| - u], m[|m| - u..], LittleEndian(8 * |m| % TWO64, 8));
  }
}
