/** The test suite of RFC 1321 (section A.5) for the message "abc", computed step by step. */
module Md5Vector {
  import opened Bytes
  import opened Md5Spec

  const ABC: seq<Byte> := [0x61, 0x62, 0x63]

  /** The sixteen words of the padded message. */
  function Block(): (x: seq<Md5Spec.Word>)
    ensures |x| == 16
  {
    [0x80636261, 0, 0, 0, 0, 0, 0, 0, 0, 0, 0, 0, 0, 0, 24, 0]
  }

  lemma Begin()
    ensures Steps(INIT, Block(), 0) == INIT
  {
  }

  lemma Next(x: seq<Md5Spec.Word>, i: nat)
    requires |x| == 16 && i < 64
    ensures Steps(INIT, x, i + 1) == Step(Steps(INIT, x, i), x, i)
  {
  }

  lemma Turns0()
    ensures Op(0, 0x67452301, 0xEFCDAB89, 0x98BADCFE, 0x10325476, 0x80636261, 7, 0xD76AA478) == 0xD6D117B4
    ensures Op(0, 0x10325476, 0xD6D117B4, 0xEFCDAB89, 0x98BADCFE, 0x00000000, 12, 0xE8C7B756) == 0x344A8432
    ensures Op(0, 0x98BADCFE, 0x344A8432, 0xD6D117B4, 0xEFCDAB89, 0x00000000, 17, 0x242070DB) == 0x2F6FBD72
    ensures Op(0, 0xEFCDAB89, 0x2F6FBD72, 0x344A8432, 0xD6D117B4, 0x00000000, 22, 0xC1BDCEEE) == 0x7AD956F2
  {
  }

  lemma Terms0()
    ensures Block()[Index(0)] == 0x80636261 && Shift(0) == 7 && T(0) == 0xD76AA478
    ensures Block()[Index(1)] == 0x00000000 && Shift(1) == 12 && T(1) == 0xE8C7B756
    ensures Block()[Index(2)] == 0x00000000 && Shift(2) == 17 && T(2) == 0x242070DB
    ensures Block()[Index(3)] == 0x00000000 && Shift(3) == 22 && T(3) == 0xC1BDCEEE
  {
  }

  lemma Steps0()
    ensures Steps(INIT, Block(), 4) == Quad(0xD6D117B4, 0x7AD956F2, 0x2F6FBD72, 0x344A8432)
  {
    hide Op, Steps, T, Index, Shift, Block;
    Begin();
    Terms0();
    Turns0();
    Next(Block(), 0);
    assert Step(Quad(0x67452301, 0xEFCDAB89, 0x98BADCFE, 0x10325476), Block(), 0)
         == Quad(0x10325476, 0xD6D117B4, 0xEFCDAB89, 0x98BADCFE);
    Next(Block(), 1);
    assert Step(Quad(0x10325476, 0xD6D117B4, 0xEFCDAB89, 0x98BADCFE), Block(), 1)
         == Quad(0x98BADCFE, 0x344A8432, 0xD6D117B4, 0xEFCDAB89);
    Next(Block(), 2);
    assert Step(Quad(0x98BADCFE, 0x344A8432, 0xD6D117B4, 0xEFCDAB89), Block(), 2)
         == Quad(0xEFCDAB89, 0x2F6FBD72, 0x344A8432, 0xD6D117B4);
    Next(Block(), 3);
  }

  lemma Turns1()
    ensures Op(0, 0xD6D117B4, 0x7AD956F2, 0x2F6FBD72, 0x344A8432, 0x00000000, 7, 0xF57C0FAF) == 0xC73741EF
    ensures Op(0, 0x344A8432, 0xC73741EF, 0x7AD956F2, 0x2F6FBD72, 0x00000000, 12, 0x4787C62A) == 0x8BAC3051
    ensures Op(0, 0x2F6FBD72, 0x8BAC3051, 0xC73741EF, 0x7AD956F2, 0x00000000, 17, 0xA8304613) == 0x207DC67B
    ensures Op(0, 0x7AD956F2, 0x207DC67B, 0x8BAC3051, 0xC73741EF, 0x00000000, 22, 0xFD469501) == 0x928D99F6
  {
  }

  lemma Terms1()
    ensures Block()[Index(4)] == 0x00000000 && Shift(4) == 7 && T(4) == 0xF57C0FAF
    ensures Block()[Index(5)] == 0x00000000 && Shift(5) == 12 && T(5) == 0x4787C62A
    ensures Block()[Index(6)] == 0x00000000 && Shift(6) == 17 && T(6) == 0xA8304613
    ensures Block()[Index(7)] == 0x00000000 && Shift(7) == 22 && T(7) == 0xFD469501
  {
  }

  lemma Steps4()
    ensures Steps(INIT, Block(), 8) == Quad(0xC73741EF, 0x928D99F6, 0x207DC67B, 0x8BAC3051)
  {
    hide Op, Steps, T, Index, Shift, Block;
    Steps0();
    Terms1();
    Turns1();
    Next(Block(), 4);
    assert Step(Quad(0xD6D117B4, 0x7AD956F2, 0x2F6FBD72, 0x344A8432), Block(), 4)
         == Quad(0x344A8432, 0xC73741EF, 0x7AD956F2, 0x2F6FBD72);
    Next(Block(), 5);
    assert Step(Quad(0x344A8432, 0xC73741EF, 0x7AD956F2, 0x2F6FBD72), Block(), 5)
         == Quad(0x2F6FBD72, 0x8BAC3051, 0xC73741EF, 0x7AD956F2);
    Next(Block(), 6);
    assert Step(Quad(0x2F6FBD72, 0x8BAC3051, 0xC73741EF, 0x7AD956F2), Block(), 6)
         == Quad(0x7AD956F2, 0x207DC67B, 0x8BAC3051, 0xC73741EF);
    Next(Block(), 7);
  }

  lemma Turns2()
    ensures Op(0, 0xC73741EF, 0x928D99F6, 0x207DC67B, 0x8BAC3051, 0x00000000, 7, 0x698098D8) == 0x854B3712
    ensures Op(0, 0x8BAC3051, 0x854B3712, 0x928D99F6, 0x207DC67B, 0x00000000, 12, 0x8B44F7AF) == 0x74E2F284
    ensures Op(0, 0x207DC67B, 0x74E2F284, 0x854B3712, 0x928D99F6, 0x00000000, 17, 0xFFFF5BB1) == 0x3020401C
    ensures Op(0, 0x928D99F6, 0x3020401C, 0x74E2F284, 0x854B3712, 0x00000000, 22, 0x895CD7BE) == 0x5ED49596
  {
  }

  lemma Terms2()
    ensures Block()[Index(8)] == 0x00000000 && Shift(8) == 7 && T(8) == 0x698098D8
    ensures Block()[Index(9)] == 0x00000000 && Shift(9) == 12 && T(9) == 0x8B44F7AF
    ensures Block()[Index(10)] == 0x00000000 && Shift(10) == 17 && T(10) == 0xFFFF5BB1
    ensures Block()[Index(11)] == 0x00000000 && Shift(11) == 22 && T(11) == 0x895CD7BE
  {
  }

  lemma Steps8()
    ensures Steps(INIT, Block(), 12) == Quad(0x854B3712, 0x5ED49596, 0x3020401C, 0x74E2F284)
  {
    hide Op, Steps, T, Index, Shift, Block;
    Steps4();
    Terms2();
    Turns2();
    Next(Block(), 8);
    assert Step(Quad(0xC73741EF, 0x928D99F6, 0x207DC67B, 0x8BAC3051), Block(), 8)
         == Quad(0x8BAC3051, 0x854B3712, 0x928D99F6, 0x207DC67B);
    Next(Block(), 9);
    assert Step(Quad(0x8BAC3051, 0x854B3712, 0x928D99F6, 0x207DC67B), Block(), 9)
         == Quad(0x207DC67B, 0x74E2F284, 0x854B3712, 0x928D99F6);
    Next(Block(), 10);
    assert Step(Quad(0x207DC67B, 0x74E2F284, 0x854B3712, 0x928D99F6), Block(), 10)
         == Quad(0x928D99F6, 0x3020401C, 0x74E2F284, 0x854B3712);
    Next(Block(), 11);
  }

  lemma Turns3()
    ensures Op(0, 0x854B3712, 0x5ED49596, 0x3020401C, 0x74E2F284, 0x00000000, 7, 0x6B901122) == 0xDDA9B9A6
    ensures Op(0, 0x74E2F284, 0xDDA9B9A6, 0x5ED49596, 0x3020401C, 0x00000000, 12, 0xFD987193) == 0xA1051895
    ensures Op(0, 0x3020401C, 0xA1051895, 0xDDA9B9A6, 0x5ED49596, 0x00000018, 17, 0xA679438E) == 0xE396856B
    ensures Op(0, 0x5ED49596, 0xE396856B, 0xA1051895, 0xDDA9B9A6, 0x00000000, 22, 0x49B40821) == 0x72AFF2E0
  {
  }

  lemma Terms3()
    ensures Block()[Index(12)] == 0x00000000 && Shift(12) == 7 && T(12) == 0x6B901122
    ensures Block()[Index(13)] == 0x00000000 && Shift(13) == 12 && T(13) == 0xFD987193
    ensures Block()[Index(14)] == 0x00000018 && Shift(14) == 17 && T(14) == 0xA679438E
    ensures Block()[Index(15)] == 0x00000000 && Shift(15) == 22 && T(15) == 0x49B40821
  {
  }

  lemma Steps12()
    ensures Steps(INIT, Block(), 16) == Quad(0xDDA9B9A6, 0x72AFF2E0, 0xE396856B, 0xA1051895)
  {
    hide Op, Steps, T, Index, Shift, Block;
    Steps8();
    Terms3();
    Turns3();
    Next(Block(), 12);
    assert Step(Quad(0x854B3712, 0x5ED49596, 0x3020401C, 0x74E2F284), Block(), 12)
         == Quad(0x74E2F284, 0xDDA9B9A6, 0x5ED49596, 0x3020401C);
    Next(Block(), 13);
    assert Step(Quad(0x74E2F284, 0xDDA9B9A6, 0x5ED49596, 0x3020401C), Block(), 13)
         == Quad(0x3020401C, 0xA1051895, 0xDDA9B9A6, 0x5ED49596);
    Next(Block(), 14);
    assert Step(Quad(0x3020401C, 0xA1051895, 0xDDA9B9A6, 0x5ED49596), Block(), 14)
         == Quad(0x5ED49596, 0xE396856B, 0xA1051895, 0xDDA9B9A6);
    Next(Block(), 15);
  }

  lemma Turns4()
    ensures Op(1, 0xDDA9B9A6, 0x72AFF2E0, 0xE396856B, 0xA1051895, 0x00000000, 5, 0xF61E2562) == 0x3E9E9126
    ensures Op(1, 0xA1051895, 0x3E9E9126, 0x72AFF2E0, 0xE396856B, 0x00000000, 9, 0xC040B340) == 0x4A1D804E
    ensures Op(1, 0xE396856B, 0x4A1D804E, 0x3E9E9126, 0x72AFF2E0, 0x00000000, 14, 0x265E5A51) == 0xE25E1652
    ensures Op(1, 0x72AFF2E0, 0xE25E1652, 0x4A1D804E, 0x3E9E9126, 0x80636261, 20, 0xE9B6C7AA) == 0xB5B204E4
  {
  }

  lemma Terms4()
    ensures Block()[Index(16)] == 0x00000000 && Shift(16) == 5 && T(16) == 0xF61E2562
    ensures Block()[Index(17)] == 0x00000000 && Shift(17) == 9 && T(17) == 0xC040B340
    ensures Block()[Index(18)] == 0x00000000 && Shift(18) == 14 && T(18) == 0x265E5A51
    ensures Block()[Index(19)] == 0x80636261 && Shift(19) == 20 && T(19) == 0xE9B6C7AA
  {
  }

  lemma Steps16()
    ensures Steps(INIT, Block(), 20) == Quad(0x3E9E9126, 0xB5B204E4, 0xE25E1652, 0x4A1D804E)
  {
    hide Op, Steps, T, Index, Shift, Block;
    Steps12();
    Terms4();
    Turns4();
    Next(Block(), 16);
    assert Step(Quad(0xDDA9B9A6, 0x72AFF2E0, 0xE396856B, 0xA1051895), Block(), 16)
         == Quad(0xA1051895, 0x3E9E9126, 0x72AFF2E0, 0xE396856B);
    Next(Block(), 17);
    assert Step(Quad(0xA1051895, 0x3E9E9126, 0x72AFF2E0, 0xE396856B), Block(), 17)
         == Quad(0xE396856B, 0x4A1D804E, 0x3E9E9126, 0x72AFF2E0);
    Next(Block(), 18);
    assert Step(Quad(0xE396856B, 0x4A1D804E, 0x3E9E9126, 0x72AFF2E0), Block(), 18)
         == Quad(0x72AFF2E0, 0xE25E1652, 0x4A1D804E, 0x3E9E9126);
    Next(Block(), 19);
  }

  lemma Turns5()
    ensures Op(1, 0x3E9E9126, 0xB5B204E4, 0xE25E1652, 0x4A1D804E, 0x00000000, 5, 0xD62F105D) == 0x59A8FFDA
    ensures Op(1, 0x4A1D804E, 0x59A8FFDA, 0xB5B204E4, 0xE25E1652, 0x00000000, 9, 0x02441453) == 0x6D002F1E
    ensures Op(1, 0xE25E1652, 0x6D002F1E, 0x59A8FFDA, 0xB5B204E4, 0x00000000, 14, 0xD8A1E681) == 0xABFC7920
    ensures Op(1, 0xB5B204E4, 0xABFC7920, 0x6D002F1E, 0x59A8FFDA, 0x00000000, 20, 0xE7D3FBC8) == 0x47092C07
  {
  }

  lemma Terms5()
    ensures Block()[Index(20)] == 0x00000000 && Shift(20) == 5 && T(20) == 0xD62F105D
    ensures Block()[Index(21)] == 0x00000000 && Shift(21) == 9 && T(21) == 0x02441453
    ensures Block()[Index(22)] == 0x00000000 && Shift(22) == 14 && T(22) == 0xD8A1E681
    ensures Block()[Index(23)] == 0x00000000 && Shift(23) == 20 && T(23) == 0xE7D3FBC8
  {
  }

  lemma Steps20()
    ensures Steps(INIT, Block(), 24) == Quad(0x59A8FFDA, 0x47092C07, 0xABFC7920, 0x6D002F1E)
  {
    hide Op, Steps, T, Index, Shift, Block;
    Steps16();
    Terms5();
    Turns5();
    Next(Block(), 20);
    assert Step(Quad(0x3E9E9126, 0xB5B204E4, 0xE25E1652, 0x4A1D804E), Block(), 20)
         == Quad(0x4A1D804E, 0x59A8FFDA, 0xB5B204E4, 0xE25E1652);
    Next(Block(), 21);
    assert Step(Quad(0x4A1D804E, 0x59A8FFDA, 0xB5B204E4, 0xE25E1652), Block(), 21)
         == Quad(0xE25E1652, 0x6D002F1E, 0x59A8FFDA, 0xB5B204E4);
    Next(Block(), 22);
    assert Step(Quad(0xE25E1652, 0x6D002F1E, 0x59A8FFDA, 0xB5B204E4), Block(), 22)
         == Quad(0xB5B204E4, 0xABFC7920, 0x6D002F1E, 0x59A8FFDA);
    Next(Block(), 23);
  }

  lemma Turns6()
    ensures Op(1, 0x59A8FFDA, 0x47092C07, 0xABFC7920, 0x6D002F1E, 0x00000000, 5, 0x21E1CDE6) == 0xB7F268CF
    ensures Op(1, 0x6D002F1E, 0xB7F268CF, 0x47092C07, 0xABFC7920, 0x00000018, 9, 0xC33707D6) == 0x09388EFF
    ensures Op(1, 0xABFC7920, 0x09388EFF, 0xB7F268CF, 0x47092C07, 0x00000000, 14, 0xF4D50D87) == 0xFE1623B1
    ensures Op(1, 0x47092C07, 0xFE1623B1, 0x09388EFF, 0xB7F268CF, 0x00000000, 20, 0x455A14ED) == 0x786ACB8F
  {
  }

  lemma Terms6()
    ensures Block()[Index(24)] == 0x00000000 && Shift(24) == 5 && T(24) == 0x21E1CDE6
    ensures Block()[Index(25)] == 0x00000018 && Shift(25) == 9 && T(25) == 0xC33707D6
    ensures Block()[Index(26)] == 0x00000000 && Shift(26) == 14 && T(26) == 0xF4D50D87
    ensures Block()[Index(27)] == 0x00000000 && Shift(27) == 20 && T(27) == 0x455A14ED
  {
  }

  lemma Steps24()
    ensures Steps(INIT, Block(), 28) == Quad(0xB7F268CF, 0x786ACB8F, 0xFE1623B1, 0x09388EFF)
  {
    hide Op, Steps, T, Index, Shift, Block;
    Steps20();
    Terms6();
    Turns6();
    Next(Block(), 24);
    assert Step(Quad(0x59A8FFDA, 0x47092C07, 0xABFC7920, 0x6D002F1E), Block(), 24)
         == Quad(0x6D002F1E, 0xB7F268CF, 0x47092C07, 0xABFC7920);
    Next(Block(), 25);
    assert Step(Quad(0x6D002F1E, 0xB7F268CF, 0x47092C07, 0xABFC7920), Block(), 25)
         == Quad(0xABFC7920, 0x09388EFF, 0xB7F268CF, 0x47092C07);
    Next(Block(), 26);
    assert Step(Quad(0xABFC7920, 0x09388EFF, 0xB7F268CF, 0x47092C07), Block(), 26)
         == Quad(0x47092C07, 0xFE1623B1, 0x09388EFF, 0xB7F268CF);
    Next(Block(), 27);
  }

  lemma Turns7()
    ensures Op(1, 0xB7F268CF, 0x786ACB8F, 0xFE1623B1, 0x09388EFF, 0x00000000, 5, 0xA9E3E905) == 0x790A77FB
    ensures Op(1, 0x09388EFF, 0x790A77FB, 0x786ACB8F, 0xFE1623B1, 0x00000000, 9, 0xFCEFA3F8) == 0x9F47E4F8
    ensures Op(1, 0xFE1623B1, 0x9F47E4F8, 0x790A77FB, 0x786ACB8F, 0x00000000, 14, 0x676F02D9) == 0xA62884AA
    ensures Op(1, 0x786ACB8F, 0xA62884AA, 0x9F47E4F8, 0x790A77FB, 0x00000000, 20, 0x8D2A4C8A) == 0x726342D3
  {
  }

  lemma Terms7()
    ensures Block()[Index(28)] == 0x00000000 && Shift(28) == 5 && T(28) == 0xA9E3E905
    ensures Block()[Index(29)] == 0x00000000 && Shift(29) == 9 && T(29) == 0xFCEFA3F8
    ensures Block()[Index(30)] == 0x00000000 && Shift(30) == 14 && T(30) == 0x676F02D9
    ensures Block()[Index(31)] == 0x00000000 && Shift(31) == 20 && T(31) == 0x8D2A4C8A
  {
  }

  lemma Steps28()
    ensures Steps(INIT, Block(), 32) == Quad(0x790A77FB, 0x726342D3, 0xA62884AA, 0x9F47E4F8)
  {
    hide Op, Steps, T, Index, Shift, Block;
    Steps24();
    Terms7();
    Turns7();
    Next(Block(), 28);
    assert Step(Quad(0xB7F268CF, 0x786ACB8F, 0xFE1623B1, 0x09388EFF), Block(), 28)
         == Quad(0x09388EFF, 0x790A77FB, 0x786ACB8F, 0xFE1623B1);
    Next(Block(), 29);
    assert Step(Quad(0x09388EFF, 0x790A77FB, 0x786ACB8F, 0xFE1623B1), Block(), 29)
         == Quad(0xFE1623B1, 0x9F47E4F8, 0x790A77FB, 0x786ACB8F);
    Next(Block(), 30);
    assert Step(Quad(0xFE1623B1, 0x9F47E4F8, 0x790A77FB, 0x786ACB8F), Block(), 30)
         == Quad(0x786ACB8F, 0xA62884AA, 0x9F47E4F8, 0x790A77FB);
    Next(Block(), 31);
  }

  lemma Turns8()
    ensures Op(2, 0x790A77FB, 0x726342D3, 0xA62884AA, 0x9F47E4F8, 0x00000000, 4, 0xFFFA3942) == 0xB3707EBF
    ensures Op(2, 0x9F47E4F8, 0xB3707EBF, 0x726342D3, 0xA62884AA, 0x00000000, 11, 0x8771F681) == 0x60127B2E
    ensures Op(2, 0xA62884AA, 0x60127B2E, 0xB3707EBF, 0x726342D3, 0x00000000, 16, 0x6D9D6122) == 0x8D212FF5
    ensures Op(2, 0x726342D3, 0x8D212FF5, 0x60127B2E, 0xB3707EBF, 0x00000018, 23, 0xFDE5380C) == 0x3B0875C7
  {
  }

  lemma Terms8()
    ensures Block()[Index(32)] == 0x00000000 && Shift(32) == 4 && T(32) == 0xFFFA3942
    ensures Block()[Index(33)] == 0x00000000 && Shift(33) == 11 && T(33) == 0x8771F681
    ensures Block()[Index(34)] == 0x00000000 && Shift(34) == 16 && T(34) == 0x6D9D6122
    ensures Block()[Index(35)] == 0x00000018 && Shift(35) == 23 && T(35) == 0xFDE5380C
  {
  }

  lemma Steps32()
    ensures Steps(INIT, Block(), 36) == Quad(0xB3707EBF, 0x3B0875C7, 0x8D212FF5, 0x60127B2E)
  {
    hide Op, Steps, T, Index, Shift, Block;
    Steps28();
    Terms8();
    Turns8();
    Next(Block(), 32);
    assert Step(Quad(0x790A77FB, 0x726342D3, 0xA62884AA, 0x9F47E4F8), Block(), 32)
         == Quad(0x9F47E4F8, 0xB3707EBF, 0x726342D3, 0xA62884AA);
    Next(Block(), 33);
    assert Step(Quad(0x9F47E4F8, 0xB3707EBF, 0x726342D3, 0xA62884AA), Block(), 33)
         == Quad(0xA62884AA, 0x60127B2E, 0xB3707EBF, 0x726342D3);
    Next(Block(), 34);
    assert Step(Quad(0xA62884AA, 0x60127B2E, 0xB3707EBF, 0x726342D3), Block(), 34)
         == Quad(0x726342D3, 0x8D212FF5, 0x60127B2E, 0xB3707EBF);
    Next(Block(), 35);
  }

  lemma Turns9()
    ensures Op(2, 0xB3707EBF, 0x3B0875C7, 0x8D212FF5, 0x60127B2E, 0x00000000, 4, 0xA4BEEA44) == 0x21B117B9
    ensures Op(2, 0x60127B2E, 0x21B117B9, 0x3B0875C7, 0x8D212FF5, 0x00000000, 11, 0x4BDECFA9) == 0x6E7429D5
    ensures Op(2, 0x8D212FF5, 0x6E7429D5, 0x21B117B9, 0x3B0875C7, 0x00000000, 16, 0xF6BB4B60) == 0x3575227E
    ensures Op(2, 0x3B0875C7, 0x3575227E, 0x6E7429D5, 0x21B117B9, 0x00000000, 23, 0xBEBFBC70) == 0x5A2F5EA5
  {
  }

  lemma Terms9()
    ensures Block()[Index(36)] == 0x00000000 && Shift(36) == 4 && T(36) == 0xA4BEEA44
    ensures Block()[Index(37)] == 0x00000000 && Shift(37) == 11 && T(37) == 0x4BDECFA9
    ensures Block()[Index(38)] == 0x00000000 && Shift(38) == 16 && T(38) == 0xF6BB4B60
    ensures Block()[Index(39)] == 0x00000000 && Shift(39) == 23 && T(39) == 0xBEBFBC70
  {
  }

  lemma Steps36()
    ensures Steps(INIT, Block(), 40) == Quad(0x21B117B9, 0x5A2F5EA5, 0x3575227E, 0x6E7429D5)
  {
    hide Op, Steps, T, Index, Shift, Block;
    Steps32();
    Terms9();
    Turns9();
    Next(Block(), 36);
    assert Step(Quad(0xB3707EBF, 0x3B0875C7, 0x8D212FF5, 0x60127B2E), Block(), 36)
         == Quad(0x60127B2E, 0x21B117B9, 0x3B0875C7, 0x8D212FF5);
    Next(Block(), 37);
    assert Step(Quad(0x60127B2E, 0x21B117B9, 0x3B0875C7, 0x8D212FF5), Block(), 37)
         == Quad(0x8D212FF5, 0x6E7429D5, 0x21B117B9, 0x3B0875C7);
    Next(Block(), 38);
    assert Step(Quad(0x8D212FF5, 0x6E7429D5, 0x21B117B9, 0x3B0875C7), Block(), 38)
         == Quad(0x3B0875C7, 0x3575227E, 0x6E7429D5, 0x21B117B9);
    Next(Block(), 39);
  }

  lemma Turns10()
    ensures Op(2, 0x21B117B9, 0x5A2F5EA5, 0x3575227E, 0x6E7429D5, 0x00000000, 4, 0x289B7EC6) == 0x11DE1779
    ensures Op(2, 0x6E7429D5, 0x11DE1779, 0x5A2F5EA5, 0x3575227E, 0x80636261, 11, 0xEAA127FA) == 0xFADCAA38
    ensures Op(2, 0x3575227E, 0xFADCAA38, 0x11DE1779, 0x5A2F5EA5, 0x00000000, 16, 0xD4EF3085) == 0x31C465CA
    ensures Op(2, 0x5A2F5EA5, 0x31C465CA, 0xFADCAA38, 0x11DE1779, 0x00000000, 23, 0x04881D05) == 0x4C6124F4
  {
  }

  lemma Terms10()
    ensures Block()[Index(40)] == 0x00000000 && Shift(40) == 4 && T(40) == 0x289B7EC6
    ensures Block()[Index(41)] == 0x80636261 && Shift(41) == 11 && T(41) == 0xEAA127FA
    ensures Block()[Index(42)] == 0x00000000 && Shift(42) == 16 && T(42) == 0xD4EF3085
    ensures Block()[Index(43)] == 0x00000000 && Shift(43) == 23 && T(43) == 0x04881D05
  {
  }

  lemma Steps40()
    ensures Steps(INIT, Block(), 44) == Quad(0x11DE1779, 0x4C6124F4, 0x31C465CA, 0xFADCAA38)
  {
    hide Op, Steps, T, Index, Shift, Block;
    Steps36();
    Terms10();
    Turns10();
    Next(Block(), 40);
    assert Step(Quad(0x21B117B9, 0x5A2F5EA5, 0x3575227E, 0x6E7429D5), Block(), 40)
         == Quad(0x6E7429D5, 0x11DE1779, 0x5A2F5EA5, 0x3575227E);
    Next(Block(), 41);
    assert Step(Quad(0x6E7429D5, 0x11DE1779, 0x5A2F5EA5, 0x3575227E), Block(), 41)
         == Quad(0x3575227E, 0xFADCAA38, 0x11DE1779, 0x5A2F5EA5);
    Next(Block(), 42);
    assert Step(Quad(0x3575227E, 0xFADCAA38, 0x11DE1779, 0x5A2F5EA5), Block(), 42)
         == Quad(0x5A2F5EA5, 0x31C465CA, 0xFADCAA38, 0x11DE1779);
    Next(Block(), 43);
  }

  lemma Turns11()
    ensures Op(2, 0x11DE1779, 0x4C6124F4, 0x31C465CA, 0xFADCAA38, 0x00000000, 4, 0xD9D4D039) == 0x7F2E507B
    ensures Op(2, 0xFADCAA38, 0x7F2E507B, 0x4C6124F4, 0x31C465CA, 0x00000000, 11, 0xE6DB99E5) == 0x99D9679D
    ensures Op(2, 0x31C465CA, 0x99D9679D, 0x7F2E507B, 0x4C6124F4, 0x00000000, 16, 0x1FA27CF8) == 0x8FAE6399
    ensures Op(2, 0x4C6124F4, 0x8FAE6399, 0x99D9679D, 0x7F2E507B, 0x00000000, 23, 0xC4AC5665) == 0x7BEB9700
  {
  }

  lemma Terms11()
    ensures Block()[Index(44)] == 0x00000000 && Shift(44) == 4 && T(44) == 0xD9D4D039
    ensures Block()[Index(45)] == 0x00000000 && Shift(45) == 11 && T(45) == 0xE6DB99E5
    ensures Block()[Index(46)] == 0x00000000 && Shift(46) == 16 && T(46) == 0x1FA27CF8
    ensures Block()[Index(47)] == 0x00000000 && Shift(47) == 23 && T(47) == 0xC4AC5665
  {
  }

  lemma Steps44()
    ensures Steps(INIT, Block(), 48) == Quad(0x7F2E507B, 0x7BEB9700, 0x8FAE6399, 0x99D9679D)
  {
    hide Op, Steps, T, Index, Shift, Block;
    Steps40();
    Terms11();
    Turns11();
    Next(Block(), 44);
    assert Step(Quad(0x11DE1779, 0x4C6124F4, 0x31C465CA, 0xFADCAA38), Block(), 44)
         == Quad(0xFADCAA38, 0x7F2E507B, 0x4C6124F4, 0x31C465CA);
    Next(Block(), 45);
    assert Step(Quad(0xFADCAA38, 0x7F2E507B, 0x4C6124F4, 0x31C465CA), Block(), 45)
         == Quad(0x31C465CA, 0x99D9679D, 0x7F2E507B, 0x4C6124F4);
    Next(Block(), 46);
    assert Step(Quad(0x31C465CA, 0x99D9679D, 0x7F2E507B, 0x4C6124F4), Block(), 46)
         == Quad(0x4C6124F4, 0x8FAE6399, 0x99D9679D, 0x7F2E507B);
    Next(Block(), 47);
  }

  lemma Turns12()
    ensures Op(3, 0x7F2E507B, 0x7BEB9700, 0x8FAE6399, 0x99D9679D, 0x80636261, 6, 0xF4292244) == 0x7B201DF8
    ensures Op(3, 0x99D9679D, 0x7B201DF8, 0x7BEB9700, 0x8FAE6399, 0x00000000, 10, 0x432AFF97) == 0xF4E8E96E
    ensures Op(3, 0x8FAE6399, 0xF4E8E96E, 0x7B201DF8, 0x7BEB9700, 0x00000018, 15, 0xAB9423A7) == 0xB298CEFD
    ensures Op(3, 0x7BEB9700, 0xB298CEFD, 0xF4E8E96E, 0x7B201DF8, 0x00000000, 21, 0xFC93A039) == 0x8BF025C4
  {
  }

  lemma Terms12()
    ensures Block()[Index(48)] == 0x80636261 && Shift(48) == 6 && T(48) == 0xF4292244
    ensures Block()[Index(49)] == 0x00000000 && Shift(49) == 10 && T(49) == 0x432AFF97
    ensures Block()[Index(50)] == 0x00000018 && Shift(50) == 15 && T(50) == 0xAB9423A7
    ensures Block()[Index(51)] == 0x00000000 && Shift(51) == 21 && T(51) == 0xFC93A039
  {
  }

  lemma Steps48()
    ensures Steps(INIT, Block(), 52) == Quad(0x7B201DF8, 0x8BF025C4, 0xB298CEFD, 0xF4E8E96E)
  {
    hide Op, Steps, T, Index, Shift, Block;
    Steps44();
    Terms12();
    Turns12();
    Next(Block(), 48);
    assert Step(Quad(0x7F2E507B, 0x7BEB9700, 0x8FAE6399, 0x99D9679D), Block(), 48)
         == Quad(0x99D9679D, 0x7B201DF8, 0x7BEB9700, 0x8FAE6399);
    Next(Block(), 49);
    assert Step(Quad(0x99D9679D, 0x7B201DF8, 0x7BEB9700, 0x8FAE6399), Block(), 49)
         == Quad(0x8FAE6399, 0xF4E8E96E, 0x7B201DF8, 0x7BEB9700);
    Next(Block(), 50);
    assert Step(Quad(0x8FAE6399, 0xF4E8E96E, 0x7B201DF8, 0x7BEB9700), Block(), 50)
         == Quad(0x7BEB9700, 0xB298CEFD, 0xF4E8E96E, 0x7B201DF8);
    Next(Block(), 51);
  }

  lemma Turns13()
    ensures Op(3, 0x7B201DF8, 0x8BF025C4, 0xB298CEFD, 0xF4E8E96E, 0x00000000, 6, 0x655B59C3) == 0x06CC5E8A
    ensures Op(3, 0xF4E8E96E, 0x06CC5E8A, 0x8BF025C4, 0xB298CEFD, 0x00000000, 10, 0x8F0CCC92) == 0x5B0D97AA
    ensures Op(3, 0xB298CEFD, 0x5B0D97AA, 0x06CC5E8A, 0x8BF025C4, 0x00000000, 15, 0xFFEFF47D) == 0x7D632DD0
    ensures Op(3, 0x8BF025C4, 0x7D632DD0, 0x5B0D97AA, 0x06CC5E8A, 0x00000000, 21, 0x85845DD1) == 0x3BFA2C27
  {
  }

  lemma Terms13()
    ensures Block()[Index(52)] == 0x00000000 && Shift(52) == 6 && T(52) == 0x655B59C3
    ensures Block()[Index(53)] == 0x00000000 && Shift(53) == 10 && T(53) == 0x8F0CCC92
    ensures Block()[Index(54)] == 0x00000000 && Shift(54) == 15 && T(54) == 0xFFEFF47D
    ensures Block()[Index(55)] == 0x00000000 && Shift(55) == 21 && T(55) == 0x85845DD1
  {
  }

  lemma Steps52()
    ensures Steps(INIT, Block(), 56) == Quad(0x06CC5E8A, 0x3BFA2C27, 0x7D632DD0, 0x5B0D97AA)
  {
    hide Op, Steps, T, Index, Shift, Block;
    Steps48();
    Terms13();
    Turns13();
    Next(Block(), 52);
    assert Step(Quad(0x7B201DF8, 0x8BF025C4, 0xB298CEFD, 0xF4E8E96E), Block(), 52)
         == Quad(0xF4E8E96E, 0x06CC5E8A, 0x8BF025C4, 0xB298CEFD);
    Next(Block(), 53);
    assert Step(Quad(0xF4E8E96E, 0x06CC5E8A, 0x8BF025C4, 0xB298CEFD), Block(), 53)
         == Quad(0xB298CEFD, 0x5B0D97AA, 0x06CC5E8A, 0x8BF025C4);
    Next(Block(), 54);
    assert Step(Quad(0xB298CEFD, 0x5B0D97AA, 0x06CC5E8A, 0x8BF025C4), Block(), 54)
         == Quad(0x8BF025C4, 0x7D632DD0, 0x5B0D97AA, 0x06CC5E8A);
    Next(Block(), 55);
  }

  lemma Turns14()
    ensures Op(3, 0x06CC5E8A, 0x3BFA2C27, 0x7D632DD0, 0x5B0D97AA, 0x00000000, 6, 0x6FA87E4F) == 0x7F81CC35
    ensures Op(3, 0x5B0D97AA, 0x7F81CC35, 0x3BFA2C27, 0x7D632DD0, 0x00000000, 10, 0xFE2CE6E0) == 0x094454AB
    ensures Op(3, 0x7D632DD0, 0x094454AB, 0x7F81CC35, 0x3BFA2C27, 0x00000000, 15, 0xA3014314) == 0x4F9DBE3F
    ensures Op(3, 0x3BFA2C27, 0x4F9DBE3F, 0x094454AB, 0x7F81CC35, 0x00000000, 21, 0x4E0811A1) == 0x7327D604
  {
  }

  lemma Terms14()
    ensures Block()[Index(56)] == 0x00000000 && Shift(56) == 6 && T(56) == 0x6FA87E4F
    ensures Block()[Index(57)] == 0x00000000 && Shift(57) == 10 && T(57) == 0xFE2CE6E0
    ensures Block()[Index(58)] == 0x00000000 && Shift(58) == 15 && T(58) == 0xA3014314
    ensures Block()[Index(59)] == 0x00000000 && Shift(59) == 21 && T(59) == 0x4E0811A1
  {
  }

  lemma Steps56()
    ensures Steps(INIT, Block(), 60) == Quad(0x7F81CC35, 0x7327D604, 0x4F9DBE3F, 0x094454AB)
  {
    hide Op, Steps, T, Index, Shift, Block;
    Steps52();
    Terms14();
    Turns14();
    Next(Block(), 56);
    assert Step(Quad(0x06CC5E8A, 0x3BFA2C27, 0x7D632DD0, 0x5B0D97AA), Block(), 56)
         == Quad(0x5B0D97AA, 0x7F81CC35, 0x3BFA2C27, 0x7D632DD0);
    Next(Block(), 57);
    assert Step(Quad(0x5B0D97AA, 0x7F81CC35, 0x3BFA2C27, 0x7D632DD0), Block(), 57)
         == Quad(0x7D632DD0, 0x094454AB, 0x7F81CC35, 0x3BFA2C27);
    Next(Block(), 58);
    assert Step(Quad(0x7D632DD0, 0x094454AB, 0x7F81CC35, 0x3BFA2C27), Block(), 58)
         == Quad(0x3BFA2C27, 0x4F9DBE3F, 0x094454AB, 0x7F81CC35);
    Next(Block(), 59);
  }

  lemma Turns15()
    ensures Op(3, 0x7F81CC35, 0x7327D604, 0x4F9DBE3F, 0x094454AB, 0x00000000, 6, 0xF7537E82) == 0x310ADE8F
    ensures Op(3, 0x094454AB, 0x310ADE8F, 0x7327D604, 0x4F9DBE3F, 0x00000000, 10, 0xBD3AF235) == 0x624D8CB2
    ensures Op(3, 0x4F9DBE3F, 0x624D8CB2, 0x310ADE8F, 0x7327D604, 0x00000000, 15, 0x2AD7D2BB) == 0xE484B9D8
    ensures Op(3, 0x7327D604, 0xE484B9D8, 0x624D8CB2, 0x310ADE8F, 0x00000000, 21, 0xEB86D391) == 0xC08226B3
  {
  }

  lemma Terms15()
    ensures Block()[Index(60)] == 0x00000000 && Shift(60) == 6 && T(60) == 0xF7537E82
    ensures Block()[Index(61)] == 0x00000000 && Shift(61) == 10 && T(61) == 0xBD3AF235
    ensures Block()[Index(62)] == 0x00000000 && Shift(62) == 15 && T(62) == 0x2AD7D2BB
    ensures Block()[Index(63)] == 0x00000000 && Shift(63) == 21 && T(63) == 0xEB86D391
  {
  }

  lemma Steps60()
    ensures Steps(INIT, Block(), 64) == Quad(0x310ADE8F, 0xC08226B3, 0xE484B9D8, 0x624D8CB2)
  {
    hide Op, Steps, T, Index, Shift, Block;
    Steps56();
    Terms15();
    Turns15();
    Next(Block(), 60);
    assert Step(Quad(0x7F81CC35, 0x7327D604, 0x4F9DBE3F, 0x094454AB), Block(), 60)
         == Quad(0x094454AB, 0x310ADE8F, 0x7327D604, 0x4F9DBE3F);
    Next(Block(), 61);
    assert Step(Quad(0x094454AB, 0x310ADE8F, 0x7327D604, 0x4F9DBE3F), Block(), 61)
         == Quad(0x4F9DBE3F, 0x624D8CB2, 0x310ADE8F, 0x7327D604);
    Next(Block(), 62);
    assert Step(Quad(0x4F9DBE3F, 0x624D8CB2, 0x310ADE8F, 0x7327D604), Block(), 62)
         == Quad(0x7327D604, 0xE484B9D8, 0x624D8CB2, 0x310ADE8F);
    Next(Block(), 63);
  }

  /** Where each part of the padded message lies: the bit behind it, and its length of 24 bits. */
  lemma Padded(p: seq<Byte>)
    requires p == Pad(ABC)
    ensures |p| == 64 && p[..4] == [0x61, 0x62, 0x63, 0x80] && p[4..56] == Zeros(52)
    ensures p[56..] == [24, 0, 0, 0, 0, 0, 0, 0]
  {
    hide LittleEndian;
    LengthBytes();
    assert p == ABC + [0x80] + Zeros(52) + LittleEndian(24, 8);
  }

  lemma LengthBytes()
    ensures LittleEndian(24, 8) == [24, 0, 0, 0, 0, 0, 0, 0]
  {
    assert LittleEndian(0, 4) == [0, 0, 0, 0];
    assert LittleEndian(0, 7) == [0, 0, 0, 0, 0, 0, 0];
  }

  lemma WordIs(b: seq<Byte>, i: nat)
    requires i + 4 <= |b| && b[i + 1] == b[i + 2] == b[i + 3] == 0
    ensures Decode(b, i) == b[i] as bv32
  {
  }

  lemma FirstWord(b: seq<Byte>)
    requires |b| >= 4 && b[..4] == [0x61, 0x62, 0x63, 0x80]
    ensures Decode(b, 0) == 0x80636261
  {
    assert b[0] == b[..4][0] && b[1] == b[..4][1] && b[2] == b[..4][2] && b[3] == b[..4][3];
  }

  lemma PaddedWords()
    ensures |Pad(ABC)| == 64 && Md5Spec.Words(Pad(ABC)) == Block()
  {
    hide Pad, Decode;
    var p := Pad(ABC);
    Padded(p);
    FirstWord(p);
    forall k | 0 <= k < 16 ensures Md5Spec.Words(p)[k] == Block()[k] {
      if k > 0 {
        WordIs(p, 4 * k);
      }
    }
  }

  lemma OutputIs()
    ensures Output(Quad(0x98500190, 0xB04FD23C, 0x7D3F96D6, 0x727FE128)) ==
      [0x90, 0x01, 0x50, 0x98, 0x3C, 0xD2, 0x4F, 0xB0, 0xD6, 0x96, 0x3F, 0x7D, 0x28, 0xE1, 0x7F, 0x72]
  {
  }

  /** MD5 ("abc") = 900150983cd24fb0d6963f7d28e17f72 */
  lemma AbcDigest()
    ensures Digest(ABC)
         == [0x90, 0x01, 0x50, 0x98, 0x3C, 0xD2, 0x4F, 0xB0, 0xD6, 0x96, 0x3F, 0x7D, 0x28, 0xE1, 0x7F, 0x72]
  {
    hide Steps, Pad, Output;
    PaddedWords();
    Steps60();
    assert Pad(ABC)[..64] == Pad(ABC);
    OutputIs();
  }
}
