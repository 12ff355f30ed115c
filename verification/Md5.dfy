/** The digest object: 64 unrolled register assignments a block, a block buffer, and a bit count
    in two words. Tied to Rfc1321. */
module Md5 {
  import opened Rfc1321
  import Common

  /** T_MASK ^ x: every bit flipped. */
  function Flip(x: Word): Word {
    0xffffffff - x
  }

  const T1: Word := Flip(0x28955b87)
  const T2: Word := Flip(0x173848a9)
  const T3: Word := 0x242070db
  const T4: Word := Flip(0x3e423111)
  const T5: Word := Flip(0x0a83f050)
  const T6: Word := 0x4787c62a
  const T7: Word := Flip(0x57cfb9ec)
  const T8: Word := Flip(0x02b96afe)
  const T9: Word := 0x698098d8
  const T10: Word := Flip(0x74bb0850)
  const T11: Word := Flip(0x0000a44e)
  const T12: Word := Flip(0x76a32841)
  const T13: Word := 0x6b901122
  const T14: Word := Flip(0x02678e6c)
  const T15: Word := Flip(0x5986bc71)
  const T16: Word := 0x49b40821
  const T17: Word := Flip(0x09e1da9d)
  const T18: Word := Flip(0x3fbf4cbf)
  const T19: Word := 0x265e5a51
  const T20: Word := Flip(0x16493855)
  const T21: Word := Flip(0x29d0efa2)
  const T22: Word := 0x02441453
  const T23: Word := Flip(0x275e197e)
  const T24: Word := Flip(0x182c0437)
  const T25: Word := 0x21e1cde6
  const T26: Word := Flip(0x3cc8f829)
  const T27: Word := Flip(0x0b2af278)
  const T28: Word := 0x455a14ed
  const T29: Word := Flip(0x561c16fa)
  const T30: Word := Flip(0x03105c07)
  const T31: Word := 0x676f02d9
  const T32: Word := Flip(0x72d5b375)
  const T33: Word := Flip(0x0005c6bd)
  const T34: Word := Flip(0x788e097e)
  const T35: Word := 0x6d9d6122
  const T36: Word := Flip(0x021ac7f3)
  const T37: Word := Flip(0x5b4115bb)
  const T38: Word := 0x4bdecfa9
  const T39: Word := Flip(0x0944b49f)
  const T40: Word := Flip(0x4140438f)
  const T41: Word := 0x289b7ec6
  const T42: Word := Flip(0x155ed805)
  const T43: Word := Flip(0x2b10cf7a)
  const T44: Word := 0x04881d05
  const T45: Word := Flip(0x262b2fc6)
  const T46: Word := Flip(0x1924661a)
  const T47: Word := 0x1fa27cf8
  const T48: Word := Flip(0x3b53a99a)
  const T49: Word := Flip(0x0bd6ddbb)
  const T50: Word := 0x432aff97
  const T51: Word := Flip(0x546bdc58)
  const T52: Word := Flip(0x036c5fc6)
  const T53: Word := 0x655b59c3
  const T54: Word := Flip(0x70f3336d)
  const T55: Word := Flip(0x00100b82)
  const T56: Word := Flip(0x7a7ba22e)
  const T57: Word := 0x6fa87e4f
  const T58: Word := Flip(0x01d3191f)
  const T59: Word := Flip(0x5cfebceb)
  const T60: Word := 0x4e0811a1
  const T61: Word := Flip(0x08ac817d)
  const T62: Word := Flip(0x42c50dca)
  const T63: Word := 0x2ad7d2bb
  const T64: Word := Flip(0x14792c6e)

  /** Round 1, operations 1 to 4: after four the registers are back in order. */
  method Operations1To4(a0: Word, b0: Word, c0: Word, d0: Word, X: seq<Word>, ghost h: Regs)
    returns (a: Word, b: Word, c: Word, d: Word)
    requires |X| == 16 && Regs(a0, b0, c0, d0) == Operations(h, X, 0)
    ensures Regs(a, b, c, d) == Operations(h, X, 4)
  {
    hide F, G, H, I, Mix, Operations;
    a, b, c, d := a0, b0, c0, d0;
    a := Mix(a, b, F(b, c, d), X[0], 7, T1);
    assert Regs(d, a, b, c) == Operations(h, X, 1) by { Turn(h, X, 0); }
    d := Mix(d, a, F(a, b, c), X[1], 12, T2);
    assert Regs(c, d, a, b) == Operations(h, X, 2) by { Turn(h, X, 1); }
    c := Mix(c, d, F(d, a, b), X[2], 17, T3);
    assert Regs(b, c, d, a) == Operations(h, X, 3) by { Turn(h, X, 2); }
    b := Mix(b, c, F(c, d, a), X[3], 22, T4);
    assert Regs(a, b, c, d) == Operations(h, X, 4) by { Turn(h, X, 3); }
  }

  /** Round 1, operations 5 to 8: after four the registers are back in order. */
  method Operations5To8(a0: Word, b0: Word, c0: Word, d0: Word, X: seq<Word>, ghost h: Regs)
    returns (a: Word, b: Word, c: Word, d: Word)
    requires |X| == 16 && Regs(a0, b0, c0, d0) == Operations(h, X, 4)
    ensures Regs(a, b, c, d) == Operations(h, X, 8)
  {
    hide F, G, H, I, Mix, Operations;
    a, b, c, d := a0, b0, c0, d0;
    a := Mix(a, b, F(b, c, d), X[4], 7, T5);
    assert Regs(d, a, b, c) == Operations(h, X, 5) by { Turn(h, X, 4); }
    d := Mix(d, a, F(a, b, c), X[5], 12, T6);
    assert Regs(c, d, a, b) == Operations(h, X, 6) by { Turn(h, X, 5); }
    c := Mix(c, d, F(d, a, b), X[6], 17, T7);
    assert Regs(b, c, d, a) == Operations(h, X, 7) by { Turn(h, X, 6); }
    b := Mix(b, c, F(c, d, a), X[7], 22, T8);
    assert Regs(a, b, c, d) == Operations(h, X, 8) by { Turn(h, X, 7); }
  }

  /** Round 1, operations 9 to 12: after four the registers are back in order. */
  method Operations9To12(a0: Word, b0: Word, c0: Word, d0: Word, X: seq<Word>, ghost h: Regs)
    returns (a: Word, b: Word, c: Word, d: Word)
    requires |X| == 16 && Regs(a0, b0, c0, d0) == Operations(h, X, 8)
    ensures Regs(a, b, c, d) == Operations(h, X, 12)
  {
    hide F, G, H, I, Mix, Operations;
    a, b, c, d := a0, b0, c0, d0;
    a := Mix(a, b, F(b, c, d), X[8], 7, T9);
    assert Regs(d, a, b, c) == Operations(h, X, 9) by { Turn(h, X, 8); }
    d := Mix(d, a, F(a, b, c), X[9], 12, T10);
    assert Regs(c, d, a, b) == Operations(h, X, 10) by { Turn(h, X, 9); }
    c := Mix(c, d, F(d, a, b), X[10], 17, T11);
    assert Regs(b, c, d, a) == Operations(h, X, 11) by { Turn(h, X, 10); }
    b := Mix(b, c, F(c, d, a), X[11], 22, T12);
    assert Regs(a, b, c, d) == Operations(h, X, 12) by { Turn(h, X, 11); }
  }

  /** Round 1, operations 13 to 16: after four the registers are back in order. */
  method Operations13To16(a0: Word, b0: Word, c0: Word, d0: Word, X: seq<Word>, ghost h: Regs)
    returns (a: Word, b: Word, c: Word, d: Word)
    requires |X| == 16 && Regs(a0, b0, c0, d0) == Operations(h, X, 12)
    ensures Regs(a, b, c, d) == Operations(h, X, 16)
  {
    hide F, G, H, I, Mix, Operations;
    a, b, c, d := a0, b0, c0, d0;
    a := Mix(a, b, F(b, c, d), X[12], 7, T13);
    assert Regs(d, a, b, c) == Operations(h, X, 13) by { Turn(h, X, 12); }
    d := Mix(d, a, F(a, b, c), X[13], 12, T14);
    assert Regs(c, d, a, b) == Operations(h, X, 14) by { Turn(h, X, 13); }
    c := Mix(c, d, F(d, a, b), X[14], 17, T15);
    assert Regs(b, c, d, a) == Operations(h, X, 15) by { Turn(h, X, 14); }
    b := Mix(b, c, F(c, d, a), X[15], 22, T16);
    assert Regs(a, b, c, d) == Operations(h, X, 16) by { Turn(h, X, 15); }
  }

  /** Round 2, operations 17 to 20: after four the registers are back in order. */
  method Operations17To20(a0: Word, b0: Word, c0: Word, d0: Word, X: seq<Word>, ghost h: Regs)
    returns (a: Word, b: Word, c: Word, d: Word)
    requires |X| == 16 && Regs(a0, b0, c0, d0) == Operations(h, X, 16)
    ensures Regs(a, b, c, d) == Operations(h, X, 20)
  {
    hide F, G, H, I, Mix, Operations;
    a, b, c, d := a0, b0, c0, d0;
    a := Mix(a, b, G(b, c, d), X[1], 5, T17);
    assert Regs(d, a, b, c) == Operations(h, X, 17) by { Turn(h, X, 16); }
    d := Mix(d, a, G(a, b, c), X[6], 9, T18);
    assert Regs(c, d, a, b) == Operations(h, X, 18) by { Turn(h, X, 17); }
    c := Mix(c, d, G(d, a, b), X[11], 14, T19);
    assert Regs(b, c, d, a) == Operations(h, X, 19) by { Turn(h, X, 18); }
    b := Mix(b, c, G(c, d, a), X[0], 20, T20);
    assert Regs(a, b, c, d) == Operations(h, X, 20) by { Turn(h, X, 19); }
  }

  /** Round 2, operations 21 to 24: after four the registers are back in order. */
  method Operations21To24(a0: Word, b0: Word, c0: Word, d0: Word, X: seq<Word>, ghost h: Regs)
    returns (a: Word, b: Word, c: Word, d: Word)
    requires |X| == 16 && Regs(a0, b0, c0, d0) == Operations(h, X, 20)
    ensures Regs(a, b, c, d) == Operations(h, X, 24)
  {
    hide F, G, H, I, Mix, Operations;
    a, b, c, d := a0, b0, c0, d0;
    a := Mix(a, b, G(b, c, d), X[5], 5, T21);
    assert Regs(d, a, b, c) == Operations(h, X, 21) by { Turn(h, X, 20); }
    d := Mix(d, a, G(a, b, c), X[10], 9, T22);
    assert Regs(c, d, a, b) == Operations(h, X, 22) by { Turn(h, X, 21); }
    c := Mix(c, d, G(d, a, b), X[15], 14, T23);
    assert Regs(b, c, d, a) == Operations(h, X, 23) by { Turn(h, X, 22); }
    b := Mix(b, c, G(c, d, a), X[4], 20, T24);
    assert Regs(a, b, c, d) == Operations(h, X, 24) by { Turn(h, X, 23); }
  }

  /** Round 2, operations 25 to 28: after four the registers are back in order. */
  method Operations25To28(a0: Word, b0: Word, c0: Word, d0: Word, X: seq<Word>, ghost h: Regs)
    returns (a: Word, b: Word, c: Word, d: Word)
    requires |X| == 16 && Regs(a0, b0, c0, d0) == Operations(h, X, 24)
    ensures Regs(a, b, c, d) == Operations(h, X, 28)
  {
    hide F, G, H, I, Mix, Operations;
    a, b, c, d := a0, b0, c0, d0;
    a := Mix(a, b, G(b, c, d), X[9], 5, T25);
    assert Regs(d, a, b, c) == Operations(h, X, 25) by { Turn(h, X, 24); }
    d := Mix(d, a, G(a, b, c), X[14], 9, T26);
    assert Regs(c, d, a, b) == Operations(h, X, 26) by { Turn(h, X, 25); }
    c := Mix(c, d, G(d, a, b), X[3], 14, T27);
    assert Regs(b, c, d, a) == Operations(h, X, 27) by { Turn(h, X, 26); }
    b := Mix(b, c, G(c, d, a), X[8], 20, T28);
    assert Regs(a, b, c, d) == Operations(h, X, 28) by { Turn(h, X, 27); }
  }

  /** Round 2, operations 29 to 32: after four the registers are back in order. */
  method Operations29To32(a0: Word, b0: Word, c0: Word, d0: Word, X: seq<Word>, ghost h: Regs)
    returns (a: Word, b: Word, c: Word, d: Word)
    requires |X| == 16 && Regs(a0, b0, c0, d0) == Operations(h, X, 28)
    ensures Regs(a, b, c, d) == Operations(h, X, 32)
  {
    hide F, G, H, I, Mix, Operations;
    a, b, c, d := a0, b0, c0, d0;
    a := Mix(a, b, G(b, c, d), X[13], 5, T29);
    assert Regs(d, a, b, c) == Operations(h, X, 29) by { Turn(h, X, 28); }
    d := Mix(d, a, G(a, b, c), X[2], 9, T30);
    assert Regs(c, d, a, b) == Operations(h, X, 30) by { Turn(h, X, 29); }
    c := Mix(c, d, G(d, a, b), X[7], 14, T31);
    assert Regs(b, c, d, a) == Operations(h, X, 31) by { Turn(h, X, 30); }
    b := Mix(b, c, G(c, d, a), X[12], 20, T32);
    assert Regs(a, b, c, d) == Operations(h, X, 32) by { Turn(h, X, 31); }
  }

  /** Round 3, operations 33 to 36: after four the registers are back in order. */
  method Operations33To36(a0: Word, b0: Word, c0: Word, d0: Word, X: seq<Word>, ghost h: Regs)
    returns (a: Word, b: Word, c: Word, d: Word)
    requires |X| == 16 && Regs(a0, b0, c0, d0) == Operations(h, X, 32)
    ensures Regs(a, b, c, d) == Operations(h, X, 36)
  {
    hide F, G, H, I, Mix, Operations;
    a, b, c, d := a0, b0, c0, d0;
    a := Mix(a, b, H(b, c, d), X[5], 4, T33);
    assert Regs(d, a, b, c) == Operations(h, X, 33) by { Turn(h, X, 32); }
    d := Mix(d, a, H(a, b, c), X[8], 11, T34);
    assert Regs(c, d, a, b) == Operations(h, X, 34) by { Turn(h, X, 33); }
    c := Mix(c, d, H(d, a, b), X[11], 16, T35);
    assert Regs(b, c, d, a) == Operations(h, X, 35) by { Turn(h, X, 34); }
    b := Mix(b, c, H(c, d, a), X[14], 23, T36);
    assert Regs(a, b, c, d) == Operations(h, X, 36) by { Turn(h, X, 35); }
  }

  /** Round 3, operations 37 to 40: after four the registers are back in order. */
  method Operations37To40(a0: Word, b0: Word, c0: Word, d0: Word, X: seq<Word>, ghost h: Regs)
    returns (a: Word, b: Word, c: Word, d: Word)
    requires |X| == 16 && Regs(a0, b0, c0, d0) == Operations(h, X, 36)
    ensures Regs(a, b, c, d) == Operations(h, X, 40)
  {
    hide F, G, H, I, Mix, Operations;
    a, b, c, d := a0, b0, c0, d0;
    a := Mix(a, b, H(b, c, d), X[1], 4, T37);
    assert Regs(d, a, b, c) == Operations(h, X, 37) by { Turn(h, X, 36); }
    d := Mix(d, a, H(a, b, c), X[4], 11, T38);
    assert Regs(c, d, a, b) == Operations(h, X, 38) by { Turn(h, X, 37); }
    c := Mix(c, d, H(d, a, b), X[7], 16, T39);
    assert Regs(b, c, d, a) == Operations(h, X, 39) by { Turn(h, X, 38); }
    b := Mix(b, c, H(c, d, a), X[10], 23, T40);
    assert Regs(a, b, c, d) == Operations(h, X, 40) by { Turn(h, X, 39); }
  }

  /** Round 3, operations 41 to 44: after four the registers are back in order. */
  method Operations41To44(a0: Word, b0: Word, c0: Word, d0: Word, X: seq<Word>, ghost h: Regs)
    returns (a: Word, b: Word, c: Word, d: Word)
    requires |X| == 16 && Regs(a0, b0, c0, d0) == Operations(h, X, 40)
    ensures Regs(a, b, c, d) == Operations(h, X, 44)
  {
    hide F, G, H, I, Mix, Operations;
    a, b, c, d := a0, b0, c0, d0;
    a := Mix(a, b, H(b, c, d), X[13], 4, T41);
    assert Regs(d, a, b, c) == Operations(h, X, 41) by { Turn(h, X, 40); }
    d := Mix(d, a, H(a, b, c), X[0], 11, T42);
    assert Regs(c, d, a, b) == Operations(h, X, 42) by { Turn(h, X, 41); }
    c := Mix(c, d, H(d, a, b), X[3], 16, T43);
    assert Regs(b, c, d, a) == Operations(h, X, 43) by { Turn(h, X, 42); }
    b := Mix(b, c, H(c, d, a), X[6], 23, T44);
    assert Regs(a, b, c, d) == Operations(h, X, 44) by { Turn(h, X, 43); }
  }

  /** Round 3, operations 45 to 48: after four the registers are back in order. */
  method Operations45To48(a0: Word, b0: Word, c0: Word, d0: Word, X: seq<Word>, ghost h: Regs)
    returns (a: Word, b: Word, c: Word, d: Word)
    requires |X| == 16 && Regs(a0, b0, c0, d0) == Operations(h, X, 44)
    ensures Regs(a, b, c, d) == Operations(h, X, 48)
  {
    hide F, G, H, I, Mix, Operations;
    a, b, c, d := a0, b0, c0, d0;
    a := Mix(a, b, H(b, c, d), X[9], 4, T45);
    assert Regs(d, a, b, c) == Operations(h, X, 45) by { Turn(h, X, 44); }
    d := Mix(d, a, H(a, b, c), X[12], 11, T46);
    assert Regs(c, d, a, b) == Operations(h, X, 46) by { Turn(h, X, 45); }
    c := Mix(c, d, H(d, a, b), X[15], 16, T47);
    assert Regs(b, c, d, a) == Operations(h, X, 47) by { Turn(h, X, 46); }
    b := Mix(b, c, H(c, d, a), X[2], 23, T48);
    assert Regs(a, b, c, d) == Operations(h, X, 48) by { Turn(h, X, 47); }
  }

  /** Round 4, operations 49 to 52: after four the registers are back in order. */
  method Operations49To52(a0: Word, b0: Word, c0: Word, d0: Word, X: seq<Word>, ghost h: Regs)
    returns (a: Word, b: Word, c: Word, d: Word)
    requires |X| == 16 && Regs(a0, b0, c0, d0) == Operations(h, X, 48)
    ensures Regs(a, b, c, d) == Operations(h, X, 52)
  {
    hide F, G, H, I, Mix, Operations;
    a, b, c, d := a0, b0, c0, d0;
    a := Mix(a, b, I(b, c, d), X[0], 6, T49);
    assert Regs(d, a, b, c) == Operations(h, X, 49) by { Turn(h, X, 48); }
    d := Mix(d, a, I(a, b, c), X[7], 10, T50);
    assert Regs(c, d, a, b) == Operations(h, X, 50) by { Turn(h, X, 49); }
    c := Mix(c, d, I(d, a, b), X[14], 15, T51);
    assert Regs(b, c, d, a) == Operations(h, X, 51) by { Turn(h, X, 50); }
    b := Mix(b, c, I(c, d, a), X[5], 21, T52);
    assert Regs(a, b, c, d) == Operations(h, X, 52) by { Turn(h, X, 51); }
  }

  /** Round 4, operations 53 to 56: after four the registers are back in order. */
  method Operations53To56(a0: Word, b0: Word, c0: Word, d0: Word, X: seq<Word>, ghost h: Regs)
    returns (a: Word, b: Word, c: Word, d: Word)
    requires |X| == 16 && Regs(a0, b0, c0, d0) == Operations(h, X, 52)
    ensures Regs(a, b, c, d) == Operations(h, X, 56)
  {
    hide F, G, H, I, Mix, Operations;
    a, b, c, d := a0, b0, c0, d0;
    a := Mix(a, b, I(b, c, d), X[12], 6, T53);
    assert Regs(d, a, b, c) == Operations(h, X, 53) by { Turn(h, X, 52); }
    d := Mix(d, a, I(a, b, c), X[3], 10, T54);
    assert Regs(c, d, a, b) == Operations(h, X, 54) by { Turn(h, X, 53); }
    c := Mix(c, d, I(d, a, b), X[10], 15, T55);
    assert Regs(b, c, d, a) == Operations(h, X, 55) by { Turn(h, X, 54); }
    b := Mix(b, c, I(c, d, a), X[1], 21, T56);
    assert Regs(a, b, c, d) == Operations(h, X, 56) by { Turn(h, X, 55); }
  }

  /** Round 4, operations 57 to 60: after four the registers are back in order. */
  method Operations57To60(a0: Word, b0: Word, c0: Word, d0: Word, X: seq<Word>, ghost h: Regs)
    returns (a: Word, b: Word, c: Word, d: Word)
    requires |X| == 16 && Regs(a0, b0, c0, d0) == Operations(h, X, 56)
    ensures Regs(a, b, c, d) == Operations(h, X, 60)
  {
    hide F, G, H, I, Mix, Operations;
    a, b, c, d := a0, b0, c0, d0;
    a := Mix(a, b, I(b, c, d), X[8], 6, T57);
    assert Regs(d, a, b, c) == Operations(h, X, 57) by { Turn(h, X, 56); }
    d := Mix(d, a, I(a, b, c), X[15], 10, T58);
    assert Regs(c, d, a, b) == Operations(h, X, 58) by { Turn(h, X, 57); }
    c := Mix(c, d, I(d, a, b), X[6], 15, T59);
    assert Regs(b, c, d, a) == Operations(h, X, 59) by { Turn(h, X, 58); }
    b := Mix(b, c, I(c, d, a), X[13], 21, T60);
    assert Regs(a, b, c, d) == Operations(h, X, 60) by { Turn(h, X, 59); }
  }

  /** Round 4, operations 61 to 64: after four the registers are back in order. */
  method Operations61To64(a0: Word, b0: Word, c0: Word, d0: Word, X: seq<Word>, ghost h: Regs)
    returns (a: Word, b: Word, c: Word, d: Word)
    requires |X| == 16 && Regs(a0, b0, c0, d0) == Operations(h, X, 60)
    ensures Regs(a, b, c, d) == Operations(h, X, 64)
  {
    hide F, G, H, I, Mix, Operations;
    a, b, c, d := a0, b0, c0, d0;
    a := Mix(a, b, I(b, c, d), X[4], 6, T61);
    assert Regs(d, a, b, c) == Operations(h, X, 61) by { Turn(h, X, 60); }
    d := Mix(d, a, I(a, b, c), X[11], 10, T62);
    assert Regs(c, d, a, b) == Operations(h, X, 62) by { Turn(h, X, 61); }
    c := Mix(c, d, I(d, a, b), X[2], 15, T63);
    assert Regs(b, c, d, a) == Operations(h, X, 63) by { Turn(h, X, 62); }
    b := Mix(b, c, I(c, d, a), X[9], 21, T64);
    assert Regs(a, b, c, d) == Operations(h, X, 64) by { Turn(h, X, 63); }
  }

  class Md5State {
    var count0: Word  // message length in bits, low word
    var count1: Word  // and high word
    var abcd: Regs
    const buf: array<Byte>
    ghost var msg: seq<Byte>  // everything appended since the start

    /** The count words hold the length in bits of n bytes, modulo 2 to the 64. */
    ghost predicate Counts(n: nat)
      reads `count0, `count1
    {
      count0 == 8 * n % WORD && count1 == 8 * n / WORD % WORD
    }

    /** The chaining value has taken in the full blocks of m; the rest is in the buffer. */
    ghost predicate Holds(m: seq<Byte>)
      reads `abcd, buf
    {
      && buf.Length == 64
      && abcd == Blocks(INIT, m)
      && buf[..|m| % 64] == Residue(m)
    }

    ghost predicate Valid()
      reads this, buf
    {
      Counts(|msg|) && Holds(msg)
    }

    constructor ()
      ensures Valid() && msg == [] && fresh(buf)
    {
      count0, count1 := 0, 0;
      abcd := Regs(0x67452301, Flip(0x10325476), Flip(0x67452301), 0x10325476);
      buf := new Byte[64](_ => 0);
      msg := [];
    }

    /** The sixteen words of a block, low-order byte first. */
    method LoadWords(block: seq<Byte>) returns (X: seq<Word>)
      requires |block| == 64
      ensures X == WordsOf(block)
    {
      hide LittleEndian;
      X := [];
      for i := 0 to 16
        invariant |X| == i && forall j :: 0 <= j < i ==> X[j] == WordsOf(block)[j]
      {
        X := X + [LittleEndian(block[4 * i], block[4 * i + 1], block[4 * i + 2], block[4 * i + 3])];
      }
    }

    /** One block into the chaining value. */
    method Process(block: seq<Byte>)
      requires |block| == 64
      modifies this`abcd
      ensures abcd == Compress(old(abcd), WordsOf(block))
    {
      hide Operations, AddRegs, WordsOf;
      ghost var h := abcd;
      var X := LoadWords(block);
      NoOperation(h, X);
      var a, b, c, d := abcd.a, abcd.b, abcd.c, abcd.d;
      a, b, c, d := Operations1To4(a, b, c, d, X, h);
      a, b, c, d := Operations5To8(a, b, c, d, X, h);
      a, b, c, d := Operations9To12(a, b, c, d, X, h);
      a, b, c, d := Operations13To16(a, b, c, d, X, h);
      a, b, c, d := Operations17To20(a, b, c, d, X, h);
      a, b, c, d := Operations21To24(a, b, c, d, X, h);
      a, b, c, d := Operations25To28(a, b, c, d, X, h);
      a, b, c, d := Operations29To32(a, b, c, d, X, h);
      a, b, c, d := Operations33To36(a, b, c, d, X, h);
      a, b, c, d := Operations37To40(a, b, c, d, X, h);
      a, b, c, d := Operations41To44(a, b, c, d, X, h);
      a, b, c, d := Operations45To48(a, b, c, d, X, h);
      a, b, c, d := Operations49To52(a, b, c, d, X, h);
      a, b, c, d := Operations53To56(a, b, c, d, X, h);
      a, b, c, d := Operations57To60(a, b, c, d, X, h);
      a, b, c, d := Operations61To64(a, b, c, d, X, h);
      abcd := AddRegs(abcd, Regs(a, b, c, d));
    }

    /** memcpy into the block buffer. */
    method Copy(offset: nat, data: seq<Byte>)
      requires buf.Length == 64 && offset + |data| <= 64
      modifies buf
      ensures buf[..offset + |data|] == old(buf[..offset]) + data
    {
      for i := 0 to |data|
        invariant buf[..offset + i] == old(buf[..offset]) + data[..i]
      {
        buf[offset + i] := data[i];
      }
      assert data[..|data|] == data;
    }

    /** Where in the block the next byte goes. */
    method Offset() returns (offset: nat)
      requires Counts(|msg|)
      ensures offset == |msg| % 64
    {
      OffsetIsResidue(|msg|);
      offset := count0 / 8 % 64;
    }

    /** Adds nbytes to the message length, which is counted in bits. */
    method CountBits(nbytes: nat)
      requires Counts(|msg|)
      modifies this`count0, this`count1
      ensures Counts(|msg| + nbytes)
    {
      CountCarries(|msg|, nbytes);
      var nbits := nbytes * 8 % WORD;
      count1 := (count1 + nbytes / 0x2000_0000) % WORD;
      count0 := (count0 + nbits) % WORD;
      if count0 < nbits {
        count1 := (count1 + 1) % WORD;
      }
    }

    /** Puts bytes behind those in the buffer, and compresses the block they complete. */
    method FillBuffer(offset: nat, data: seq<Byte>, ghost m: seq<Byte>)
      requires Holds(m) && offset == |m| % 64 && offset + |data| <= 64
      modifies this`abcd, buf
      ensures Holds(m + data) && |m + data| % 64 == (offset + |data|) % 64
    {
      hide Blocks, Residue, Compress, WordsOf;
      Copy(offset, data);
      if offset + |data| < 64 {
        BlocksGrow(m, data);
        SameBlock(|m|, |data|);
      } else {
        FillBlock(m, data);
        assert buf[..] == buf[..64];
        Process(buf[..]);
        assert buf[..0] == Residue(m + data);
      }
    }

    /** Compresses a block straight from the data when the buffer is empty. */
    method ProcessWhole(block: seq<Byte>, ghost m: seq<Byte>)
      requires Holds(m) && |m| % 64 == 0 && |block| == 64
      modifies this`abcd
      ensures Holds(m + block) && |m + block| % 64 == 0
    {
      hide Blocks, Residue, Compress, WordsOf;
      WholeBlock(m, block);
      Process(block);
      assert buf[..0] == [];
    }

    /** As many bytes as the partial block takes. */
    method FillPartial(offset: nat, data: seq<Byte>, nbytes: nat, ghost m: seq<Byte>) returns (copy: nat)
      requires Holds(m) && 0 < offset == |m| % 64 && nbytes <= |data|
      modifies this`abcd, buf
      ensures copy == (if offset + nbytes > 64 then 64 - offset else nbytes)
      ensures Holds(m + data[..copy])
      ensures offset + copy == 64 ==> |m + data[..copy]| % 64 == 0
    {
      hide Holds;
      copy := if offset + nbytes > 64 then 64 - offset else nbytes;
      FillBuffer(offset, data[..copy], m);
    }

    /** Full blocks straight from the data, then a final partial block. */
    method ProcessBlocks(data: seq<Byte>, p0: nat, left0: nat, ghost m: seq<Byte>)
      requires Holds(m) && |m| % 64 == 0 && p0 + left0 <= |data|
      modifies this`abcd, buf
      ensures Holds(m + data[p0..p0 + left0])
    {
      hide Holds;
      var p, left := p0, left0;
      ghost var done := m;
      while left >= 64
        invariant p0 <= p && 0 <= left && p + left == p0 + left0
        invariant |done| % 64 == 0 && Holds(done) && done == m + data[p0..p]
      {
        ProcessWhole(data[p..p + 64], done);
        done := done + data[p..p + 64];
        p := p + 64;
        left := left - 64;
      }
      if left != 0 {
        FillBuffer(0, data[p..p + left], done);
        done := done + data[p..p + left];
      }
      assert done == m + data[p0..p0 + left0];
    }

    /** Adds the first nbytes of the data to the message. */
    method Append(data: seq<Byte>, nbytes: int)
      requires Valid() && nbytes <= |data| && nbytes < 0x8000_0000
      modifies this, buf
      ensures Valid() && msg == old(msg) + if nbytes <= 0 then [] else data[..nbytes]
    {
      hide Counts, Holds;
      var p, left := 0, nbytes;
      var offset := Offset();
      if nbytes <= 0 {
        assert msg + [] == msg;
        return;
      }
      CountBits(nbytes);
      ghost var done := msg;
      assert done == msg + data[..0];
      if offset != 0 {
        var copy := FillPartial(offset, data, nbytes, msg);
        done := msg + data[..copy];
        if offset + copy < 64 {
          msg := done;
          return;
        }
        p := p + copy;
        left := left - copy;
      }
      ProcessBlocks(data, p, left, done);
      assert done + data[p..p + left] == msg + data[..nbytes];
      msg := msg + data[..nbytes];
    }

    /** The message length as eight bytes, taken from the count words. */
    method SaveLength() returns (data: seq<Byte>)
      requires Counts(|msg|)
      ensures data == LengthBytes(|msg|)
    {
      hide Power256;
      data := [];
      for i := 0 to 8
        invariant |data| == i && forall j :: 0 <= j < i ==> data[j] == LengthBytes(|msg|)[j]
      {
        SavedByte(|msg|, i);
        data := data + [(if i / 4 == 0 then count0 else count1) / Power256(i % 4) % 256];
      }
    }

    /** The chaining value as sixteen bytes. */
    method ReadDigest() returns (digest: seq<Byte>)
      ensures digest == Output(abcd)
    {
      hide ByteOf;
      digest := [];
      for i := 0 to 16
        invariant |digest| == i && forall j :: 0 <= j < i ==> digest[j] == Output(abcd)[j]
      {
        digest := digest + [ByteOf([abcd.a, abcd.b, abcd.c, abcd.d][i / 4], i % 4)];
      }
    }

    /** Saves the length, pads, appends the length, and reads the digest off the words. */
    method Finish() returns (digest: seq<Byte>)
      requires Valid()
      modifies this, buf
      ensures digest == Rfc1321.Md5(old(msg))
    {
      hide Blocks, Residue, LengthBytes, Output;
      ghost var m, zeros := msg, PadZeros(|msg|);
      var data := SaveLength();
      var pad: seq<Byte> := [0x80] + Zeros(63);
      PadIsPadding(|m|);
      Append(pad, (55 - count0 / 8) % WORD % 64 + 1);
      assert pad[..zeros + 1] == [0x80] + Zeros(zeros);
      Append(data, 8);
      assert data[..8] == data;
      assert msg == Padded(m) by {
        assert m + ([0x80] + Zeros(zeros)) + data == m + [0x80] + Zeros(zeros) + data;
      }
      digest := ReadDigest();
    }
  }

  /** The digest depends only on the bytes, not on how they were cut into appends. */
  method Digest(chunks: seq<seq<Byte>>) returns (digest: seq<Byte>)
    requires forall i :: 0 <= i < |chunks| ==> |chunks[i]| < 0x8000_0000
    ensures digest == Rfc1321.Md5(Common.Concat(chunks))
  {
    hide Md5State.Counts, Md5State.Holds;
    var pms := new Md5State();
    for i := 0 to |chunks|
      invariant fresh(pms) && fresh(pms.buf) && pms.Valid()
      invariant pms.msg + Common.Concat(chunks[i..]) == Common.Concat(chunks)
    {
      assert chunks[i..][1..] == chunks[i + 1..];
      pms.Append(chunks[i], |chunks[i]|);
      assert chunks[i][..|chunks[i]|] == chunks[i];
    }
    assert pms.msg == Common.Concat(chunks);
    digest := pms.Finish();
  }
}

