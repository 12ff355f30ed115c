/** The test suite of section A.5 of RFC 1321: the digests of the empty message and of "abc", carried
    through the 64 operations of their one block. */
module Rfc1321Suite {
  import opened Rfc1321

  // ------------------------------------------------- what the section writes for each operation

  /** Operation i, counted from 0: the message word, the rotation, and the entry of the table. */
  predicate Entry(i: nat, k: nat, s: nat, t: Word) {
    i < 64 && K(i) == k && S(i) == s && T(i) == t
  }

  lemma Entries1To4()
    ensures Entry(0, 0, 7, 0xd76aa478) && Entry(1, 1, 12, 0xe8c7b756)
    ensures Entry(2, 2, 17, 0x242070db) && Entry(3, 3, 22, 0xc1bdceee)
  {
  }

  lemma Entries5To8()
    ensures Entry(4, 4, 7, 0xf57c0faf) && Entry(5, 5, 12, 0x4787c62a)
    ensures Entry(6, 6, 17, 0xa8304613) && Entry(7, 7, 22, 0xfd469501)
  {
  }

  lemma Entries9To12()
    ensures Entry(8, 8, 7, 0x698098d8) && Entry(9, 9, 12, 0x8b44f7af)
    ensures Entry(10, 10, 17, 0xffff5bb1) && Entry(11, 11, 22, 0x895cd7be)
  {
  }

  lemma Entries13To16()
    ensures Entry(12, 12, 7, 0x6b901122) && Entry(13, 13, 12, 0xfd987193)
    ensures Entry(14, 14, 17, 0xa679438e) && Entry(15, 15, 22, 0x49b40821)
  {
  }

  lemma Entries17To20()
    ensures Entry(16, 1, 5, 0xf61e2562) && Entry(17, 6, 9, 0xc040b340)
    ensures Entry(18, 11, 14, 0x265e5a51) && Entry(19, 0, 20, 0xe9b6c7aa)
  {
  }

  lemma Entries21To24()
    ensures Entry(20, 5, 5, 0xd62f105d) && Entry(21, 10, 9, 0x02441453)
    ensures Entry(22, 15, 14, 0xd8a1e681) && Entry(23, 4, 20, 0xe7d3fbc8)
  {
  }

  lemma Entries25To28()
    ensures Entry(24, 9, 5, 0x21e1cde6) && Entry(25, 14, 9, 0xc33707d6)
    ensures Entry(26, 3, 14, 0xf4d50d87) && Entry(27, 8, 20, 0x455a14ed)
  {
  }

  lemma Entries29To32()
    ensures Entry(28, 13, 5, 0xa9e3e905) && Entry(29, 2, 9, 0xfcefa3f8)
    ensures Entry(30, 7, 14, 0x676f02d9) && Entry(31, 12, 20, 0x8d2a4c8a)
  {
  }

  lemma Entries33To36()
    ensures Entry(32, 5, 4, 0xfffa3942) && Entry(33, 8, 11, 0x8771f681)
    ensures Entry(34, 11, 16, 0x6d9d6122) && Entry(35, 14, 23, 0xfde5380c)
  {
  }

  lemma Entries37To40()
    ensures Entry(36, 1, 4, 0xa4beea44) && Entry(37, 4, 11, 0x4bdecfa9)
    ensures Entry(38, 7, 16, 0xf6bb4b60) && Entry(39, 10, 23, 0xbebfbc70)
  {
  }

  lemma Entries41To44()
    ensures Entry(40, 13, 4, 0x289b7ec6) && Entry(41, 0, 11, 0xeaa127fa)
    ensures Entry(42, 3, 16, 0xd4ef3085) && Entry(43, 6, 23, 0x04881d05)
  {
  }

  lemma Entries45To48()
    ensures Entry(44, 9, 4, 0xd9d4d039) && Entry(45, 12, 11, 0xe6db99e5)
    ensures Entry(46, 15, 16, 0x1fa27cf8) && Entry(47, 2, 23, 0xc4ac5665)
  {
  }

  lemma Entries49To52()
    ensures Entry(48, 0, 6, 0xf4292244) && Entry(49, 7, 10, 0x432aff97)
    ensures Entry(50, 14, 15, 0xab9423a7) && Entry(51, 5, 21, 0xfc93a039)
  {
  }

  lemma Entries53To56()
    ensures Entry(52, 12, 6, 0x655b59c3) && Entry(53, 3, 10, 0x8f0ccc92)
    ensures Entry(54, 10, 15, 0xffeff47d) && Entry(55, 1, 21, 0x85845dd1)
  {
  }

  lemma Entries57To60()
    ensures Entry(56, 8, 6, 0x6fa87e4f) && Entry(57, 15, 10, 0xfe2ce6e0)
    ensures Entry(58, 6, 15, 0xa3014314) && Entry(59, 13, 21, 0x4e0811a1)
  {
  }

  lemma Entries61To64()
    ensures Entry(60, 4, 6, 0xf7537e82) && Entry(61, 11, 10, 0xbd3af235)
    ensures Entry(62, 2, 15, 0x2ad7d2bb) && Entry(63, 9, 21, 0xeb86d391)
  {
  }

  /** Round 1: the value of F, and the sum before and after its rotation. */
  predicate Round1(b: Word, c: Word, d: Word, f: Word, sum: Word, s: nat, rotated: Word) {
    0 < s < 32 && F(b, c, d) == f && RotateLeft(sum, s) == rotated
  }

  /** Round 2: the value of G, and the sum before and after its rotation. */
  predicate Round2(b: Word, c: Word, d: Word, f: Word, sum: Word, s: nat, rotated: Word) {
    0 < s < 32 && G(b, c, d) == f && RotateLeft(sum, s) == rotated
  }

  /** Round 3: the value of H, and the sum before and after its rotation. */
  predicate Round3(b: Word, c: Word, d: Word, f: Word, sum: Word, s: nat, rotated: Word) {
    0 < s < 32 && H(b, c, d) == f && RotateLeft(sum, s) == rotated
  }

  /** Round 4: the value of I, and the sum before and after its rotation. */
  predicate Round4(b: Word, c: Word, d: Word, f: Word, sum: Word, s: nat, rotated: Word) {
    0 < s < 32 && I(b, c, d) == f && RotateLeft(sum, s) == rotated
  }

  lemma FourTurns(X: seq<Word>, n: nat)
    requires n <= 60 && |X| == 16
    ensures Operations(INIT, X, n + 1) == Operation(Operations(INIT, X, n), X, n)
    ensures Operations(INIT, X, n + 2) == Operation(Operations(INIT, X, n + 1), X, n + 1)
    ensures Operations(INIT, X, n + 3) == Operation(Operations(INIT, X, n + 2), X, n + 2)
    ensures Operations(INIT, X, n + 4) == Operation(Operations(INIT, X, n + 3), X, n + 3)
  {
    hide Operation;
  }

  /** The bytes of a word, low-order first. */
  function FourBytes(w: Word): (b: seq<Byte>)
    ensures |b| == 4
  {
    [w % 0x100, w / 0x100 % 0x100, w / 0x1_0000 % 0x100, w / 0x100_0000]
  }

  lemma BytesAre(w: Word)
    ensures ByteOf(w, 0) == FourBytes(w)[0] && ByteOf(w, 1) == FourBytes(w)[1]
    ensures ByteOf(w, 2) == FourBytes(w)[2] && ByteOf(w, 3) == FourBytes(w)[3]
  {
    PowersOf256();
  }

  lemma OutputBytes(h: Regs)
    ensures Output(h) == FourBytes(h.a) + FourBytes(h.b) + FourBytes(h.c) + FourBytes(h.d)
  {
    BytesAre(h.a);
    BytesAre(h.b);
    BytesAre(h.c);
    BytesAre(h.d);
    hide ByteOf, FourBytes;
    var all := FourBytes(h.a) + FourBytes(h.b) + FourBytes(h.c) + FourBytes(h.d);
    forall i | 0 <= i < 16
      ensures Output(h)[i] == all[i]
    {
      assert i % 4 == 0 || i % 4 == 1 || i % 4 == 2 || i % 4 == 3;
    }
  }

  /** The bytes of a word make up the word. */
  lemma BackToWord(w: Word)
    ensures var b := FourBytes(w); LittleEndian(b[0], b[1], b[2], b[3]) == w
  {
    var x := w / 0x100;
    var y := x / 0x100;
    assert w == 0x100 * x + w % 0x100 && x == 0x100 * y + x % 0x100 && y == 0x100 * (y / 0x100) + y % 0x100;
    assert y == w / 0x1_0000 && y / 0x100 == w / 0x100_0000;
  }

  lemma WordAt(p: seq<Byte>, i: nat)
    requires |p| == 64 && i < 16
    ensures WordsOf(p)[i] == LittleEndian(p[4 * i], p[4 * i + 1], p[4 * i + 2], p[4 * i + 3])
  {
    hide LittleEndian;
  }

  /** A block that holds no more than one word and the length. */
  function ShortWords(w: Word, length: Word): (X: seq<Word>)
    ensures |X| == 16
  {
    [w, 0, 0, 0, 0, 0, 0, 0, 0, 0, 0, 0, 0, 0, length, 0]
  }

  lemma ShortWordAt(w: Word, length: Word, i: nat)
    requires i < 16
    ensures ShortWords(w, length)[i] == if i == 0 then w else if i == 14 then length else 0
  {
  }

  /** The block of a message of less than four bytes: its first word is w. */
  lemma ShortBlock(m: seq<Byte>, w: Word)
    requires |m| < 4 && FourBytes(w) == (m + [0x80] + [0, 0, 0])[..4]
    ensures |Padded(m)| == 64
    ensures WordsOf(Padded(m)) == ShortWords(w, 8 * |m|)
  {
    PaddedBytes(m);
    hide Padded, FourBytes, WordsOf, ShortWords;
    forall i | 0 <= i < 16
      ensures WordsOf(Padded(m))[i] == ShortWords(w, 8 * |m|)[i]
    {
      WordOfShort(m, Padded(m), w, i);
      ShortWordAt(w, 8 * |m|, i);
    }
  }

  lemma WordOfShort(m: seq<Byte>, p: seq<Byte>, w: Word, i: nat)
    requires |p| == 64 && |m| < 4 && i < 16 && p[..4] == FourBytes(w) && p[56] == 8 * |m|
    requires forall k :: 4 <= k < 64 && k != 56 ==> p[k] == 0
    ensures WordsOf(p)[i] == if i == 0 then w else if i == 14 then 8 * |m| else 0
  {
    WordAt(p, i);
    BackToWord(w);
    hide WordsOf, FourBytes;
    if i == 0 {
      assert p[0] == p[..4][0] && p[1] == p[..4][1] && p[2] == p[..4][2] && p[3] == p[..4][3];
    } else if i != 14 {
      assert p[4 * i] == 0 && p[4 * i + 1] == 0 && p[4 * i + 2] == 0 && p[4 * i + 3] == 0;
    }
  }

  lemma PaddedBytes(m: seq<Byte>)
    requires |m| < 4
    ensures var p := Padded(m);
      && |p| == 64 && p[..4] == (m + [0x80] + [0, 0, 0])[..4] && p[56] == 8 * |m|
      && forall i :: 4 <= i < 64 && i != 56 ==> p[i] == 0
  {
    LengthOf(|m|);
    hide LengthBytes;
  }

  lemma LengthOf(n: nat)
    requires n < 4
    ensures LengthBytes(n)[0] == 8 * n && forall i :: 1 <= i < 8 ==> LengthBytes(n)[i] == 0
  {
    PowersOf256();
    hide Power256;
    forall i | 1 <= i < 8
      ensures 8 * n / Power256(i) == 0
    {
      assert i == 1 || i == 2 || i == 3 || i == 4 || i == 5 || i == 6 || i == 7;
    }
  }

  // ----------------------------------------------------------------------------- the empty message

  const EMPTY: seq<Word> := ShortWords(0x00000080, 0)

  lemma EmptyBits1To8()
    ensures Round1(0xefcdab89, 0x98badcfe, 0x10325476, 0x98badcfe, 0xd76aa4f7, 7, 0xb5527beb)
    ensures Round1(0xa5202774, 0xefcdab89, 0x98badcfe, 0xbd9afb8a, 0xb6950756, 12, 0x50756b69)
    ensures Round1(0xf59592dd, 0xa5202774, 0xefcdab89, 0xaf482b54, 0x6c23792d, 17, 0xf25ad846)
    ensures Round1(0xe7f06b23, 0xf59592dd, 0xa5202774, 0xe5900655, 0x971b80cc, 22, 0x3325c6e0)
    ensures Round1(0x1b163203, 0xe7f06b23, 0xf59592dd, 0xe791a2df, 0x822dda02, 7, 0x16ed0141)
    ensures Round1(0x32033344, 0x1b163203, 0xe7f06b23, 0xd7f27a23, 0x150fd32a, 12, 0xfd32a150)
    ensures Round1(0x2f35d494, 0x32033344, 0x1b163203, 0x32033207, 0xc223e33d, 17, 0xc67b8447)
    ensures Round1(0xf5b158db, 0x2f35d494, 0x32033344, 0x27337394, 0x3f903a98, 22, 0xa60fe40e)
  {
  }

  lemma EmptyBits9To16()
    ensures Round1(0x9bc13ce9, 0xf5b158db, 0x2f35d494, 0xb5b5d8dd, 0x5139a4f9, 7, 0x9cd27ca8)
    ensures Round1(0x3893b991, 0x9bc13ce9, 0xf5b158db, 0xdda178cb, 0x981c450e, 12, 0xc450e981)
    ensures Round1(0xfce4a312, 0x3893b991, 0x9bc13ce9, 0x3b81bdf9, 0x31327285, 17, 0xe50a6264)
    ensures Round1(0xe1ef0576, 0xfce4a312, 0x3893b991, 0xf8f4b993, 0x1e12ce3a, 22, 0x8e8784b3)
    ensures Round1(0x70768a29, 0xe1ef0576, 0xfce4a312, 0xece62132, 0x9109ebe5, 7, 0x84f5f2c8)
    ensures Round1(0xf56c7cf1, 0x70768a29, 0xe1ef0576, 0x70e70927, 0x6b641dcc, 12, 0x41dcc6b6)
    ensures Round1(0x374943a7, 0xf56c7cf1, 0x70768a29, 0x757ec8a9, 0xfde711ad, 17, 0x235bfbce)
    ensures Round1(0x5aa53f75, 0x374943a7, 0xf56c7cf1, 0xb74943a5, 0x7173d5ef, 22, 0x7bdc5cf5)
  {
  }

  lemma EmptyBits17To24()
    ensures Round2(0xd6819c6a, 0x5aa53f75, 0x374943a7, 0x5ea53c72, 0x4a2fdec5, 5, 0x45fbd8a9)
    ensures Round2(0x1c7d7513, 0xd6819c6a, 0x5aa53f75, 0x9c25b51b, 0x93afac02, 9, 0x5f580527)
    ensures Round2(0x7bd57a3a, 0x1c7d7513, 0xd6819c6a, 0x5afd793b, 0xdc011301, 14, 0x44c07700)
    ensures Round2(0xc095f13a, 0x7bd57a3a, 0x1c7d7513, 0x63957b3a, 0x23cddfce, 20, 0xfce23cdd)
    ensures Round2(0xbd782e17, 0xc095f13a, 0x7bd57a3a, 0xb950ab12, 0xabfd3082, 5, 0x7fa61055)
    ensures Round2(0x3d1e3e6c, 0xbd782e17, 0xc095f13a, 0x3d7c3e2d, 0xbb95ccba, 9, 0x2b997577)
    ensures Round2(0x68b7b3e3, 0x3d1e3e6c, 0xbd782e17, 0x2836326b, 0xc16e0a26, 14, 0x8289b05b)
    ensures Round2(0xeb41643e, 0x68b7b3e3, 0x3d1e3e6c, 0x69a1a5af, 0x0eedcf8e, 20, 0xf8e0eedc)
  {
  }

  lemma EmptyBits25To32()
    ensures Round2(0xe422531a, 0xeb41643e, 0x68b7b3e3, 0xe362571e, 0x42626370, 5, 0x4c4c6e08)
    ensures Round2(0x306ec122, 0xe422531a, 0xeb41643e, 0x24625322, 0x50510edb, 9, 0xa21db6a0)
    ensures Round2(0xd28c77c2, 0x306ec122, 0xe422531a, 0xd04cd322, 0xb06344e7, 14, 0xd139ec18)
    ensures Round2(0xa3c663da, 0xd28c77c2, 0x306ec122, 0xe2c677c2, 0x0c42dfc9, 20, 0xfc90c42d)
    ensures Round2(0xa0572807, 0xa3c663da, 0xd28c77c2, 0xa146201a, 0x7b98ca41, 5, 0x7319482f)
    ensures Round2(0x13707036, 0xa0572807, 0xa3c663da, 0x03516817, 0xd2cd83d1, 9, 0x9b07a3a5)
    ensures Round2(0xae7813db, 0x13707036, 0xa0572807, 0xb3705033, 0xbea5b6e6, 14, 0x6db9afa9)
    ensures Round2(0x1c31c384, 0xae7813db, 0x13707036, 0xbc3843cd, 0xe9b9b85e, 20, 0x85ee9b9b)
  {
  }

  lemma EmptyBits33To40()
    ensures Round3(0xa2205f1f, 0x1c31c384, 0xae7813db, 0x10698f40, 0x23d438b8, 4, 0x3d438b82)
    ensures Round3(0xdf63eaa1, 0xa2205f1f, 0x1c31c384, 0x6172763a, 0x975c8096, 11, 0xe404b4ba)
    ensures Round3(0xc3689f5b, 0xdf63eaa1, 0xa2205f1f, 0xbe2b2ae5, 0x47fa4f8b, 16, 0x4f8b47fa)
    ensures Round3(0x12f3e755, 0xc3689f5b, 0xdf63eaa1, 0x0ef892af, 0xaefe29da, 23, 0xed577f14)
    ensures Round3(0x004b6669, 0x12f3e755, 0xc3689f5b, 0xd1d01e67, 0x55f2f34c, 4, 0x5f2f34c5)
    ensures Round3(0x5f7a9b2e, 0x004b6669, 0x12f3e755, 0x4dc21a12, 0x5d098916, 11, 0x4c48b2e8)
    ensures Round3(0xabc34e16, 0x5f7a9b2e, 0x004b6669, 0xf4f2b351, 0xfea1e606, 16, 0xe606fea1)
    ensures Round3(0x91ca4cb7, 0xabc34e16, 0x5f7a9b2e, 0x6573998f, 0x247ebc68, 23, 0x34123f5e)
  {
  }

  lemma EmptyBits41To48()
    ensures Round3(0xc5dc8c15, 0x91ca4cb7, 0xabc34e16, 0xffd58eb4, 0x87eba8a8, 4, 0x7eba8a88)
    ensures Round3(0x4497169d, 0xc5dc8c15, 0x91ca4cb7, 0x1081d63f, 0xa6e64ccf, 11, 0x32667d37)
    ensures Round3(0x76fd93d4, 0x4497169d, 0xc5dc8c15, 0xf7b6095c, 0x5e6f8698, 16, 0x86985e6f)
    ensures Round3(0xfd95f243, 0x76fd93d4, 0x4497169d, 0xcfff770a, 0x9a642024, 23, 0x124d3210)
    ensures Round3(0x0fe32453, 0xfd95f243, 0x76fd93d4, 0x848b45c4, 0xa2f72c9a, 4, 0x2f72c9aa)
    ensures Round3(0x3f55edfd, 0x0fe32453, 0xfd95f243, 0xcd233bed, 0x2afc69a6, 11, 0xe34d3157)
    ensures Round3(0x22a31f54, 0x3f55edfd, 0x0fe32453, 0x1215d6fa, 0x2f4e4635, 16, 0x46352f4e)
    ensures Round3(0x68d84ea2, 0x22a31f54, 0x3f55edfd, 0x752ebc0b, 0x49be36c3, 23, 0x61a4df1b)
  {
  }

  lemma EmptyBits49To56()
    ensures Round4(0xca7d2dbd, 0x68d84ea2, 0x22a31f54, 0xb7a5a31d, 0xeb24b3de, 6, 0xc92cf7ba)
    ensures Round4(0x93aa2577, 0xca7d2dbd, 0x68d84ea2, 0x5dd298c2, 0xc3a0b7ad, 10, 0x82deb70e)
    ensures Round4(0x1688dc85, 0x93aa2577, 0xca7d2dbd, 0xa420fbb0, 0xb88d6df9, 15, 0xb6fcdc46)
    ensures Round4(0xcd85b8cb, 0x1688dc85, 0x93aa2577, 0xfb5d264e, 0xc26df444, 21, 0x88984dbe)
    ensures Round4(0x561e0689, 0xcd85b8cb, 0x1688dc85, 0x32fa9f30, 0x2c001e6a, 6, 0x00079a8b)
    ensures Round4(0x5625a114, 0x561e0689, 0xcd85b8cb, 0x2061e1bd, 0xc5f78ad4, 10, 0xde2b5317)
    ensures Round4(0x3450f42b, 0x5625a114, 0x561e0689, 0xebd45c6b, 0xb94a09b3, 15, 0x04d9dca5)
    ensures Round4(0x392ad0d0, 0x3450f42b, 0x5625a114, 0x8daa2ad0, 0x694c8f2a, 21, 0xe54d2991)
  {
  }

  lemma EmptyBits57To64()
    ensures Round4(0x1e77fa61, 0x392ad0d0, 0x3450f42b, 0xe6d52b25, 0xaca34a88, 6, 0x28d2a22b)
    ensures Round4(0x474a9c8c, 0x1e77fa61, 0x392ad0d0, 0xd9a845ce, 0x0c2620d9, 10, 0x98836430)
    ensures Round4(0xdfce00bc, 0x474a9c8c, 0x1e77fa61, 0xb8849932, 0x94b0ad16, 15, 0x568b4a58)
    ensures Round4(0x36594b14, 0xdfce00bc, 0x474a9c8c, 0x61336bcb, 0xcdb377cd, 21, 0xf9b9b66e)
    ensures Round4(0x30130182, 0x36594b14, 0xdfce00bc, 0x066ab4d7, 0x4508cfe5, 6, 0x4233f951)
    ensures Round4(0x7246fad3, 0x30130182, 0x36594b14, 0xcbf5ff79, 0x68fef26a, 10, 0xfbc9a9a3)
    ensures Round4(0x6e10a476, 0x7246fad3, 0x30130182, 0x9dba04ac, 0xfeeb227b, 15, 0x913dff75)
    ensures Round4(0xff4ea3eb, 0x6e10a476, 0x7246fad3, 0x91ef0399, 0xad88d8ac, 21, 0x1595b11b)
  {
  }

  lemma Empty1To4()
    ensures Operations(INIT, EMPTY, 4) == Regs(0xa5202774, 0x1b163203, 0xe7f06b23, 0xf59592dd)
  {
    hide Operations, S, T, K, F, G, H, I, RotateLeft;
    NoOperation(INIT, EMPTY);
    Entries1To4();
    EmptyBits1To8();
    FourTurns(EMPTY, 0);
  }

  lemma Empty5To8()
    ensures Operations(INIT, EMPTY, 8) == Regs(0x32033344, 0x9bc13ce9, 0xf5b158db, 0x2f35d494)
  {
    hide Operations, S, T, K, F, G, H, I, RotateLeft;
    Empty1To4();
    Entries5To8();
    EmptyBits1To8();
    FourTurns(EMPTY, 4);
  }

  lemma Empty9To12()
    ensures Operations(INIT, EMPTY, 12) == Regs(0x3893b991, 0x70768a29, 0xe1ef0576, 0xfce4a312)
  {
    hide Operations, S, T, K, F, G, H, I, RotateLeft;
    Empty5To8();
    Entries9To12();
    EmptyBits9To16();
    FourTurns(EMPTY, 8);
  }

  lemma Empty13To16()
    ensures Operations(INIT, EMPTY, 16) == Regs(0xf56c7cf1, 0xd6819c6a, 0x5aa53f75, 0x374943a7)
  {
    hide Operations, S, T, K, F, G, H, I, RotateLeft;
    Empty9To12();
    Entries13To16();
    EmptyBits9To16();
    FourTurns(EMPTY, 12);
  }

  lemma Empty17To20()
    ensures Operations(INIT, EMPTY, 20) == Regs(0x1c7d7513, 0xbd782e17, 0xc095f13a, 0x7bd57a3a)
  {
    hide Operations, S, T, K, F, G, H, I, RotateLeft;
    Empty13To16();
    Entries17To20();
    EmptyBits17To24();
    FourTurns(EMPTY, 16);
  }

  lemma Empty21To24()
    ensures Operations(INIT, EMPTY, 24) == Regs(0x3d1e3e6c, 0xe422531a, 0xeb41643e, 0x68b7b3e3)
  {
    hide Operations, S, T, K, F, G, H, I, RotateLeft;
    Empty17To20();
    Entries21To24();
    EmptyBits17To24();
    FourTurns(EMPTY, 20);
  }

  lemma Empty25To28()
    ensures Operations(INIT, EMPTY, 28) == Regs(0x306ec122, 0xa0572807, 0xa3c663da, 0xd28c77c2)
  {
    hide Operations, S, T, K, F, G, H, I, RotateLeft;
    Empty21To24();
    Entries25To28();
    EmptyBits25To32();
    FourTurns(EMPTY, 24);
  }

  lemma Empty29To32()
    ensures Operations(INIT, EMPTY, 32) == Regs(0x13707036, 0xa2205f1f, 0x1c31c384, 0xae7813db)
  {
    hide Operations, S, T, K, F, G, H, I, RotateLeft;
    Empty25To28();
    Entries29To32();
    EmptyBits25To32();
    FourTurns(EMPTY, 28);
  }

  lemma Empty33To36()
    ensures Operations(INIT, EMPTY, 36) == Regs(0xdf63eaa1, 0x004b6669, 0x12f3e755, 0xc3689f5b)
  {
    hide Operations, S, T, K, F, G, H, I, RotateLeft;
    Empty29To32();
    Entries33To36();
    EmptyBits33To40();
    FourTurns(EMPTY, 32);
  }

  lemma Empty37To40()
    ensures Operations(INIT, EMPTY, 40) == Regs(0x5f7a9b2e, 0xc5dc8c15, 0x91ca4cb7, 0xabc34e16)
  {
    hide Operations, S, T, K, F, G, H, I, RotateLeft;
    Empty33To36();
    Entries37To40();
    EmptyBits33To40();
    FourTurns(EMPTY, 36);
  }

  lemma Empty41To44()
    ensures Operations(INIT, EMPTY, 44) == Regs(0x4497169d, 0x0fe32453, 0xfd95f243, 0x76fd93d4)
  {
    hide Operations, S, T, K, F, G, H, I, RotateLeft;
    Empty37To40();
    Entries41To44();
    EmptyBits41To48();
    FourTurns(EMPTY, 40);
  }

  lemma Empty45To48()
    ensures Operations(INIT, EMPTY, 48) == Regs(0x3f55edfd, 0xca7d2dbd, 0x68d84ea2, 0x22a31f54)
  {
    hide Operations, S, T, K, F, G, H, I, RotateLeft;
    Empty41To44();
    Entries45To48();
    EmptyBits41To48();
    FourTurns(EMPTY, 44);
  }

  lemma Empty49To52()
    ensures Operations(INIT, EMPTY, 52) == Regs(0x93aa2577, 0x561e0689, 0xcd85b8cb, 0x1688dc85)
  {
    hide Operations, S, T, K, F, G, H, I, RotateLeft;
    Empty45To48();
    Entries49To52();
    EmptyBits49To56();
    FourTurns(EMPTY, 48);
  }

  lemma Empty53To56()
    ensures Operations(INIT, EMPTY, 56) == Regs(0x5625a114, 0x1e77fa61, 0x392ad0d0, 0x3450f42b)
  {
    hide Operations, S, T, K, F, G, H, I, RotateLeft;
    Empty49To52();
    Entries53To56();
    EmptyBits49To56();
    FourTurns(EMPTY, 52);
  }

  lemma Empty57To60()
    ensures Operations(INIT, EMPTY, 60) == Regs(0x474a9c8c, 0x30130182, 0x36594b14, 0xdfce00bc)
  {
    hide Operations, S, T, K, F, G, H, I, RotateLeft;
    Empty53To56();
    Entries57To60();
    EmptyBits57To64();
    FourTurns(EMPTY, 56);
  }

  lemma Empty61To64()
    ensures Operations(INIT, EMPTY, 64) == Regs(0x7246fad3, 0x14e45506, 0xff4ea3eb, 0x6e10a476)
  {
    hide Operations, S, T, K, F, G, H, I, RotateLeft;
    Empty57To60();
    Entries61To64();
    EmptyBits57To64();
    FourTurns(EMPTY, 60);
  }

  lemma EmptyCompressed()
    ensures Compress(INIT, EMPTY) == Regs(0xd98c1dd4, 0x04b2008f, 0x980980e9, 0x7e42f8ec)
  {
    Empty61To64();
    hide Operations;
  }

  lemma EmptyBytes()
    ensures FourBytes(0xd98c1dd4) == [0xd4, 0x1d, 0x8c, 0xd9]
    ensures FourBytes(0x04b2008f) == [0x8f, 0x00, 0xb2, 0x04]
    ensures FourBytes(0x980980e9) == [0xe9, 0x80, 0x09, 0x98]
    ensures FourBytes(0x7e42f8ec) == [0xec, 0xf8, 0x42, 0x7e]
  {
  }

  lemma EmptyFirst()
    ensures FourBytes(0x00000080) == ([] + [0x80] + [0, 0, 0])[..4]
  {
  }

  /** MD5 ("") = d41d8cd98f00b204e9800998ecf8427e */
  lemma EmptyDigest()
    ensures Md5([])
         == [0xd4, 0x1d, 0x8c, 0xd9, 0x8f, 0x00, 0xb2, 0x04, 0xe9, 0x80, 0x09, 0x98, 0xec, 0xf8, 0x42, 0x7e]
  {
    EmptyBytes();
    EmptyFirst();
    hide Compress, FourBytes, Padded, WordsOf, Blocks, Output;
    ShortBlock([], 0x00000080);
    EmptyCompressed();
    BlocksShort(INIT, Padded([]));
    OutputBytes(Regs(0xd98c1dd4, 0x04b2008f, 0x980980e9, 0x7e42f8ec));
  }

  // ----------------------------------------------------------------------------------------- "abc"

  const ABC: seq<Word> := ShortWords(0x80636261, 24)

  lemma AbcBits1To8()
    ensures Round1(0xefcdab89, 0x98badcfe, 0x10325476, 0x98badcfe, 0x57ce06d8, 7, 0xe7036c2b)
    ensures Round1(0xd6d117b4, 0xefcdab89, 0x98badcfe, 0xceebcbca, 0xc7e5d796, 12, 0x5d796c7e)
    ensures Round1(0x344a8432, 0xd6d117b4, 0xefcdab89, 0xdfc52fb9, 0x9ca07d92, 17, 0xfb253940)
    ensures Round1(0x2f6fbd72, 0x344a8432, 0xd6d117b4, 0xf4da86b6, 0xa666012d, 22, 0x4b699980)
    ensures Round1(0x7ad956f2, 0x2f6fbd72, 0x344a8432, 0x2e4b9472, 0xfa98bbd5, 7, 0x4c5deafd)
    ensures Round1(0xc73741ef, 0x7ad956f2, 0x2f6fbd72, 0x6a59fcf2, 0xe62c474e, 12, 0xc474ee62)
    ensures Round1(0x8bac3051, 0xc73741ef, 0x7ad956f2, 0xf37546e3, 0xcb154a68, 17, 0x94d1962a)
    ensures Round1(0x207dc67b, 0x8bac3051, 0xc73741ef, 0xc72e01d5, 0x3f4dedc8, 22, 0x720fd37b)
  {
  }

  lemma AbcBits9To16()
    ensures Round1(0x928d99f6, 0x207dc67b, 0x8bac3051, 0x092da073, 0x39e57b3a, 7, 0xf2bd9d1c)
    ensures Round1(0x854b3712, 0x928d99f6, 0x207dc67b, 0xa03dd17b, 0xb72ef97b, 12, 0xef97bb72)
    ensures Round1(0x74e2f284, 0x854b3712, 0x928d99f6, 0x864f3b72, 0xa6cc5d9e, 17, 0xbb3d4d98)
    ensures Round1(0x3020401c, 0x74e2f284, 0x854b3712, 0xb56b7706, 0xd155e8ba, 22, 0x2eb4557a)
    ensures Round1(0x5ed49596, 0x3020401c, 0x74e2f284, 0x30226214, 0x20fdaa48, 7, 0x7ed52410)
    ensures Round1(0xdda9b9a6, 0x5ed49596, 0x3020401c, 0x7c80d19e, 0xeefc35b5, 12, 0xc35b5eef)
    ensures Round1(0xa1051895, 0xdda9b9a6, 0x5ed49596, 0xdfd19d86, 0xb66b2148, 17, 0x42916cd6)
    ensures Round1(0xe396856b, 0xa1051895, 0xdda9b9a6, 0xbd2d3885, 0x65b5d63c, 22, 0x8f196d75)
  {
  }

  lemma AbcBits17To24()
    ensures Round2(0x72aff2e0, 0xe396856b, 0xa1051895, 0x629795ea, 0x365f74f2, 5, 0xcbee9e46)
    ensures Round2(0x3e9e9126, 0x72aff2e0, 0xe396856b, 0x32bff3a2, 0x9405bf77, 9, 0x0b7eef28)
    ensures Round2(0x4a1d804e, 0x3e9e9126, 0x72aff2e0, 0x4e1d8146, 0x58126102, 14, 0x98409604)
    ensures Round2(0xe25e1652, 0x4a1d804e, 0x3e9e9126, 0x621f104a, 0x3ee92d35, 20, 0xd353ee92)
    ensures Round2(0xb5b204e4, 0xe25e1652, 0x4a1d804e, 0xa0521654, 0xb51fb7d7, 5, 0xa3f6faf6)
    ensures Round2(0x59a8ffda, 0xb5b204e4, 0xe25e1652, 0x55a816f6, 0xa209ab97, 9, 0x13572f44)
    ensures Round2(0x6d002f1e, 0x59a8ffda, 0xb5b204e4, 0x6d08ff1e, 0x2808fbf1, 14, 0x3efc4a02)
    ensures Round2(0xabfc7920, 0x6d002f1e, 0x59a8ffda, 0x2da87904, 0xcb2e79b0, 20, 0x9b0cb2e7)
  {
  }

  lemma AbcBits25To32()
    ensures Round2(0x47092c07, 0xabfc7920, 0x6d002f1e, 0xc7fc7c26, 0x438749e6, 5, 0x70e93cc8)
    ensures Round2(0xb7f268cf, 0x47092c07, 0xabfc7920, 0xe7f16c07, 0x1828a313, 9, 0x51462630)
    ensures Round2(0x09388eff, 0xb7f268cf, 0x47092c07, 0xb1fa4ccf, 0x52cbd376, 14, 0xf4dd94b2)
    ensures Round2(0xfe1623b1, 0x09388eff, 0xb7f268cf, 0xbe1aa6b1, 0x4a7de7a5, 20, 0x7a54a7de)
    ensures Round2(0x786acb8f, 0xfe1623b1, 0x09388eff, 0xfe2eab8f, 0x6004fd63, 5, 0x009fac6c)
    ensures Round2(0x790a77fb, 0x786acb8f, 0xfe1623b1, 0x786aebbf, 0x7e931eb6, 9, 0x263d6cfd)
    ensures Round2(0x9f47e4f8, 0x790a77fb, 0x786acb8f, 0x1942f4f8, 0x7ec81b82, 14, 0x06e09fb2)
    ensures Round2(0xa62884aa, 0x9f47e4f8, 0x790a77fb, 0xa64d84aa, 0xabe29cc3, 20, 0xcc3abe29)
  {
  }

  lemma AbcBits33To40()
    ensures Round3(0x726342d3, 0xa62884aa, 0x9f47e4f8, 0x4b0c2281, 0xc410d3be, 4, 0x410d3bec)
    ensures Round3(0xb3707ebf, 0x726342d3, 0xa62884aa, 0x673bb8c6, 0x8df5943f, 11, 0xaca1fc6f)
    ensures Round3(0x60127b2e, 0xb3707ebf, 0x726342d3, 0xa1014742, 0xb4c72d0e, 16, 0x2d0eb4c7)
    ensures Round3(0x8d212ff5, 0x60127b2e, 0xb3707ebf, 0x5e432a64, 0xce8ba55b, 23, 0xade745d2)
    ensures Round3(0x3b0875c7, 0x8d212ff5, 0x60127b2e, 0xd63b211c, 0x2e6a8a1f, 4, 0xe6a8a1f2)
    ensures Round3(0x21b117b9, 0x3b0875c7, 0x8d212ff5, 0x97984d8b, 0x43899862, 11, 0x4cc3121c)
    ensures Round3(0x6e7429d5, 0x21b117b9, 0x3b0875c7, 0x74cd4bab, 0xf8a9c700, 16, 0xc700f8a9)
    ensures Round3(0x3575227e, 0x6e7429d5, 0x21b117b9, 0x7ab01c12, 0x74784e49, 23, 0x24ba3c27)
  {
  }

  lemma AbcBits41To48()
    ensures Round3(0x5a2f5ea5, 0x3575227e, 0x6e7429d5, 0x012e550e, 0x4b7aeb8d, 4, 0xb7aeb8d4)
    ensures Round3(0x11de1779, 0x5a2f5ea5, 0x3575227e, 0x7e846ba2, 0x57fd1fd2, 11, 0xe8fe92bf)
    ensures Round3(0xfadcaa38, 0x11de1779, 0x5a2f5ea5, 0xb12de3e4, 0xbb9236e7, 16, 0x36e7bb92)
    ensures Round3(0x31c465ca, 0xfadcaa38, 0x11de1779, 0xdac6d88b, 0x397e5435, 23, 0x1a9cbf2a)
    ensures Round3(0x4c6124f4, 0x31c465ca, 0xfadcaa38, 0x8779eb06, 0x732cd2b8, 4, 0x32cd2b87)
    ensures Round3(0x7f2e507b, 0x4c6124f4, 0x31c465ca, 0x028b1145, 0xe4435562, 11, 0x1aab1722)
    ensures Round3(0x99d9679d, 0x7f2e507b, 0x4c6124f4, 0xaa961312, 0xfbfcf5d4, 16, 0xf5d4fbfc)
    ensures Round3(0x8fae6399, 0x99d9679d, 0x7f2e507b, 0x6959547f, 0x7a66cfd8, 23, 0xec3d3367)
  {
  }

  lemma AbcBits49To56()
    ensures Round4(0x7beb9700, 0x8fae6399, 0x99d9679d, 0xf041fcfb, 0xe3fcd21b, 6, 0xff3486f8)
    ensures Round4(0x7b201df8, 0x7beb9700, 0x8fae6399, 0x009a0afe, 0xdd9e7232, 10, 0x79c8cb76)
    ensures Round4(0xf4e8e96e, 0x7b201df8, 0x7beb9700, 0x8fdcf407, 0xcb1f7b5f, 15, 0xbdafe58f)
    ensures Round4(0xb298cefd, 0xf4e8e96e, 0x7b201df8, 0x42370791, 0xbab63eca, 21, 0xd95756c7)
    ensures Round4(0x8bf025c4, 0xb298cefd, 0xf4e8e96e, 0x396ff928, 0x19eb70e3, 6, 0x7adc38c6)
    ensures Round4(0x06cc5e8a, 0x8bf025c4, 0xb298cefd, 0xc41f5a4e, 0x4815104e, 10, 0x54413920)
    ensures Round4(0x5b0d97aa, 0x06cc5e8a, 0x8bf025c4, 0x79c38131, 0x2c4c44ab, 15, 0x22559626)
    ensures Round4(0x7d632dd0, 0x5b0d97aa, 0x06cc5e8a, 0xa67e3a5f, 0xb7f2bdf4, 21, 0xbe96fe57)
  {
  }

  lemma AbcBits57To64()
    ensures Round4(0x3bfa2c27, 0x7d632dd0, 0x5b0d97aa, 0xc29941a7, 0x390e1e80, 6, 0x4387a00e)
    ensures Round4(0x7f81cc35, 0x3bfa2c27, 0x7d632dd0, 0xc467f218, 0x1da270a2, 10, 0x89c28876)
    ensures Round4(0x094454ab, 0x7f81cc35, 0x3bfa2c27, 0xb2c41bce, 0xd3288cb2, 15, 0x46596994)
    ensures Round4(0x4f9dbe3f, 0x094454ab, 0x7f81cc35, 0xc6bbeb54, 0x50be291c, 21, 0x238a17c5)
    ensures Round4(0x7327d604, 0x4f9dbe3f, 0x094454ab, 0xb822416b, 0x2ef78c22, 6, 0xbde3088b)
    ensures Round4(0x310ade8f, 0x7327d604, 0x4f9dbe3f, 0xc24d09cb, 0x88cc50ab, 10, 0x3142ae23)
    ensures Round4(0x624d8cb2, 0x310ade8f, 0x7327d604, 0xdfd77374, 0x5a4d046e, 15, 0x82372d26)
    ensures Round4(0xe484b9d8, 0x624d8cb2, 0x310ade8f, 0x8cb8354a, 0xeb66dedf, 21, 0xdbfd6cdb)
  {
  }

  lemma Abc1To4()
    ensures Operations(INIT, ABC, 4) == Regs(0xd6d117b4, 0x7ad956f2, 0x2f6fbd72, 0x344a8432)
  {
    hide Operations, S, T, K, F, G, H, I, RotateLeft;
    NoOperation(INIT, ABC);
    Entries1To4();
    AbcBits1To8();
    FourTurns(ABC, 0);
  }

  lemma Abc5To8()
    ensures Operations(INIT, ABC, 8) == Regs(0xc73741ef, 0x928d99f6, 0x207dc67b, 0x8bac3051)
  {
    hide Operations, S, T, K, F, G, H, I, RotateLeft;
    Abc1To4();
    Entries5To8();
    AbcBits1To8();
    FourTurns(ABC, 4);
  }

  lemma Abc9To12()
    ensures Operations(INIT, ABC, 12) == Regs(0x854b3712, 0x5ed49596, 0x3020401c, 0x74e2f284)
  {
    hide Operations, S, T, K, F, G, H, I, RotateLeft;
    Abc5To8();
    Entries9To12();
    AbcBits9To16();
    FourTurns(ABC, 8);
  }

  lemma Abc13To16()
    ensures Operations(INIT, ABC, 16) == Regs(0xdda9b9a6, 0x72aff2e0, 0xe396856b, 0xa1051895)
  {
    hide Operations, S, T, K, F, G, H, I, RotateLeft;
    Abc9To12();
    Entries13To16();
    AbcBits9To16();
    FourTurns(ABC, 12);
  }

  lemma Abc17To20()
    ensures Operations(INIT, ABC, 20) == Regs(0x3e9e9126, 0xb5b204e4, 0xe25e1652, 0x4a1d804e)
  {
    hide Operations, S, T, K, F, G, H, I, RotateLeft;
    Abc13To16();
    Entries17To20();
    AbcBits17To24();
    FourTurns(ABC, 16);
  }

  lemma Abc21To24()
    ensures Operations(INIT, ABC, 24) == Regs(0x59a8ffda, 0x47092c07, 0xabfc7920, 0x6d002f1e)
  {
    hide Operations, S, T, K, F, G, H, I, RotateLeft;
    Abc17To20();
    Entries21To24();
    AbcBits17To24();
    FourTurns(ABC, 20);
  }

  lemma Abc25To28()
    ensures Operations(INIT, ABC, 28) == Regs(0xb7f268cf, 0x786acb8f, 0xfe1623b1, 0x09388eff)
  {
    hide Operations, S, T, K, F, G, H, I, RotateLeft;
    Abc21To24();
    Entries25To28();
    AbcBits25To32();
    FourTurns(ABC, 24);
  }

  lemma Abc29To32()
    ensures Operations(INIT, ABC, 32) == Regs(0x790a77fb, 0x726342d3, 0xa62884aa, 0x9f47e4f8)
  {
    hide Operations, S, T, K, F, G, H, I, RotateLeft;
    Abc25To28();
    Entries29To32();
    AbcBits25To32();
    FourTurns(ABC, 28);
  }

  lemma Abc33To36()
    ensures Operations(INIT, ABC, 36) == Regs(0xb3707ebf, 0x3b0875c7, 0x8d212ff5, 0x60127b2e)
  {
    hide Operations, S, T, K, F, G, H, I, RotateLeft;
    Abc29To32();
    Entries33To36();
    AbcBits33To40();
    FourTurns(ABC, 32);
  }

  lemma Abc37To40()
    ensures Operations(INIT, ABC, 40) == Regs(0x21b117b9, 0x5a2f5ea5, 0x3575227e, 0x6e7429d5)
  {
    hide Operations, S, T, K, F, G, H, I, RotateLeft;
    Abc33To36();
    Entries37To40();
    AbcBits33To40();
    FourTurns(ABC, 36);
  }

  lemma Abc41To44()
    ensures Operations(INIT, ABC, 44) == Regs(0x11de1779, 0x4c6124f4, 0x31c465ca, 0xfadcaa38)
  {
    hide Operations, S, T, K, F, G, H, I, RotateLeft;
    Abc37To40();
    Entries41To44();
    AbcBits41To48();
    FourTurns(ABC, 40);
  }

  lemma Abc45To48()
    ensures Operations(INIT, ABC, 48) == Regs(0x7f2e507b, 0x7beb9700, 0x8fae6399, 0x99d9679d)
  {
    hide Operations, S, T, K, F, G, H, I, RotateLeft;
    Abc41To44();
    Entries45To48();
    AbcBits41To48();
    FourTurns(ABC, 44);
  }

  lemma Abc49To52()
    ensures Operations(INIT, ABC, 52) == Regs(0x7b201df8, 0x8bf025c4, 0xb298cefd, 0xf4e8e96e)
  {
    hide Operations, S, T, K, F, G, H, I, RotateLeft;
    Abc45To48();
    Entries49To52();
    AbcBits49To56();
    FourTurns(ABC, 48);
  }

  lemma Abc53To56()
    ensures Operations(INIT, ABC, 56) == Regs(0x06cc5e8a, 0x3bfa2c27, 0x7d632dd0, 0x5b0d97aa)
  {
    hide Operations, S, T, K, F, G, H, I, RotateLeft;
    Abc49To52();
    Entries53To56();
    AbcBits49To56();
    FourTurns(ABC, 52);
  }

  lemma Abc57To60()
    ensures Operations(INIT, ABC, 60) == Regs(0x7f81cc35, 0x7327d604, 0x4f9dbe3f, 0x094454ab)
  {
    hide Operations, S, T, K, F, G, H, I, RotateLeft;
    Abc53To56();
    Entries57To60();
    AbcBits57To64();
    FourTurns(ABC, 56);
  }

  lemma Abc61To64()
    ensures Operations(INIT, ABC, 64) == Regs(0x310ade8f, 0xc08226b3, 0xe484b9d8, 0x624d8cb2)
  {
    hide Operations, S, T, K, F, G, H, I, RotateLeft;
    Abc57To60();
    Entries61To64();
    AbcBits57To64();
    FourTurns(ABC, 60);
  }

  lemma AbcCompressed()
    ensures Compress(INIT, ABC) == Regs(0x98500190, 0xb04fd23c, 0x7d3f96d6, 0x727fe128)
  {
    Abc61To64();
    hide Operations;
  }

  lemma AbcBytes()
    ensures FourBytes(0x98500190) == [0x90, 0x01, 0x50, 0x98]
    ensures FourBytes(0xb04fd23c) == [0x3c, 0xd2, 0x4f, 0xb0]
    ensures FourBytes(0x7d3f96d6) == [0xd6, 0x96, 0x3f, 0x7d]
    ensures FourBytes(0x727fe128) == [0x28, 0xe1, 0x7f, 0x72]
  {
  }

  lemma AbcFirst()
    ensures FourBytes(0x80636261) == ([0x61, 0x62, 0x63] + [0x80] + [0, 0, 0])[..4]
  {
  }

  /** MD5 ("abc") = 900150983cd24fb0d6963f7d28e17f72 */
  lemma AbcDigest()
    ensures Md5([0x61, 0x62, 0x63])
         == [0x90, 0x01, 0x50, 0x98, 0x3c, 0xd2, 0x4f, 0xb0, 0xd6, 0x96, 0x3f, 0x7d, 0x28, 0xe1, 0x7f, 0x72]
  {
    AbcBytes();
    AbcFirst();
    hide Compress, FourBytes, Padded, WordsOf, Blocks, Output;
    ShortBlock([0x61, 0x62, 0x63], 0x80636261);
    AbcCompressed();
    BlocksShort(INIT, Padded([0x61, 0x62, 0x63]));
    OutputBytes(Regs(0x98500190, 0xb04fd23c, 0x7d3f96d6, 0x727fe128));
  }
}
