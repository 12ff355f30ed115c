/** MD5 as RFC 1321 states it: the 64 operations of section 3.4 as one loop over tables, padding
    and length of sections 3.1 and 3.2, the output of section 3.5. */
module Rfc1321 {

  /** An unsigned byte and an unsigned 32-bit word. */
  type Byte = x: int | 0 <= x < 0x100
  type Word = x: int | 0 <= x < WORD

  const WORD := 0x1_0000_0000

  datatype Regs = Regs(a: Word, b: Word, c: Word, d: Word)

  // ---------------------------------------------------------- section 3.4: one block

  function Bits(x: Word): bv32 {
    x as bv32
  }

  function FromBits(x: bv32): Word {
    x as int
  }

  function F(x: Word, y: Word, z: Word): Word { FromBits((Bits(x) & Bits(y)) | (!Bits(x) & Bits(z))) }
  function G(x: Word, y: Word, z: Word): Word { FromBits((Bits(x) & Bits(z)) | (Bits(y) & !Bits(z))) }
  function H(x: Word, y: Word, z: Word): Word { FromBits(Bits(x) ^ Bits(y) ^ Bits(z)) }
  function I(x: Word, y: Word, z: Word): Word { FromBits(Bits(y) ^ (Bits(x) | !Bits(z))) }

  function RotateLeft(x: Word, n: nat): Word
    requires 0 < n < 32
  {
    FromBits((Bits(x) << n) | (Bits(x) >> (32 - n)))
  }

  /** a = b + ((a + f + x + t) <<< s), additions modulo 2 to the 32. */
  function Mix(a: Word, b: Word, f: Word, x: Word, s: nat, t: Word): Word
    requires 0 < s < 32
  {
    (RotateLeft((a + f + x + t) % WORD, s) + b) % WORD
  }

  /** The table of the section: entry i, counted from 1, is the integer part of 4294967296 times
      abs(sin(i)), i in radians. */
  function T(i: nat): Word
    requires i < 64
  {
    match i
    case 0 => 0xd76aa478
    case 1 => 0xe8c7b756
    case 2 => 0x242070db
    case 3 => 0xc1bdceee
    case 4 => 0xf57c0faf
    case 5 => 0x4787c62a
    case 6 => 0xa8304613
    case 7 => 0xfd469501
    case 8 => 0x698098d8
    case 9 => 0x8b44f7af
    case 10 => 0xffff5bb1
    case 11 => 0x895cd7be
    case 12 => 0x6b901122
    case 13 => 0xfd987193
    case 14 => 0xa679438e
    case 15 => 0x49b40821
    case 16 => 0xf61e2562
    case 17 => 0xc040b340
    case 18 => 0x265e5a51
    case 19 => 0xe9b6c7aa
    case 20 => 0xd62f105d
    case 21 => 0x02441453
    case 22 => 0xd8a1e681
    case 23 => 0xe7d3fbc8
    case 24 => 0x21e1cde6
    case 25 => 0xc33707d6
    case 26 => 0xf4d50d87
    case 27 => 0x455a14ed
    case 28 => 0xa9e3e905
    case 29 => 0xfcefa3f8
    case 30 => 0x676f02d9
    case 31 => 0x8d2a4c8a
    case 32 => 0xfffa3942
    case 33 => 0x8771f681
    case 34 => 0x6d9d6122
    case 35 => 0xfde5380c
    case 36 => 0xa4beea44
    case 37 => 0x4bdecfa9
    case 38 => 0xf6bb4b60
    case 39 => 0xbebfbc70
    case 40 => 0x289b7ec6
    case 41 => 0xeaa127fa
    case 42 => 0xd4ef3085
    case 43 => 0x04881d05
    case 44 => 0xd9d4d039
    case 45 => 0xe6db99e5
    case 46 => 0x1fa27cf8
    case 47 => 0xc4ac5665
    case 48 => 0xf4292244
    case 49 => 0x432aff97
    case 50 => 0xab9423a7
    case 51 => 0xfc93a039
    case 52 => 0x655b59c3
    case 53 => 0x8f0ccc92
    case 54 => 0xffeff47d
    case 55 => 0x85845dd1
    case 56 => 0x6fa87e4f
    case 57 => 0xfe2ce6e0
    case 58 => 0xa3014314
    case 59 => 0x4e0811a1
    case 60 => 0xf7537e82
    case 61 => 0xbd3af235
    case 62 => 0x2ad7d2bb
    case _ => 0xeb86d391
  }

  /** The auxiliary function of operation i. */
  function Aux(i: nat, x: Word, y: Word, z: Word): Word {
    if i < 16 then F(x, y, z) else if i < 32 then G(x, y, z) else if i < 48 then H(x, y, z) else I(x, y, z)
  }

  /** The message word operation i uses. */
  function K(i: nat): (k: nat)
    requires i < 64
    ensures k < 16
  {
    if i < 16 then i
    else if i < 32 then (5 * i + 1) % 16
    else if i < 48 then (3 * i + 5) % 16
    else (7 * i) % 16
  }

  /** The rotation of operation i: four amounts a round. */
  function S(i: nat): (s: nat)
    requires i < 64
    ensures 0 < s < 32
  {
    [7, 12, 17, 22, 5, 9, 14, 20, 4, 11, 16, 23, 6, 10, 15, 21][i / 16 * 4 + i % 4]
  }

  /** Operation i; the registers then turn, so that the next one works on the old d. */
  function Operation(r: Regs, X: seq<Word>, i: nat): Regs
    requires i < 64 && |X| == 16
  {
    Regs(r.d, Mix(r.a, r.b, Aux(i, r.b, r.c, r.d), X[K(i)], S(i), T(i)), r.b, r.c)
  }

  /** The first n operations. */
  function Operations(r: Regs, X: seq<Word>, n: nat): Regs
    requires n <= 64 && |X| == 16
  {
    if n == 0 then r else Operation(Operations(r, X, n - 1), X, n - 1)
  }

  function AddRegs(h: Regs, r: Regs): Regs {
    Regs((h.a + r.a) % WORD, (h.b + r.b) % WORD, (h.c + r.c) % WORD, (h.d + r.d) % WORD)
  }

  function Compress(h: Regs, X: seq<Word>): Regs
    requires |X| == 16
  {
    AddRegs(h, Operations(h, X, 64))
  }

  function LittleEndian(b0: Byte, b1: Byte, b2: Byte, b3: Byte): Word {
    b0 + b1 * 0x100 + b2 * 0x1_0000 + b3 * 0x100_0000
  }

  function WordsOf(block: seq<Byte>): (X: seq<Word>)
    requires |block| == 64
    ensures |X| == 16
  {
    seq(16, i requires 0 <= i < 16 => LittleEndian(block[4 * i], block[4 * i + 1], block[4 * i + 2], block[4 * i + 3]))
  }

  // ------------------------------------------------------- sections 3.3 and 3.5: the message

  const INIT := Regs(0x67452301, 0xefcdab89, 0x98badcfe, 0x10325476)

  /** All the full blocks of a message. */
  function Blocks(h: Regs, m: seq<Byte>): Regs
    decreases |m|
  {
    if |m| < 64 then h else Blocks(Compress(h, WordsOf(m[..64])), m[64..])
  }

  /** Byte i of a word, low-order first. */
  function ByteOf(w: Word, i: nat): Byte
    requires i < 4
  {
    w / Power256(i) % 256
  }

  function Output(h: Regs): (digest: seq<Byte>)
    ensures |digest| == 16
  {
    var words := [h.a, h.b, h.c, h.d];
    seq(16, i requires 0 <= i < 16 => ByteOf(words[i / 4], i % 4))
  }

  // ------------------------------------------------------ sections 3.1 and 3.2: the padding

  function Zeros(n: nat): (z: seq<Byte>)
    ensures |z| == n && forall i :: 0 <= i < n ==> z[i] == 0
  {
    seq(n, _ => 0)
  }

  /** How many zeros follow the one bit: the fewest that leave the length 56 modulo 64. */
  function PadZeros(n: nat): (k: nat)
    ensures k < 64 && (n + 1 + k) % 64 == 56
  {
    if n % 64 < 56 then 55 - n % 64 else 119 - n % 64
  }

  function Power256(i: nat): (p: nat)
    ensures p > 0
  {
    if i == 0 then 1 else 256 * Power256(i - 1)
  }

  /** The number of bits, modulo 2 to the 64, in eight bytes, low-order first. */
  function LengthBytes(n: nat): (b: seq<Byte>)
    ensures |b| == 8
  {
    var bits := 8 * n % 0x1_0000_0000_0000_0000;
    seq(8, i requires 0 <= i < 8 => bits / Power256(i) % 256)
  }

  function Padded(m: seq<Byte>): (p: seq<Byte>)
    ensures |p| % 64 == 0
  {
    m + [0x80] + Zeros(PadZeros(|m|)) + LengthBytes(|m|)
  }

  function Md5(m: seq<Byte>): (digest: seq<Byte>)
    ensures |digest| == 16
  {
    Output(Blocks(INIT, Padded(m)))
  }

  // ----------------------------------------------------------------------- lemmas

  lemma Turn(h: Regs, X: seq<Word>, n: nat)
    requires n < 64 && |X| == 16
    ensures Operations(h, X, n + 1) == Operation(Operations(h, X, n), X, n)
  {
  }

  lemma NoOperation(h: Regs, X: seq<Word>)
    requires |X| == 16
    ensures Operations(h, X, 0) == h
  {
  }

  lemma BlocksAppend(h: Regs, m: seq<Byte>, n: seq<Byte>)
    requires |m| % 64 == 0
    ensures Blocks(h, m + n) == Blocks(Blocks(h, m), n)
    decreases |m|
  {
    hide Compress, WordsOf;
    if m == [] {
      assert m + n == n;
    } else {
      assert (m + n)[..64] == m[..64] && (m + n)[64..] == m[64..] + n;
      BlocksAppend(Compress(h, WordsOf(m[..64])), m[64..], n);
    }
  }

  /** The offset in the block, taken from the low count word. */
  lemma OffsetIsResidue(n: nat)
    ensures 8 * n % WORD / 8 % 64 == n % 64
  {
    var q, r := 8 * n / WORD, 8 * n % WORD;
    assert r == 8 * (n - q * 0x2000_0000);
    assert r / 8 == n - q * 0x2000_0000;
    assert n - q * 0x2000_0000 == n - 64 * (q * 0x80_0000);
  }

  /** Adding in two words, with the carry seen in the low sum, counts the bits of n + k bytes. */
  lemma CountCarries(n: nat, k: nat)
    ensures var nbits := k * 8 % WORD;
      var low := (8 * n % WORD + nbits) % WORD;
      var high := (8 * n / WORD % WORD + k / 0x2000_0000) % WORD;
      && low == 8 * (n + k) % WORD
      && (if low < nbits then (high + 1) % WORD else high) == 8 * (n + k) / WORD % WORD
  {
    var q, r := 8 * n / WORD, 8 * n % WORD;
    var q', r' := 8 * k / WORD, 8 * k % WORD;
    assert q' == k / 0x2000_0000;
    assert 8 * (n + k) == (q + q') * WORD + (r + r');
    var carry := (r + r') / WORD;
    assert 8 * (n + k) / WORD == q + q' + carry;
    assert carry == if (r + r') % WORD < r' then 1 else 0;
  }

  /** The bytes after the last full block do not change the chaining value. */
  lemma BlocksResidue(h: Regs, m: seq<Byte>)
    ensures Blocks(h, m) == Blocks(h, m[..|m| - |m| % 64])
    decreases |m|
  {
    hide Compress, WordsOf;
    if |m| >= 64 {
      var k := |m| - |m| % 64;
      assert |m[64..]| % 64 == |m| % 64;
      assert m[..k][..64] == m[..64] && m[..k][64..] == m[64..][..k - 64];
      BlocksResidue(Compress(h, WordsOf(m[..64])), m[64..]);
    } else {
      assert m[..0] == [];
    }
  }

  lemma BlocksShort(h: Regs, b: seq<Byte>)
    ensures |b| < 64 ==> Blocks(h, b) == h
    ensures |b| == 64 ==> Blocks(h, b) == Compress(h, WordsOf(b))
  {
    hide Compress, WordsOf;
    if |b| == 64 {
      assert b[..64] == b && b[64..] == [];
      assert Blocks(Compress(h, WordsOf(b)), []) == Compress(h, WordsOf(b));
    }
  }

  /** The bytes after the last full block. */
  function Residue(m: seq<Byte>): (r: seq<Byte>)
    ensures |r| == |m| % 64
  {
    m[|m| - |m| % 64..]
  }

  /** More bytes act on the residue: the chaining value of the whole. */
  lemma BlocksMore(m: seq<Byte>, data: seq<Byte>)
    ensures Blocks(INIT, m + data) == Blocks(Blocks(INIT, m), Residue(m) + data)
  {
    hide Blocks;
    var start := |m| - |m| % 64;
    BlocksResidue(INIT, m);
    assert m + data == m[..start] + (Residue(m) + data);
    assert start == |m| / 64 * 64;
    BlocksAppend(INIT, m[..start], Residue(m) + data);
  }

  /** A block completed by `data` is compressed into the chaining value. */
  lemma FillBlock(m: seq<Byte>, data: seq<Byte>)
    requires |m| % 64 + |data| == 64
    ensures Blocks(INIT, m + data) == Compress(Blocks(INIT, m), WordsOf(Residue(m) + data))
    ensures |m + data| % 64 == 0
  {
    hide Blocks, Compress, WordsOf, Residue;
    BlocksMore(m, data);
    BlocksShort(Blocks(INIT, m), Residue(m) + data);
    assert |m + data| == 64 * (|m| / 64 + 1);
  }

  /** Bytes that do not complete a block leave the chaining value and join the residue. */
  lemma BlocksGrow(m: seq<Byte>, data: seq<Byte>)
    requires |m| % 64 + |data| < 64
    ensures Blocks(INIT, m + data) == Blocks(INIT, m)
    ensures Residue(m + data) == Residue(m) + data
  {
    hide Blocks, Residue;
    BlocksMore(m, data);
    BlocksShort(Blocks(INIT, m), Residue(m) + data);
    ResidueGrow(m, data);
  }

  lemma ResidueGrow(m: seq<Byte>, data: seq<Byte>)
    requires |m| % 64 + |data| < 64
    ensures Residue(m + data) == Residue(m) + data
  {
    SameBlock(|m|, |data|);
    var start := |m| - |m| % 64;
    assert |m + data| - |m + data| % 64 == start;
    assert (m + data)[start..] == m[start..] + data;
  }

  lemma SameBlock(n: nat, k: nat)
    requires n % 64 + k < 64
    ensures (n + k) % 64 == n % 64 + k
  {
    assert n + k == 64 * (n / 64) + (n % 64 + k);
  }

  /** A block that starts where the last one ended. */
  lemma WholeBlock(m: seq<Byte>, block: seq<Byte>)
    requires |m| % 64 == 0 && |block| == 64
    ensures Blocks(INIT, m + block) == Compress(Blocks(INIT, m), WordsOf(block))
    ensures Residue(m + block) == [] && |m + block| % 64 == 0
  {
    hide Blocks, Compress, WordsOf, Residue;
    FillBlock(m, block);
    assert Residue(m) + block == block;
  }

  /** Byte i of the length, taken from the word that holds it. */
  lemma SavedByte(n: nat, i: nat)
    requires i < 8
    ensures var bits := 8 * n % 0x1_0000_0000_0000_0000;
      (if i / 4 == 0 then 8 * n % WORD else 8 * n / WORD % WORD) / Power256(i % 4) % 256 == bits / Power256(i) % 256
  {
    hide Power256;
    var low, high := 8 * n % WORD, 8 * n / WORD % WORD;
    var bits := 8 * n % 0x1_0000_0000_0000_0000;
    assert bits == high * WORD + low;
    PowersOf256();
    if i < 4 {
      LowByte(high, low, i);
    } else {
      assert bits / WORD == high;
      HighByte(bits, high);
    }
  }

  lemma PowersOf256()
    ensures Power256(0) == 1 && Power256(1) == 0x100 && Power256(2) == 0x1_0000 && Power256(3) == 0x100_0000
    ensures Power256(4) == 0x1_0000_0000 && Power256(5) == 0x100_0000_0000
    ensures Power256(6) == 0x1_0000_0000_0000 && Power256(7) == 0x100_0000_0000_0000
  {
    assert Power256(3) == 256 * Power256(2) && Power256(5) == 256 * Power256(4) && Power256(7) == 256 * Power256(6);
  }

  lemma LowByte(high: nat, low: nat, i: nat)
    requires i < 4
    ensures (high * WORD + low) / Power256(i) % 256 == low / Power256(i) % 256
  {
    hide Power256;
    PowersOf256();
    if i == 0 {
      LowResidue(high * 0x100_0000, low);
    } else if i == 1 {
      Shift8(high, low);
      LowResidue(high * 0x1_0000, low / 0x100);
    } else if i == 2 {
      Shift16(high, low);
      LowResidue(high * 0x100, low / 0x1_0000);
    } else {
      Shift24(high, low);
      LowResidue(high, low / 0x100_0000);
    }
  }

  lemma LowResidue(q: nat, x: nat)
    ensures (256 * q + x) % 256 == x % 256
  {
  }

  lemma Shift8(high: nat, low: nat)
    ensures (high * WORD + low) / 0x100 == 256 * (high * 0x1_0000) + low / 0x100
  {
  }

  lemma Shift16(high: nat, low: nat)
    ensures (high * WORD + low) / 0x1_0000 == 256 * (high * 0x100) + low / 0x1_0000
  {
  }

  lemma Shift24(high: nat, low: nat)
    ensures (high * WORD + low) / 0x100_0000 == 256 * high + low / 0x100_0000
  {
  }

  lemma HighByte(bits: nat, high: nat)
    requires bits / WORD == high
    ensures bits / 0x100_0000_0000 == high / 0x100
    ensures bits / 0x1_0000_0000_0000 == high / 0x1_0000
    ensures bits / 0x100_0000_0000_0000 == high / 0x100_0000
  {
  }

  /** The pad length computed from the low count word. */
  lemma PadIsPadding(n: nat)
    ensures (55 - 8 * n % WORD / 8) % WORD % 64 == PadZeros(n)
  {
    OffsetIsResidue(n);
    var x := 8 * n % WORD / 8;
    PadWraps(x);
  }

  lemma PadWraps(x: nat)
    requires x < WORD
    ensures (55 - x) % WORD % 64 == PadZeros(x % 64)
  {
    var y := (55 - x) % WORD;
    assert y == 55 - x || y == 55 - x + WORD;
  }
}
