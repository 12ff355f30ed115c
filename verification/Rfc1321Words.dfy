/** What the word operations of MD5 mean: bit by bit, or as arithmetic. */
module Rfc1321Words {
  import opened Rfc1321

  // ------------------------------------------------------- bit by bit: the auxiliary functions

  predicate IsSet(b: bv32, k: bv32)
    requires k < 32
  {
    (b >> k) & 1 == 1
  }

  /** Bit k of a word, the low-order one being bit 0. */
  predicate Bit(x: Word, k: bv32)
    requires k < 32
  {
    IsSet(Bits(x), k)
  }

  lemma BitsBack(b: bv32)
    ensures Bits(FromBits(b)) == b
  {
  }

  lemma Chosen(a: bv32, b: bv32, c: bv32, k: bv32)
    requires k < 32
    ensures IsSet((a & b) | (!a & c), k) == if IsSet(a, k) then IsSet(b, k) else IsSet(c, k)
  {
  }

  lemma Parity(a: bv32, b: bv32, c: bv32, k: bv32)
    requires k < 32
    ensures IsSet(a ^ b ^ c, k) == ((IsSet(a, k) != IsSet(b, k)) != IsSet(c, k))
  {
  }

  lemma Turned(a: bv32, b: bv32, c: bv32, k: bv32)
    requires k < 32
    ensures IsSet(b ^ (a | !c), k) == (IsSet(b, k) != (IsSet(a, k) || !IsSet(c, k)))
  {
  }

  lemma Swapped(a: bv32, b: bv32, c: bv32)
    ensures (a & c) | (b & !c) == (c & a) | (!c & b)
  {
  }

  lemma UnwrapF(x: Word, y: Word, z: Word)
    ensures Bits(F(x, y, z)) == (Bits(x) & Bits(y)) | (!Bits(x) & Bits(z))
  {
    hide Bits, FromBits;
    BitsBack((Bits(x) & Bits(y)) | (!Bits(x) & Bits(z)));
  }

  /** F chooses between y and z by x. */
  lemma BitsOfF(x: Word, y: Word, z: Word, k: bv32)
    requires k < 32
    ensures Bit(F(x, y, z), k) == if Bit(x, k) then Bit(y, k) else Bit(z, k)
  {
    hide F, G, H, I, Bits, FromBits, IsSet;
    UnwrapF(x, y, z);
    Chosen(Bits(x), Bits(y), Bits(z), k);
  }

  lemma UnwrapG(x: Word, y: Word, z: Word)
    ensures Bits(G(x, y, z)) == (Bits(x) & Bits(z)) | (Bits(y) & !Bits(z))
  {
    hide Bits, FromBits;
    BitsBack((Bits(x) & Bits(z)) | (Bits(y) & !Bits(z)));
  }

  /** G chooses between x and y by z. */
  lemma BitsOfG(x: Word, y: Word, z: Word, k: bv32)
    requires k < 32
    ensures Bit(G(x, y, z), k) == if Bit(z, k) then Bit(x, k) else Bit(y, k)
  {
    hide F, G, H, I, Bits, FromBits, IsSet;
    UnwrapG(x, y, z);
    Swapped(Bits(x), Bits(y), Bits(z));
    Chosen(Bits(z), Bits(x), Bits(y), k);
  }

  lemma UnwrapH(x: Word, y: Word, z: Word)
    ensures Bits(H(x, y, z)) == Bits(x) ^ Bits(y) ^ Bits(z)
  {
    hide Bits, FromBits;
    BitsBack(Bits(x) ^ Bits(y) ^ Bits(z));
  }

  /** H is the parity of the three. */
  lemma BitsOfH(x: Word, y: Word, z: Word, k: bv32)
    requires k < 32
    ensures Bit(H(x, y, z), k) == ((Bit(x, k) != Bit(y, k)) != Bit(z, k))
  {
    hide F, G, H, I, Bits, FromBits, IsSet;
    UnwrapH(x, y, z);
    Parity(Bits(x), Bits(y), Bits(z), k);
  }

  lemma UnwrapI(x: Word, y: Word, z: Word)
    ensures Bits(I(x, y, z)) == Bits(y) ^ (Bits(x) | !Bits(z))
  {
    hide Bits, FromBits;
    BitsBack(Bits(y) ^ (Bits(x) | !Bits(z)));
  }

  /** I is y, turned over where x is set or z is not. */
  lemma BitsOfI(x: Word, y: Word, z: Word, k: bv32)
    requires k < 32
    ensures Bit(I(x, y, z), k) == (Bit(y, k) != (Bit(x, k) || !Bit(z, k)))
  {
    hide F, G, H, I, Bits, FromBits, IsSet;
    UnwrapI(x, y, z);
    Turned(Bits(x), Bits(y), Bits(z), k);
  }

  // ------------------------------------------------------------------- as arithmetic: rotation

  function Power2(n: nat): (p: nat)
    ensures p > 0
  {
    if n == 0 then 1 else 2 * Power2(n - 1)
  }

  lemma ShiftOne(b: bv32)
    requires b < 0x8000_0000
    ensures FromBits(b << 1) == 2 * FromBits(b)
  {
  }

  lemma ShiftOneIn(b: bv32)
    requires b < 0x8000_0000
    ensures FromBits((b << 1) | 1) == 2 * FromBits(b) + 1
  {
  }

  lemma TopBit(b: bv32)
    requires b < 0x8000_0000
    ensures FromBits(b | 0x8000_0000) == FromBits(b) + 0x8000_0000
  {
  }

  lemma HalfBits(b: bv32)
    ensures b >> 1 < 0x8000_0000
    ensures b & 1 == 0 ==> b == (b >> 1) << 1
    ensures b & 1 != 0 ==> b == ((b >> 1) << 1) | 1
  {
  }

  lemma Halves(b: bv32)
    ensures FromBits(b) == 2 * FromBits(b >> 1) + if b & 1 != 0 then 1 else 0
  {
    hide *;
    HalfBits(b);
    ShiftOne(b >> 1);
    ShiftOneIn(b >> 1);
  }

  lemma WithoutTop(b: bv32)
    ensures b & 0x7fff_ffff < 0x8000_0000 && b << 1 == (b & 0x7fff_ffff) << 1
    ensures b < 0x8000_0000 ==> b == b & 0x7fff_ffff
    ensures b >= 0x8000_0000 ==> b == (b & 0x7fff_ffff) | 0x8000_0000
  {
  }

  lemma LeftOne(b: bv32)
    ensures FromBits(b << 1) == 2 * FromBits(b) % WORD
  {
    hide FromBits;
    WithoutTop(b);
    LeftOneOf(b, b & 0x7fff_ffff);
  }

  lemma LeftOneOf(b: bv32, c: bv32)
    requires c < 0x8000_0000 && b << 1 == c << 1 && (b == c || b == c | 0x8000_0000)
    ensures FromBits(b << 1) == 2 * FromBits(b) % WORD
  {
    hide *;
    ShiftOne(c);
    TopBit(c);
    Doubled(FromBits(b), FromBits(c), FromBits(c << 1));
  }

  lemma Doubled(v: Word, t: Word, twice: Word)
    requires v == t || v == t + 0x8000_0000
    requires twice == 2 * t
    ensures twice == 2 * v % WORD
  {
  }

  lemma NotSmall(b: bv32)
    requires b >= 0x8000_0000
    ensures FromBits(b) >= 0x8000_0000
  {
    var c := b & 0x7fff_ffff;
    WithoutTop(b);
    hide *;
    TopBit(c);
    AtLeast(FromBits(b), FromBits(c));
  }

  lemma AtLeast(v: Word, t: Word)
    requires v == t + 0x8000_0000
    ensures v >= 0x8000_0000
  {
  }

  /** Every word is the value of some bits. */
  lemma {:induction false} SomeBits(x: Word) returns (b: bv32)
    ensures FromBits(b) == x
    decreases x
  {
    hide FromBits;
    if x == 0 {
      b := 0;
      NoBits();
    } else {
      var h := SomeBits(x / 2);
      if h >= 0x8000_0000 {
        NotSmall(h);
      }
      ShiftOne(h);
      ShiftOneIn(h);
      b := if x % 2 == 0 then h << 1 else (h << 1) | 1;
    }
  }

  lemma NoBits()
    ensures FromBits(0) == 0
  {
  }

  lemma DisjointHalves(a: bv32, b: bv32)
    requires a & b == 0
    ensures (a | b) >> 1 == (a >> 1) | (b >> 1) && (a >> 1) & (b >> 1) == 0
    ensures ((a | b) & 1 != 0) == (a & 1 != 0 || b & 1 != 0) && !(a & 1 != 0 && b & 1 != 0)
  {
  }

  lemma ZeroValue(b: bv32)
    requires FromBits(b) == 0
    ensures b == 0
  {
    BitsBack(b);
  }

  lemma {:induction false} DisjointAdds(a: bv32, b: bv32)
    requires a & b == 0
    ensures FromBits(a | b) == FromBits(a) + FromBits(b)
    decreases FromBits(a) + FromBits(b)
  {
    hide *;
    if FromBits(a) + FromBits(b) == 0 {
      ZeroValue(a);
      ZeroValue(b);
      assert 0 | b == b;
    } else {
      DisjointHalves(a, b);
      Halves(a);
      Halves(b);
      Halves(a | b);
      DisjointAdds(a >> 1, b >> 1);
    }
  }

  /** One place more, for each number of places. */
  lemma LeftMore(b: bv32, n: nat)
    requires 0 < n < 32
    ensures b << n == (b << (n - 1)) << 1
  {
    if n < 16 {
      assert n in {1, 2, 3, 4, 5, 6, 7, 8, 9, 10, 11, 12, 13, 14, 15};
    } else {
      assert n in {16, 17, 18, 19, 20, 21, 22, 23, 24, 25, 26, 27, 28, 29, 30, 31};
    }
  }

  lemma RightMore(b: bv32, n: nat)
    requires 0 < n < 32
    ensures b >> n == (b >> (n - 1)) >> 1
  {
    if n < 16 {
      assert n in {1, 2, 3, 4, 5, 6, 7, 8, 9, 10, 11, 12, 13, 14, 15};
    } else {
      assert n in {16, 17, 18, 19, 20, 21, 22, 23, 24, 25, 26, 27, 28, 29, 30, 31};
    }
  }

  function Left(b: bv32, n: nat): Word
    requires n < 32
  {
    FromBits(b << n)
  }

  function Right(b: bv32, n: nat): Word
    requires n < 32
  {
    FromBits(b >> n)
  }

  lemma NoPlaces(b: bv32)
    ensures Left(b, 0) == FromBits(b) == Right(b, 0)
  {
    assert b << 0 == b && b >> 0 == b;
  }

  lemma LeftDoubles(b: bv32, n: nat)
    requires 0 < n < 32
    ensures Left(b, n) == 2 * Left(b, n - 1) % WORD
  {
    hide FromBits;
    LeftMore(b, n);
    LeftOne(b << (n - 1));
  }

  lemma RightHalves(b: bv32, n: nat)
    requires 0 < n < 32
    ensures Right(b, n) == Right(b, n - 1) / 2
  {
    hide FromBits;
    RightMore(b, n);
    Halves(b >> (n - 1));
  }

  lemma {:induction false} LeftPlaces(b: bv32, n: nat)
    requires n < 32
    ensures Left(b, n) == FromBits(b) * Power2(n) % WORD
  {
    hide Left, FromBits;
    if n == 0 {
      NoPlaces(b);
    } else {
      LeftPlaces(b, n - 1);
      LeftDoubles(b, n);
      DoubleWraps(FromBits(b), Power2(n - 1));
    }
  }

  lemma DoubleWraps(x: nat, p: nat)
    ensures 2 * (x * p % WORD) % WORD == x * (2 * p) % WORD
  {
    assert x * (2 * p) == 2 * (x * p);
    TwiceWraps(x * p);
  }

  lemma TwiceWraps(x: nat)
    ensures 2 * (x % WORD) % WORD == 2 * x % WORD
  {
  }

  lemma {:induction false} RightPlaces(b: bv32, n: nat)
    requires n < 32
    ensures Right(b, n) == FromBits(b) / Power2(n)
  {
    hide Right, FromBits;
    if n == 0 {
      NoPlaces(b);
    } else {
      RightPlaces(b, n - 1);
      RightHalves(b, n);
      HalfAgain(FromBits(b), Power2(n - 1));
    }
  }

  lemma HalfAgain(x: nat, p: nat)
    requires p > 0
    ensures x / p / 2 == x / (2 * p)
  {
    var q, r := x / p / 2, x / p % 2;
    assert x == (2 * q + r) * p + x % p;
    assert (2 * q + r) * p == q * (2 * p) + r * p;
    assert r * p == 0 || r * p == p;
    Quotient(x, 2 * p, q, r * p + x % p);
  }

  lemma Quotient(x: nat, m: nat, q: nat, r: nat)
    requires m > 0 && x == q * m + r && r < m
    ensures x / m == q
  {
    var d := x / m - q;
    assert d * m == r - x % m;
    Multiple(d, m);
  }

  lemma Multiple(d: int, m: nat)
    ensures d >= 1 ==> d * m >= m
    ensures d <= -1 ==> d * m <= 0 - m
  {
  }

  lemma Apart(b: bv32, n: nat)
    requires 0 < n < 32
    ensures (b << n) & (b >> (32 - n)) == 0
  {
  }

  function Rotated(b: bv32, n: nat): Word
    requires 0 < n < 32
  {
    FromBits((b << n) | (b >> (32 - n)))
  }

  lemma JoinAdds(l: bv32, r: bv32, n: nat, b: bv32)
    requires 0 < n < 32 && l == b << n && r == b >> (32 - n)
    ensures l & r == 0
  {
    Apart(b, n);
  }

  lemma RotatedParts(b: bv32, n: nat, l: bv32, r: bv32)
    requires 0 < n < 32 && l == b << n && r == b >> (32 - n)
    ensures Rotated(b, n) == FromBits(l | r) && Left(b, n) == FromBits(l) && Right(b, 32 - n) == FromBits(r)
  {
    hide FromBits;
  }

  lemma RotateAdds(b: bv32, n: nat)
    requires 0 < n < 32
    ensures Rotated(b, n) == Left(b, n) + Right(b, 32 - n)
  {
    var l, r := b << n, b >> (32 - n);
    hide *;
    RotatedParts(b, n, l, r);
    JoinAdds(l, r, n, b);
    DisjointAdds(l, r);
  }

  lemma RotateIsRotated(x: Word, n: nat)
    requires 0 < n < 32
    ensures RotateLeft(x, n) == Rotated(Bits(x), n)
  {
    hide Bits, FromBits;
  }

  lemma ValueBack(x: Word)
    ensures FromBits(Bits(x)) == x
  {
    var b := SomeBits(x);
    BitsBack(b);
  }

  /** The places shifted out on the left come in on the right. */
  lemma RotateIsArithmetic(x: Word, n: nat)
    requires 0 < n < 32
    ensures RotateLeft(x, n) == x * Power2(n) % WORD + x / Power2(32 - n)
  {
    hide *;
    RotateIsRotated(x, n);
    RotateAdds(Bits(x), n);
    ValueBack(x);
    LeftPlaces(Bits(x), n);
    RightPlaces(Bits(x), 32 - n);
  }

  // ------------------------------------------------------------------------ words and bytes

  /** The bytes of a word, taken from the low end, make up the word. */
  lemma BytesMakeWord(w: Word)
    ensures LittleEndian(ByteOf(w, 0), ByteOf(w, 1), ByteOf(w, 2), ByteOf(w, 3)) == w
  {
    PowersOf256();
    hide Power256;
    var x := w / 0x100;
    var y := x / 0x100;
    assert w == 0x100 * x + w % 0x100 && x == 0x100 * y + x % 0x100 && y == 0x100 * (y / 0x100) + y % 0x100;
    assert y == w / 0x1_0000 && y / 0x100 == w / 0x100_0000;
  }

  lemma LowByteOff(b: Byte, x: nat)
    ensures (b + 0x100 * x) % 0x100 == b && (b + 0x100 * x) / 0x100 == x
  {
  }

  lemma ByteBehind(w: Word)
    ensures ByteOf(w, 0) == w % 0x100 && ByteOf(w, 1) == w / 0x100 % 0x100
    ensures ByteOf(w, 2) == w / 0x100 / 0x100 % 0x100 && ByteOf(w, 3) == w / 0x100 / 0x100 / 0x100 % 0x100
  {
    PowersOf256();
    hide Power256;
  }

  /** And a word made of four bytes has them as its bytes. */
  lemma WordHasBytes(b0: Byte, b1: Byte, b2: Byte, b3: Byte)
    ensures var w := LittleEndian(b0, b1, b2, b3);
      ByteOf(w, 0) == b0 && ByteOf(w, 1) == b1 && ByteOf(w, 2) == b2 && ByteOf(w, 3) == b3
  {
    hide ByteOf;
    ByteBehind(LittleEndian(b0, b1, b2, b3));
    LowByteOff(b0, b1 + 0x100 * (b2 + 0x100 * b3));
    LowByteOff(b1, b2 + 0x100 * b3);
    LowByteOff(b2, b3);
    LowByteOff(b3, 0);
  }

  /** The number the bytes stand for, the low-order one first. */
  function Number(b: seq<Byte>): nat {
    if b == [] then 0 else b[0] + 0x100 * Number(b[1..])
  }

  /** The eight bytes of the length stand for the number of bits modulo 2 to the 64. */
  lemma LengthIsNumber(n: nat)
    ensures Number(LengthBytes(n)) == 8 * n % 0x1_0000_0000_0000_0000
  {
    var bits := 8 * n % 0x1_0000_0000_0000_0000;
    LastBytes(n, bits, 8);
    assert LengthBytes(n)[0..] == LengthBytes(n);
    PowersOf256();
  }

  /** From byte 8 - k on they stand for what is left of the bits. */
  lemma {:induction false} LastBytes(n: nat, bits: nat, k: nat)
    requires k <= 8 && bits == 8 * n % 0x1_0000_0000_0000_0000
    ensures Number(LengthBytes(n)[8 - k..]) == bits / Power256(8 - k)
  {
    PowersOf256();
    var b := LengthBytes(n);
    if k == 0 {
      assert b[8..] == [];
      assert Power256(8) == 256 * Power256(7);
    } else {
      LastBytes(n, bits, k - 1);
      var i := 8 - k;
      assert b[i..][1..] == b[i + 1..] && b[i..][0] == bits / Power256(i) % 256;
      assert Power256(i + 1) == 256 * Power256(i);
      hide Power256, LengthBytes;
      Shift(bits, Power256(i));
    }
  }

  lemma Shift(x: nat, p: nat)
    requires p > 0
    ensures x / p == x / p % 256 + 256 * (x / (256 * p))
  {
    var q, r := x / p / 256, x / p % 256;
    assert x == (256 * q + r) * p + x % p;
    assert (256 * q + r) * p == q * (256 * p) + r * p;
    AtMost(r, p);
    Quotient(x, 256 * p, q, r * p + x % p);
  }

  lemma AtMost(r: nat, p: nat)
    requires r < 256
    ensures r * p <= 255 * p
  {
  }
}
