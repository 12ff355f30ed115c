/** The decoders of an upload in a query string: percent-decoding and then base64, with the
    encodings they undo. A char is one byte. */
module Base64 {
  import opened Common

  type Byte = x: int | 0 <= x < 0x100

  // ------------------------------------------------------------------- section 4 of RFC 4648

  /** The digits of table 1. */
  function Sextet(v: nat): char
    requires v < 64
  {
    if v < 26 then ('A' as int + v) as char
    else if v < 52 then ('a' as int + v - 26) as char
    else if v < 62 then ('0' as int + v - 52) as char
    else if v == 62 then '+'
    else '/'
  }

  function Encode(data: seq<Byte>): string {
    if data == [] then []
    else if |data| == 1 then [Sextet(data[0] / 4), Sextet(data[0] % 4 * 16), '=', '=']
    else if |data| == 2 then
      [Sextet(data[0] / 4), Sextet(data[0] % 4 * 16 + data[1] / 16), Sextet(data[1] % 16 * 4), '=']
    else
      [Sextet(data[0] / 4), Sextet(data[0] % 4 * 16 + data[1] / 16), Sextet(data[1] % 16 * 4 + data[2] / 64),
       Sextet(data[2] % 64)] + Encode(data[3..])
  }

  /** b64_int: a padding sign is 64, and what is no digit counts as 0. */
  function B64Int(ch: char): (v: nat)
    ensures v <= 64
  {
    if ch == '+' then 62
    else if ch == '/' then 63
    else if ch == '=' then 64
    else if '0' <= ch <= '9' then ch as int + 4
    else if 'A' <= ch <= 'Z' then ch as int - 'A' as int
    else if 'a' <= ch <= 'z' then ch as int - 'a' as int + 26
    else 0
  }

  lemma SextetInverse(v: nat)
    requires v < 64
    ensures B64Int(Sextet(v)) == v
  {
  }

  /** The bytes of four characters; sums are cut to a byte. */
  function Quad(a: nat, b: nat, c: nat, d: nat): (bytes: seq<Byte>)
    ensures 1 <= |bytes| <= 3
  {
    [(a * 4 + b / 16 % 4) % 256] +
    if c == 64 then []
    else [(b % 16 * 16 + c / 4 % 16) % 256] + if d == 64 then [] else [(c % 4 * 64 + d) % 256]
  }

  function Decode(s: string): seq<Byte> {
    if |s| < 4 then [] else Quad(B64Int(s[0]), B64Int(s[1]), B64Int(s[2]), B64Int(s[3])) + Decode(s[4..])
  }

  lemma QuadOfThree(x: Byte, y: Byte, z: Byte)
    ensures Quad(x / 4, x % 4 * 16 + y / 16, y % 16 * 4 + z / 64, z % 64) == [x, y, z]
    ensures Quad(x / 4, x % 4 * 16 + y / 16, y % 16 * 4, 64) == [x, y]
    ensures Quad(x / 4, x % 4 * 16, 64, 64) == [x]
  {
    FirstByte(x, y);
    FirstByte(x, 0);
    SecondByte(x, y, z);
    SecondByte(x, y, 0);
    ThirdByte(y, z);
  }

  lemma FirstByte(x: Byte, y: Byte)
    ensures (x / 4 * 4 + (x % 4 * 16 + y / 16) / 16 % 4) % 256 == x
  {
    assert (x % 4 * 16 + y / 16) / 16 == x % 4;
  }

  lemma SecondByte(x: Byte, y: Byte, z: Byte)
    ensures ((x % 4 * 16 + y / 16) % 16 * 16 + (y % 16 * 4 + z / 64) / 4 % 16) % 256 == y
  {
    assert (x % 4 * 16 + y / 16) % 16 == y / 16;
    assert (y % 16 * 4 + z / 64) / 4 == y % 16;
  }

  lemma ThirdByte(y: Byte, z: Byte)
    ensures ((y % 16 * 4 + z / 64) % 4 * 64 + z % 64) % 256 == z
  {
    assert (y % 16 * 4 + z / 64) % 4 == z / 64;
  }

  lemma {:induction false} DecodeEncode(data: seq<Byte>)
    ensures Decode(Encode(data)) == data
    decreases |data|
  {
    hide Sextet, B64Int, Quad;
    assert B64Int('=') == 64 by { Padding(); }
    if data == [] {
      return;
    }
    var x := data[0];
    SextetInverse(x / 4);
    if |data| == 1 {
      QuadOfThree(x, 0, 0);
      SextetInverse(x % 4 * 16);
      Single(Encode(data));
      assert data == [x];
    } else if |data| == 2 {
      var y := data[1];
      QuadOfThree(x, y, 0);
      SextetInverse(x % 4 * 16 + y / 16);
      SextetInverse(y % 16 * 4);
      Single(Encode(data));
      assert data == [x, y];
    } else {
      var y, z := data[1], data[2];
      QuadOfThree(x, y, z);
      SextetInverse(x % 4 * 16 + y / 16);
      SextetInverse(y % 16 * 4 + z / 64);
      SextetInverse(z % 64);
      DecodeEncode(data[3..]);
      assert Encode(data)[4..] == Encode(data[3..]);
      assert data == [x, y, z] + data[3..];
    }
  }

  lemma Padding()
    ensures B64Int('=') == 64
  {
  }

  lemma Single(s: string)
    requires |s| == 4
    ensures Decode(s) == Quad(B64Int(s[0]), B64Int(s[1]), B64Int(s[2]), B64Int(s[3]))
  {
    hide Quad, B64Int;
    assert s[4..] == [];
    assert Quad(B64Int(s[0]), B64Int(s[1]), B64Int(s[2]), B64Int(s[3])) + []
        == Quad(B64Int(s[0]), B64Int(s[1]), B64Int(s[2]), B64Int(s[3]));
  }

  /** b64_decode, into a buffer of three bytes for every four characters. */
  method B64Decode(in_: string, out: array<Byte>) returns (k: nat)
    requires |in_| / 4 * 3 <= out.Length
    modifies out
    ensures k <= |in_| / 4 * 3 && out[..k] == Decode(in_)
    ensures out[|in_| / 4 * 3..] == old(out[|in_| / 4 * 3..])
  {
    hide Decode, Quad, B64Int;
    k := 0;
    var s := new nat[4];
    var i, j := 0, 0;
    ghost var room, q := |in_| / 4, 0;
    assert in_[0..] == in_ && out[..0] == [];
    while i < |in_|
      invariant 0 <= j < 4 && i == 4 * q + j <= |in_| && 0 <= k <= 3 * q && 0 <= q <= room
      invariant forall m :: 0 <= m < j ==> s[m] == B64Int(in_[4 * q + m])
      invariant out[..k] + Decode(in_[4 * q..]) == Decode(in_)
      invariant out[3 * room..] == old(out[3 * room..])
    {
      s[j] := B64Int(in_[i]);
      j := j + 1;
      if j == 4 {
        ghost var before, tail := out[..k], out[3 * room..];
        DecodeStep(in_, 4 * q);
        k := PutQuad(out, k, s[0], s[1], s[2], s[3], 3 * room);
        ghost var piece := Quad(s[0], s[1], s[2], s[3]);
        q := q + 1;
        assert before + (piece + Decode(in_[4 * q..])) == before + piece + Decode(in_[4 * q..]);
        j := 0;
      }
      i := i + 1;
    }
    DecodeEnd(in_[4 * q..]);
    assert out[..k] + [] == out[..k];
  }

  lemma DecodeStep(s: string, i: nat)
    requires i + 4 <= |s|
    ensures Decode(s[i..])
         == Quad(B64Int(s[i]), B64Int(s[i + 1]), B64Int(s[i + 2]), B64Int(s[i + 3])) + Decode(s[i + 4..])
  {
    assert s[i..][4..] == s[i + 4..];
  }

  lemma DecodeEnd(s: string)
    requires |s| < 4
    ensures Decode(s) == []
  {
  }

  method PutQuad(out: array<Byte>, k: nat, a: nat, b: nat, c: nat, d: nat, ghost room: nat) returns (next: nat)
    requires k + 3 <= room <= out.Length
    modifies out
    ensures k < next <= k + 3 && out[..next] == old(out[..k]) + Quad(a, b, c, d)
    ensures out[room..] == old(out[room..])
  {
    out[k] := (a * 4 + b / 16 % 4) % 256;
    if c != 64 {
      out[k + 1] := (b % 16 * 16 + c / 4 % 16) % 256;
      if d != 64 {
        out[k + 2] := (c % 4 * 64 + d) % 256;
        next := k + 3;
      } else {
        next := k + 2;
      }
    } else {
      next := k + 1;
    }
  }

  // ----------------------------------------------------------------- section 2.1 of RFC 3986

  function EscapeDigit(v: nat, upper: bool): (c: char)
    requires v < 16
    ensures HexValue(c) == v
  {
    if upper && v >= 10 then ('A' as int + v - 10) as char else HexDigit(v)
  }

  /** How one character was written: as it is, or escaped with either kind of digit. */
  datatype Style = Plain | Upper | Lower

  predicate Proper(s: string, styles: seq<Style>) {
    |styles| == |s| && forall k :: 0 <= k < |s| ==> s[k] < 256 as char && (s[k] == '%' ==> !styles[k].Plain?)
  }

  function PercentEncode(s: string, styles: seq<Style>): string
    requires Proper(s, styles)
  {
    if s == [] then []
    else (if styles[0].Plain? then [s[0]]
          else ['%', EscapeDigit(s[0] as int / 16, styles[0].Upper?), EscapeDigit(s[0] as int % 16, styles[0].Upper?)])
         + PercentEncode(s[1..], styles[1..])
  }

  /** A percent sign with two digits is a byte, one at the very end stays, and any other is dropped. */
  function PercentDecode(s: string): (r: string)
    ensures |r| <= |s|
    decreases |s|
  {
    if s == [] then []
    else if s[0] != '%' || |s| == 1 then [s[0]] + PercentDecode(s[1..])
    else if |s| > 2 && IsHex(s[1]) && IsHex(s[2]) then
      [(HexValue(s[1]) * 16 + HexValue(s[2])) as char] + PercentDecode(s[3..])
    else PercentDecode(s[1..])
  }

  lemma {:induction false} PercentRoundTrip(s: string, styles: seq<Style>)
    requires Proper(s, styles)
    ensures PercentDecode(PercentEncode(s, styles)) == s
    decreases |s|
  {
    if s != [] {
      var t, rest := PercentEncode(s, styles), PercentEncode(s[1..], styles[1..]);
      PercentRoundTrip(s[1..], styles[1..]);
      if styles[0].Plain? {
        assert t[1..] == rest;
      } else {
        assert t[3..] == rest;
        assert s[0] as int / 16 * 16 + s[0] as int % 16 == s[0] as int;
      }
      assert s == [s[0]] + s[1..];
    }
  }

  /** url_decode, into a buffer as long as the text. */
  method UrlDecode(str: string, dest: array<char>) returns (j: nat)
    requires |str| <= dest.Length
    modifies dest
    ensures j <= |str| && dest[..j] == PercentDecode(str)
  {
    hide PercentDecode, HexValue;
    j := 0;
    var i, len := 0, |str|;
    assert str[0..] == str && dest[..0] == [];
    while i < len
      invariant 0 <= j <= i <= len
      invariant dest[..j] + PercentDecode(str[i..]) == PercentDecode(str)
    {
      PercentStep(str, i);
      ghost var before := dest[..j];
      if str[i] == '%' {
        if i + 1 == len {
          dest[j] := str[i];
          j := j + 1;
          assert dest[..j] == before + [str[i]];
          Joins(before, [str[i]], PercentDecode(str[i + 1..]));
          i := i + 1;
          continue;
        }
        if IsHex(str[i + 1]) && i + 2 < len && IsHex(str[i + 2]) {
          var x := (HexValue(str[i + 1]) * 16 + HexValue(str[i + 2])) as char;
          dest[j] := x;
          j := j + 1;
          assert dest[..j] == before + [x];
          Joins(before, [x], PercentDecode(str[i + 3..]));
          i := i + 2;
        }
      } else {
        dest[j] := str[i];
        j := j + 1;
        assert dest[..j] == before + [str[i]];
        Joins(before, [str[i]], PercentDecode(str[i + 1..]));
      }
      i := i + 1;
    }
    PercentEnd();
    assert str[i..] == [] && dest[..j] + [] == dest[..j];
  }

  lemma Joins(a: string, b: string, c: string)
    ensures a + (b + c) == a + b + c
  {
  }

  lemma PercentStep(s: string, i: nat)
    requires i < |s|
    ensures PercentDecode(s[i..])
         == if s[i] != '%' || i + 1 == |s| then [s[i]] + PercentDecode(s[i + 1..])
            else if i + 2 < |s| && IsHex(s[i + 1]) && IsHex(s[i + 2]) then
              [(HexValue(s[i + 1]) * 16 + HexValue(s[i + 2])) as char] + PercentDecode(s[i + 3..])
            else PercentDecode(s[i + 1..])
  {
    assert s[i..][1..] == s[i + 1..];
    assert i + 3 <= |s| ==> s[i..][3..] == s[i + 3..];
  }

  lemma PercentEnd()
    ensures PercentDecode([]) == []
  {
  }

  // ------------------------------------------------------------------------------- together

  /** The decoding of an upload: the buffers are as large as computed, and large enough. */
  method DecodeUpload(base64: string) returns (data: seq<Byte>)
    ensures data == Decode(PercentDecode(base64))
  {
    var temp := new char[|base64| + 1];
    var len := UrlDecode(base64, temp);
    var buff := new Byte[len / 4 * 3];
    var length := B64Decode(temp[..len], buff);
    data := buff[..length];
  }

  /** Any bytes in base64, percent-encoded in any way, come back as they were. */
  lemma UploadRoundTrip(data: seq<Byte>, styles: seq<Style>)
    requires Proper(Encode(data), styles)
    ensures Decode(PercentDecode(PercentEncode(Encode(data), styles))) == data
  {
    PercentRoundTrip(Encode(data), styles);
    DecodeEncode(data);
  }
}
