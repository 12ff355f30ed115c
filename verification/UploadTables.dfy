/** The upload decoders and the wildcards on texts written out. */
module UploadTables {
  import opened Common
  import opened Base64
  import Glob

  // ------------------------------------------------------------------- section 4 of RFC 4648

  const CAPITALS := "ABCDEFGHIJKLMNOPQRSTUVWXYZ"
  const SMALLS := "abcdefghijklmnopqrstuvwxyz"
  const DIGITS := "0123456789"

  /** Table 1 of RFC 4648: the capitals are 0 to 25, the small letters 26 to 51, the digits 52 to 61. */
  lemma Alphabet(v: nat)
    ensures v < 26 ==> Sextet(v) == CAPITALS[v] && B64Int(CAPITALS[v]) == v
    ensures v < 26 ==> Sextet(26 + v) == SMALLS[v] && B64Int(SMALLS[v]) == 26 + v
    ensures v < 10 ==> Sextet(52 + v) == DIGITS[v] && B64Int(DIGITS[v]) == 52 + v
    ensures Sextet(62) == '+' && B64Int('+') == 62 && Sextet(63) == '/' && B64Int('/') == 63 && B64Int('=') == 64
  {
    if v < 26 {
      Capital(v);
      Small(v);
    }
  }

  lemma Capital(v: nat)
    requires v < 26
    ensures Sextet(v) == CAPITALS[v] && B64Int(CAPITALS[v]) == v
  {
  }

  lemma Small(v: nat)
    requires v < 26
    ensures Sextet(26 + v) == SMALLS[v] && B64Int(SMALLS[v]) == 26 + v
  {
  }

  /** Any other character counts like an A. */
  lemma OtherCharacter(c: char)
    ensures c !in CAPITALS && c !in SMALLS && c !in DIGITS && c !in "+/=" ==> B64Int(c) == 0
  {
    if 'A' <= c <= 'Z' {
      assert CAPITALS[c as int - 'A' as int] == c;
    } else if 'a' <= c <= 'z' {
      assert SMALLS[c as int - 'a' as int] == c;
    } else if '0' <= c <= '9' {
      assert DIGITS[c as int - '0' as int] == c;
    }
  }

  /** Four digits are the 24 bits of three bytes, the first digit the highest. */
  lemma QuadValue(a: nat, b: nat, c: nat, d: nat)
    requires a < 64 && b < 64 && c < 64 && d < 64
    ensures var q := Quad(a, b, c, d);
      |q| == 3 && 65536 * q[0] as int + 256 * q[1] as int + q[2] as int == ((a * 64 + b) * 64 + c) * 64 + d
  {
    assert b == b / 16 * 16 + b % 16 && c == c / 4 * 4 + c % 4;
    assert b / 16 < 4 && c / 4 < 16;
  }

  /** With padding at the end the bytes are those the digits in front fill. */
  lemma QuadPadded(a: nat, b: nat, c: nat)
    requires a < 64 && b < 64 && c < 64
    ensures Quad(a, b, c, 64) == Quad(a, b, c, 0)[..2] && Quad(a, b, 64, 64) == Quad(a, b, 0, 0)[..1]
  {
  }

  /** Section 10 of RFC 4648. */
  lemma Vectors()
    ensures Encode([]) == "" && Encode([102]) == "Zg==" && Encode([102, 111]) == "Zm8="
    ensures Encode([102, 111, 111]) == "Zm9v" && Encode([102, 111, 111, 98, 97, 114]) == "Zm9vYmFy"
  {
    var six := [102, 111, 111, 98, 97, 114];
    assert six[3..] == [98, 97, 114] && [98, 97, 114][3..] == [] && [102, 111, 111][3..] == [];
    assert Encode([98, 97, 114]) == "YmFy" + Encode([]);
  }

  /** Characters behind the last four are dropped. */
  lemma {:induction false} Leftover(s: string, t: string)
    requires |s| % 4 == 0 && |t| < 4
    ensures Decode(s + t) == Decode(s)
    decreases |s|
  {
    hide Quad, B64Int;
    if s == "" {
      assert s + t == t;
    } else {
      Leftover(s[4..], t);
      assert (s + t)[4..] == s[4..] + t;
    }
  }

  // ----------------------------------------------------------------- section 2.1 of RFC 3986

  const HEX := "0123456789ABCDEFabcdef"

  /** A character by itself, a percent sign and two digits, a percent sign with something else behind it, and
      one at the very end. */
  datatype Piece = Char(c: char) | Coded(high: char, low: char) | Lone | Last

  /** What a percent sign by itself may not be followed by. */
  predicate TwoDigits(s: string) {
    |s| >= 2 && IsHex(s[0]) && IsHex(s[1])
  }

  predicate GoodPieces(ps: seq<Piece>) {
    ps != [] ==>
      && GoodPieces(ps[1..])
      && match ps[0]
         case Char(c) => c != '%'
         case Coded(high, low) => IsHex(high) && IsHex(low)
         case Lone => WrittenAll(ps[1..]) != "" && !TwoDigits(WrittenAll(ps[1..]))
         case Last => ps[1..] == []
  }

  function Written(p: Piece): string {
    match p
    case Char(c) => [c]
    case Coded(high, low) => ['%', high, low]
    case Lone => "%"
    case Last => "%"
  }

  function WrittenAll(ps: seq<Piece>): string {
    if ps == [] then "" else Written(ps[0]) + WrittenAll(ps[1..])
  }

  function Meaning(p: Piece): string
    requires p.Coded? ==> IsHex(p.high) && IsHex(p.low)
  {
    match p
    case Char(c) => [c]
    case Coded(high, low) => [(16 * HexValue(high) + HexValue(low)) as char]
    case Lone => ""
    case Last => "%"
  }

  function MeaningAll(ps: seq<Piece>): string
    requires GoodPieces(ps)
  {
    if ps == [] then "" else Meaning(ps[0]) + MeaningAll(ps[1..])
  }

  /** The digits of either case. */
  lemma HexIs(c: char)
    ensures IsHex(c) <==> c in HEX
  {
    if '0' <= c <= '9' {
      assert HEX[c as int - '0' as int] == c;
    } else if 'A' <= c <= 'F' {
      assert HEX[10 + c as int - 'A' as int] == c;
    } else if 'a' <= c <= 'f' {
      assert HEX[16 + c as int - 'a' as int] == c;
    }
  }

  lemma PieceDecode(p: Piece, rest: string)
    requires p.Char? ==> p.c != '%'
    requires p.Coded? ==> IsHex(p.high) && IsHex(p.low)
    requires p.Lone? ==> rest != "" && !TwoDigits(rest)
    requires p.Last? ==> rest == ""
    ensures PercentDecode(Written(p) + rest) == Meaning(p) + PercentDecode(rest)
  {
    hide HexValue, IsHex;
    var s := Written(p) + rest;
    if p.Coded? {
      assert s[3..] == rest;
    } else {
      assert s[1..] == rest;
    }
  }

  /** Every text of such pieces is decoded to what they mean. */
  lemma {:induction false} PiecesDecode(ps: seq<Piece>)
    requires GoodPieces(ps)
    ensures PercentDecode(WrittenAll(ps)) == MeaningAll(ps)
    decreases |ps|
  {
    hide IsHex, TwoDigits, PercentDecode, Written, Meaning;
    if ps == [] {
      PercentEnd();
    } else {
      PiecesDecode(ps[1..]);
      PieceDecode(ps[0], WrittenAll(ps[1..]));
    }
  }

  /** And every text is one of such pieces. */
  lemma {:induction false} PiecesOf(s: string) returns (ps: seq<Piece>)
    ensures GoodPieces(ps) && WrittenAll(ps) == s
    decreases |s|
  {
    if s == "" {
      ps := [];
    } else if s == "%" {
      ps := [Last];
      assert ps[1..] == [];
    } else if s[0] == '%' && TwoDigits(s[1..]) {
      var others := PiecesOf(s[3..]);
      ps := [Coded(s[1], s[2])] + others;
      assert ps[1..] == others && s == s[..3] + s[3..];
    } else {
      var others := PiecesOf(s[1..]);
      ps := [if s[0] == '%' then Lone else Char(s[0])] + others;
      assert ps[1..] == others && s == [s[0]] + s[1..];
    }
  }

  // ------------------------------------------------------------------------------- wildcards

  /** A pattern with one star in it: its beginning and its end, which do not overlap. */
  lemma OneStar(before: string, behind: string, s: string)
    requires '*' !in before && '*' !in behind
    ensures Glob.Matches(before + "*" + behind, s) <==>
              |before| + |behind| <= |s| && before <= s && s[|s| - |behind|..] == behind
  {
    hide Glob.Matches;
    var pattern := before + ("*" + behind);
    assert before + "*" + behind == pattern;
    Beginning(before, "*" + behind, s);
    if before <= s {
      var t := s[|before|..];
      Glob.MatchStar("*" + behind, t);
      assert ("*" + behind)[1..] == behind;
      forall k | 0 <= k <= |t|
        ensures Glob.Matches(behind, t[k..]) <==> t[k..] == behind
      {
        NoStar(behind, t[k..]);
      }
      if |behind| <= |t| {
        assert t[|t| - |behind|..] == s[|s| - |behind|..];
      }
    }
  }

  /** A pattern without stars matches itself. */
  lemma NoStar(p: string, s: string)
    requires '*' !in p
    ensures Glob.Matches(p, s) <==> s == p
  {
    hide Glob.Matches;
    Beginning(p, "", s);
    assert p + "" == p;
    if p <= s {
      Glob.MatchEmpty(s[|p|..]);
      assert s == p + s[|p|..];
    }
  }

  /** Other characters stand for themselves. */
  lemma {:induction false} Beginning(x: string, p: string, s: string)
    requires '*' !in x
    ensures Glob.Matches(x + p, s) <==> x <= s && Glob.Matches(p, s[if x <= s then |x| else 0..])
    decreases |x|
  {
    hide Glob.Matches;
    if x == "" {
      assert x + p == p && s[0..] == s;
    } else {
      assert x[0] in x && forall c :: c in x[1..] ==> c in x;
      Glob.MatchChar(x + p, s);
      assert (x + p)[1..] == x[1..] + p;
      if s != "" {
        Beginning(x[1..], p, s[1..]);
        assert x <= s <==> x[0] == s[0] && x[1..] <= s[1..] by { PrefixSplit(x, s); }
        if x <= s {
          assert s[1..][|x| - 1..] == s[|x|..];
        }
      }
    }
  }

  lemma PrefixSplit(x: string, s: string)
    requires x != "" && s != ""
    ensures x <= s <==> x[0] == s[0] && x[1..] <= s[1..]
  {
    if x[0] == s[0] && x[1..] <= s[1..] {
      assert x == [x[0]] + x[1..] && s == [s[0]] + s[1..];
    }
  }
}
