/** The tables of the string escapes, and which texts a number and a string literal are read from. */
module JsonTexts {
  import opened Common
  import opened JsonSpec
  import opened JsonRoundTrip
  import opened JsonLiteral
  import opened JsonLocal

  // -------------------------------------------------------------------------------- tables

  /** Section 7 of RFC 8259, read: the letters that stand for a control character, */
  lemma LettersRead(rest: string)
    ensures Unescape("b" + rest) == Some(([8 as char], rest))
    ensures Unescape("f" + rest) == Some(([12 as char], rest))
    ensures Unescape("n" + rest) == Some(([10 as char], rest))
    ensures Unescape("r" + rest) == Some(([13 as char], rest))
    ensures Unescape("t" + rest) == Some(([9 as char], rest))
  {
    hide Unicode;
    assert ("b" + rest)[1..] == rest && ("f" + rest)[1..] == rest && ("n" + rest)[1..] == rest;
    assert ("r" + rest)[1..] == rest && ("t" + rest)[1..] == rest;
  }

  /** and the quote, the backslash, the slash and any other character, which stand for themselves. */
  lemma OthersRead(c: char, rest: string)
    requires c !in "bfnrtu"
    ensures Unescape([c] + rest) == Some(([c], rest))
    ensures Unescape("\"" + rest) == Some(("\"", rest))
    ensures Unescape("\\" + rest) == Some(("\\", rest))
    ensures Unescape("/" + rest) == Some(("/", rest))
    ensures Unescape([]).None?
  {
    OtherRead(c, rest);
    OtherRead('"', rest);
    OtherRead('\\', rest);
    OtherRead('/', rest);
    hide Unicode;
  }

  lemma OtherRead(c: char, rest: string)
    requires c !in "bfnrtu"
    ensures Unescape([c] + rest) == Some(([c], rest))
  {
    hide Unicode;
    assert ([c] + rest)[1..] == rest;
  }

  /** The same section, written: what must be escaped, and the other control characters. */
  lemma EscapesWritten(c: char)
    ensures Escaped('"') == "\\\"" && Escaped('\\') == "\\\\"
    ensures Escaped(8 as char) == "\\b" && Escaped(12 as char) == "\\f" && Escaped(10 as char) == "\\n"
    ensures Escaped(13 as char) == "\\r" && Escaped(9 as char) == "\\t"
    ensures Escaped(1 as char) == "\\u0001" && Escaped(11 as char) == "\\u000b" && Escaped(31 as char) == "\\u001f"
    ensures c as int >= 32 && c != '"' && c != '\\' ==> Escaped(c) == [c]
    ensures c as int < 32 && c as int !in {8, 9, 10, 12, 13} ==>
              |Escaped(c)| == 6 && Escaped(c)[..4] == "\\u00"
              && HexValue(Escaped(c)[4]) * 16 + HexValue(Escaped(c)[5]) == c as int
  {
  }

  const LOWER := "0123456789abcdef"
  const UPPER := "0123456789ABCDEF"

  /** A hexadecimal digit is worth its place among them; no other character is worth anything. */
  lemma HexDigits(v: nat, c: char)
    requires v < 16
    ensures HexValue(LOWER[v]) == v == HexValue(UPPER[v]) && HexDigit(v) == LOWER[v]
    ensures c !in LOWER && c !in UPPER ==> HexValue(c) == -1
  {
    if '0' <= c <= '9' {
      assert LOWER[c as int - '0' as int] == c;
    } else if 'a' <= c <= 'f' {
      assert LOWER[10 + c as int - 'a' as int] == c;
    } else if 'A' <= c <= 'F' {
      assert UPPER[10 + c as int - 'A' as int] == c;
    }
  }

  // ------------------------------------------------------------------------------ literals

  /** What is between the quotes: a character, an escape of one, an escape in four digits, and two of
      these that are taken together since the first is the first half of a pair. */
  datatype Piece = Char(c: char) | Escape(letter: char) | Unit(digits: string) | Halves(digits: string, low: string)

  /** Four hexadecimal digits as a number; anything else is worth 0. */
  function UnitOf(h: string): int
    requires |h| == 4
  {
    var a, b, c, d := HexValue(h[0]), HexValue(h[1]), HexValue(h[2]), HexValue(h[3]);
    if a == -1 || b == -1 || c == -1 || d == -1 then 0 else 4096 * a + 256 * b + 16 * c + d
  }

  predicate FirstHalf(h: string)
    requires |h| == 4
  {
    0xD800 <= UnitOf(h) <= 0xDBFF
  }

  /** No digit may be a quote or a backslash. */
  predicate Four(h: string) {
    |h| == 4 && '"' !in h && '\\' !in h
  }

  predicate GoodPiece(p: Piece) {
    match p
    case Char(c) => c != '"' && c != '\\'
    case Escape(letter) => letter != 'u'
    case Unit(h) => Four(h)
    case Halves(h, low) => Four(h) && Four(low) && FirstHalf(h)
  }

  /** A first half by itself has no escape in digits behind it. */
  predicate GoodPieces(ps: seq<Piece>) {
    ps != [] ==>
      && GoodPiece(ps[0]) && GoodPieces(ps[1..])
      && (ps[0].Unit? && FirstHalf(ps[0].digits) && |ps| > 1 ==> !ps[1].Unit? && !ps[1].Halves?)
  }

  function Spelled(p: Piece): string {
    match p
    case Char(c) => [c]
    case Escape(letter) => ['\\', letter]
    case Unit(h) => "\\u" + h
    case Halves(h, low) => "\\u" + (h + ("\\u" + low))
  }

  function SpelledAll(ps: seq<Piece>): string {
    if ps == [] then "" else Spelled(ps[0]) + SpelledAll(ps[1..])
  }

  /** No character is 0 in a C string, and no half of a pair is one; a pair is one character. */
  function PieceMeaning(p: Piece): string
    requires GoodPiece(p)
  {
    match p
    case Char(c) => [c]
    case Escape(letter) =>
      if letter == 'b' then [8 as char] else if letter == 'f' then [12 as char] else if letter == 'n' then [10 as char]
      else if letter == 'r' then [13 as char] else if letter == 't' then [9 as char] else [letter]
    case Unit(h) => if UnitOf(h) == 0 || 0xD800 <= UnitOf(h) <= 0xDFFF then "" else Utf8(UnitOf(h))
    case Halves(h, low) =>
      if 0xDC00 <= UnitOf(low) <= 0xDFFF
      then Utf8(0x10000 + (UnitOf(h) - 0xD800) * 0x400 + (UnitOf(low) - 0xDC00))
      else ""
  }

  function PiecesMeaning(ps: seq<Piece>): string
    requires GoodPieces(ps)
  {
    if ps == [] then "" else PieceMeaning(ps[0]) + PiecesMeaning(ps[1..])
  }

  lemma UnitIsHex4(h: string)
    requires |h| == 4
    ensures Hex4(h) == UnitOf(h)
  {
  }

  lemma FourIsInner(h: string)
    requires |h| == 4
    ensures Four(h) <==> Inner(h)
  {
  }

  /** One piece, read in front of anything; `alone` if no escape in digits follows. */
  lemma PieceRead(p: Piece, s: string)
    requires GoodPiece(p)
    requires p.Unit? && FirstHalf(p.digits) ==> !("\\u" <= s)
    ensures Characters(Spelled(p) + s) == Before(PieceMeaning(p), Characters(s))
    ensures Tidy(Spelled(p) + s) == Tidy(s)
  {
    hide Characters, Tidy, Utf8, UnitOf, Hex4;
    match p
    case Char(c) =>
      OneCharacter(c, s);
    case Escape(letter) =>
      TwoCharacters(letter, s);
      EscapeMeaning(letter);
    case Unit(h) =>
      FourIsInner(h);
      UnitIsHex4(h);
      OneUnicode(h, s);
      UnicodeTidy(h, s);
      assert Spelled(p) + s == "\\u" + (h + s);
    case Halves(h, low) =>
      FourIsInner(h);
      FourIsInner(low);
      UnitIsHex4(h);
      UnitIsHex4(low);
      TwoUnicode(h, low, s);
      UnicodeTidy(low, s);
      UnicodeTidy(h, "\\u" + (low + s));
      assert Spelled(p) + s == "\\u" + (h + ("\\u" + (low + s)));
  }

  lemma EscapeMeaning(letter: char)
    requires letter != 'u'
    ensures Unescape([letter]) == Some((PieceMeaning(Escape(letter)), []))
  {
    hide Unicode, Utf8, UnitOf;
    assert [letter][1..] == [];
  }

  /** The text of any pieces and a closing quote is a tidy literal with their meaning. */
  lemma {:induction false} PiecesRead(ps: seq<Piece>, rest: string)
    requires GoodPieces(ps)
    ensures var s := SpelledAll(ps) + ("\"" + rest);
      Tidy(s) && Characters(s) == Some((PiecesMeaning(ps), rest))
  {
    hide GoodPiece, FirstHalf, PieceMeaning, Spelled, Characters, Tidy;
    var end := "\"" + rest;
    if ps == [] {
      assert SpelledAll(ps) + end == end;
      QuoteRead(rest);
    } else {
      PiecesRead(ps[1..], rest);
      NextPiece(ps[1..], rest);
      PieceRead(ps[0], SpelledAll(ps[1..]) + end);
      assert SpelledAll(ps) + end == Spelled(ps[0]) + (SpelledAll(ps[1..]) + end);
    }
  }

  lemma QuoteRead(rest: string)
    ensures Tidy("\"" + rest) && Characters("\"" + rest) == Some(([], rest))
  {
    assert ("\"" + rest)[1..] == rest;
  }

  lemma NextPiece(ps: seq<Piece>, rest: string)
    requires GoodPieces(ps)
    ensures "\\u" <= SpelledAll(ps) + ("\"" + rest) <==> ps != [] && (ps[0].Unit? || ps[0].Halves?)
  {
    hide FirstHalf;
    var s := SpelledAll(ps) + ("\"" + rest);
    if ps == [] {
      assert s[0] == '"';
    } else if ps[0].Char? {
      assert s[0] == ps[0].c;
    } else {
      assert s[0] == Spelled(ps[0])[0] == '\\' && s[1] == Spelled(ps[0])[1];
    }
  }

  /** A literal as the grammar has it is read as what it means. */
  lemma LiteralRead(ps: seq<Piece>, rest: string)
    requires GoodPieces(ps)
    ensures ParseString("\"" + SpelledAll(ps) + "\"" + rest) == Got(PiecesMeaning(ps), rest)
  {
    hide GoodPieces, Characters, Tidy, Measure, PiecesMeaning, SpelledAll;
    var s := SpelledAll(ps) + ("\"" + rest);
    PiecesRead(ps, rest);
    TidyIsRead(s);
    assert "\"" + SpelledAll(ps) + "\"" + rest == "\"" + s && ("\"" + s)[1..] == s;
  }

  /** The first piece of a tidy literal. */
  lemma FirstOf(s: string) returns (p: Piece, rest: string)
    requires Tidy(s) && s[0] != '"'
    ensures GoodPiece(p) && s == Spelled(p) + rest && |rest| < |s| && Tidy(rest)
    ensures p.Unit? && FirstHalf(p.digits) ==> !("\\u" <= rest)
  {
    hide FirstHalf, UnitOf;
    if s[0] != '\\' {
      p, rest := Char(s[0]), s[1..];
    } else if !Starts(s[1..], 'u') {
      p, rest := Escape(s[1]), s[2..];
      assert s[1..][0] == s[1];
    } else {
      var h := s[2..6];
      FourIsInner(h);
      p, rest := Unit(h), s[6..];
      assert s[1] == s[1..][0] == 'u';
      assert s == "\\u" + h + rest;
      if FirstHalf(h) && "\\u" <= rest {
        p, rest := SecondOf(h, rest);
      }
    }
  }

  lemma SecondOf(h: string, t: string) returns (p: Piece, rest: string)
    requires Four(h) && FirstHalf(h) && "\\u" <= t && Tidy(t)
    ensures GoodPiece(p) && p.Halves? && "\\u" + h + t == Spelled(p) + rest && |rest| < |t| && Tidy(rest)
  {
    hide FirstHalf;
    assert t[0] == '\\' && t[1..][0] == 'u';
    var low := t[2..6];
    FourIsInner(low);
    p, rest := Halves(h, low), t[6..];
    assert t == "\\u" + low + rest;
  }

  /** Every tidy literal is one of the grammar. */
  lemma {:induction false} PiecesOf(s: string) returns (ps: seq<Piece>, rest: string)
    requires Tidy(s)
    ensures GoodPieces(ps) && s == SpelledAll(ps) + ("\"" + rest)
    decreases |s|
  {
    if s[0] == '"' {
      ps, rest := [], s[1..];
    } else {
      hide FirstHalf, Tidy, GoodPiece, Spelled;
      var p, t := FirstOf(s);
      var others;
      others, rest := PiecesOf(t);
      NextPiece(others, rest);
      ps := [p] + others;
      assert ps[1..] == others;
      assert Spelled(p) + (SpelledAll(others) + ("\"" + rest)) == SpelledAll(ps) + ("\"" + rest);
    }
  }

  // ------------------------------------------------------------------------------- numbers

  /** What a number may look like: a minus, a zero, digits that do not begin with one, a fraction, an
      exponent whose digits may be missing. */
  datatype Num = Num(minus: bool, zero: bool, whole: string, fraction: string, power: Option<Power>)

  predicate GoodNum(x: Num) {
    && AllDigits(x.whole) && (x.whole != "" ==> x.whole[0] != '0') && AllDigits(x.fraction)
    && (x.minus || x.zero || x.whole != "")
    && (x.power.Some? ==> GoodPower(x.power.value))
  }

  predicate GoodPower(e: Power) {
    (e.letter == 'e' || e.letter == 'E') && (e.sign == "" || e.sign == "+" || e.sign == "-") && AllDigits(e.digits)
  }

  function PowerText(x: Num): string {
    match x.power
    case None => ""
    case Some(e) => [e.letter] + (e.sign + e.digits)
  }

  function PointText(x: Num): string {
    if x.fraction == "" then "" else "." + x.fraction
  }

  function WholeText(x: Num): string {
    (if x.zero then "0" else "") + x.whole
  }

  function NumText(x: Num): string {
    (if x.minus then "-" else "") + (WholeText(x) + (PointText(x) + PowerText(x)))
  }

  function PowerOf(x: Num): int
    requires GoodNum(x)
  {
    match x.power
    case None => 0
    case Some(e) => if e.sign == "-" then 0 - ValueOf(e.digits) else ValueOf(e.digits)
  }

  function Unsigned(minus: bool, r: real): real {
    if minus then 0.0 - r else r
  }

  function Down(e: int): nat {
    if e < 0 then 0 - e else 0
  }

  function Up(e: int): nat {
    if e < 0 then 0 else e
  }

  /** The value, by multiplication: it times the powers of ten it is divided by is the digits times the
      powers it is multiplied by. */
  predicate IsValue(x: Num, r: real)
    requires GoodNum(x)
  {
    var d, e := Power10(|x.fraction|), PowerOf(x);
    Balances(Unsigned(x.minus, r), d, Power10(Down(e)), (ValueOf(x.whole) * d + ValueOf(x.fraction)) * Power10(Up(e)))
  }

  predicate Balances(r: real, d: nat, e: nat, m: nat) {
    r * d as real * e as real == m as real
  }

  lemma PowerPositive(d: nat)
    ensures Power10(d) > 0
  {
  }

  lemma Pow10Next(k: int)
    ensures Pow10(k + 1) == 10.0 * Pow10(k)
  {
  }

  /** Shifting by d places and back. */
  lemma {:induction false} Pow10Shift(e: int, d: nat)
    ensures Pow10(e - d) * Power10(d) as real == Pow10(e)
    decreases d
  {
    if d > 0 {
      Pow10Shift(e, d - 1);
      Pow10Next(e - d);
      hide Pow10;
      var a, p := Pow10(e - d), Power10(d - 1) as real;
      assert Power10(d) as real == 10.0 * p;
      assert a * (10.0 * p) == (10.0 * a) * p;
    }
  }

  lemma {:induction false} Pow10Whole(d: nat)
    ensures Pow10(d) == Power10(d) as real
    decreases d
  {
    if d > 0 {
      Pow10Whole(d - 1);
    }
  }

  lemma Regrouped(a: real, b: real, c: real)
    ensures a * b * c == a * (b * c)
  {
  }

  lemma ProductOf(a: nat, b: nat)
    ensures (a * b) as real == a as real * b as real
  {
  }

  /** Multiplying by a power of ten, or back from one. */
  lemma Pow10Either(e: int)
    ensures Pow10(e) * Power10(Down(e)) as real == Power10(Up(e)) as real
  {
    assert Power10(0) == 1 && Pow10(0) == 1.0;
    if e < 0 {
      Pow10Shift(0, 0 - e);
    } else {
      Pow10Whole(e);
    }
    hide Pow10, Power10;
  }

  /** Digits m shifted by e, d of them behind the point. */
  lemma ScaledValue(m: nat, e: int, d: nat)
    ensures m as real * Pow10(e - d) * Power10(d) as real * Power10(Down(e)) as real == (m * Power10(Up(e))) as real
  {
    hide Pow10, Power10, Up, Down;
    Pow10Shift(e, d);
    Pow10Either(e);
    Regrouped(m as real, Pow10(e - d), Power10(d) as real);
    Regrouped(m as real, Pow10(e), Power10(Down(e)) as real);
    ProductOf(m, Power10(Up(e)));
  }

  lemma WholeRead(x: Num, t: string)
    requires GoodNum(x) && !StartsDigit(t)
    ensures IntegerPart(WholeText(x) + t) == (ValueOf(x.whole) as real, t)
  {
    hide ValueOf, Digits;
    var s := WholeText(x) + t;
    var u := x.whole + t;
    assert s == (if x.zero then "0" else "") + u;
    assert x.zero ==> s[0] == '0' && s[1..] == u;
    DigitsMeaning(0, x.whole, t);
    assert 0 * Power10(|x.whole|) == 0;
    if x.whole == "" {
      assert u == t;
      NoDigits();
    } else {
      assert u[0] == x.whole[0] && IsDigit(x.whole[0]);
      assert !x.zero ==> s == u;
    }
  }

  lemma NoDigits()
    ensures ValueOf("") == 0
  {
  }

  lemma PointRead(x: Num, t: string)
    requires GoodNum(x) && !StartsDigit(t) && !Starts(t, '.')
    ensures var s, n := PointText(x) + t, ValueOf(x.whole);
      && HasFraction(s) == (x.fraction != "")
      && (if HasFraction(s) then Digits(n as real, s[1..]) else (n as real, s))
         == ((n * Power10(|x.fraction|) + ValueOf(x.fraction)) as real, t)
  {
    var s, n := PointText(x) + t, ValueOf(x.whole);
    if x.fraction == "" {
      assert s == t;
    } else {
      assert s[1..] == x.fraction + t;
      DigitsMeaning(n, x.fraction, t);
    }
  }

  lemma PowerRead(x: Num, rest: string)
    requires GoodNum(x) && EndsNumber(rest)
    ensures Exponent(PowerText(x) + rest) == (PowerOf(x), rest)
  {
    hide GoodPower, ValueOf, Digits, NumberChar;
    match x.power
    case None =>
      assert "" + rest == rest;
      assert rest != [] ==> NumberChar('e') && NumberChar('E') by { Letters(); }
    case Some(e) =>
      SomePower(e, rest);
      assert PowerText(x) + rest == [e.letter] + (e.sign + (e.digits + rest));
  }

  lemma Letters()
    ensures NumberChar('e') && NumberChar('E')
  {
  }

  lemma SomePower(e: Power, rest: string)
    requires GoodPower(e) && EndsNumber(rest)
    ensures Exponent([e.letter] + (e.sign + (e.digits + rest)))
            == (if e.sign == "-" then 0 - ValueOf(e.digits) else ValueOf(e.digits), rest)
  {
    var t := e.sign + (e.digits + rest);
    NoDigitEnds(rest);
    DigitsMeaning(0, e.digits, rest);
    SignRead(e, rest);
    hide Digits, ValueOf, AllDigits, Power10, Exponent, Starts;
    assert 0 * Power10(|e.digits|) == 0;
    ReadPower([e.letter] + t, t, ValueOf(e.digits), rest);
  }

  lemma NoDigitEnds(rest: string)
    requires EndsNumber(rest)
    ensures !StartsDigit(rest)
  {
  }

  lemma SignRead(e: Power, rest: string)
    requires GoodPower(e) && EndsNumber(rest)
    ensures var t := e.sign + (e.digits + rest);
      && Starts(t, '-') == (e.sign == "-")
      && (if Starts(t, '+') || Starts(t, '-') then t[1..] else t) == e.digits + rest
  {
    var t, u := e.sign + (e.digits + rest), e.digits + rest;
    assert e.digits == "" ==> u == rest;
    assert e.digits != "" ==> u[0] == e.digits[0] && IsDigit(u[0]);
    assert e.sign == "" ==> t == u;
    assert e.sign != "" ==> t[0] == e.sign[0] && t[1..] == u;
  }

  lemma NumSplit(x: Num, rest: string)
    requires GoodNum(x) && EndsNumber(rest)
    ensures var s, t := NumText(x) + rest, WholeText(x) + (PointText(x) + (PowerText(x) + rest));
      && (Starts(s, '-') || StartsDigit(s)) && (s[0] == '-') == x.minus
      && (if s[0] == '-' then s[1..] else s) == t
    ensures var e := PowerText(x) + rest;
      !StartsDigit(e) && !Starts(e, '.') && !StartsDigit(PointText(x) + e)
  {
    hide PowerText, PointText;
    var s, e := NumText(x) + rest, PowerText(x) + rest;
    var t := WholeText(x) + (PointText(x) + e);
    assert s == (if x.minus then "-" else "") + t;
    assert WholeText(x) != "" ==> t[0] == WholeText(x)[0] && IsDigit(t[0]);
    TailBegins(x, rest);
    assert WholeText(x) == "" ==> x.minus;
  }

  lemma TailBegins(x: Num, rest: string)
    requires GoodNum(x) && EndsNumber(rest)
    ensures var e := PowerText(x) + rest;
      !StartsDigit(e) && !Starts(e, '.') && !StartsDigit(PointText(x) + e)
  {
    var e := PowerText(x) + rest;
    assert x.power.None? ==> e == rest;
    assert x.fraction == "" ==> PointText(x) + e == e;
  }

  lemma NumReadAs(x: Num, rest: string)
    requires GoodNum(x) && EndsNumber(rest)
    ensures var s, d := NumText(x) + rest, |x.fraction|;
      var m := (ValueOf(x.whole) * Power10(d) + ValueOf(x.fraction)) as real;
      && (Starts(s, '-') || StartsDigit(s))
      && ParseNumber(s) == Got(Number(Scaled(x.minus, m, PowerOf(x) - d)), rest)
  {
    hide ParseNumber, Digits, IntegerPart, Exponent, Scaled, ValueOf, Power10, PowerOf, HasFraction;
    hide NumText, WholeText, PowerText, EndsNumber, GoodPower;
    var d := |x.fraction|;
    var m := (ValueOf(x.whole) * Power10(d) + ValueOf(x.fraction)) as real;
    var t := PowerText(x) + rest;
    NumSplit(x, rest);
    WholeRead(x, PointText(x) + t);
    PointRead(x, t);
    PowerRead(x, rest);
    PointLength(x);
    NumberParts(NumText(x) + rest, (ValueOf(x.whole) as real, PointText(x) + t), (m, t), 0 - d, (PowerOf(x), rest));
  }

  lemma PointLength(x: Num)
    ensures |PointText(x)| == if x.fraction == "" then 0 else 1 + |x.fraction|
  {
  }

  lemma NumValue(x: Num) returns (r: real)
    requires GoodNum(x)
    ensures var d := |x.fraction|;
      r == Scaled(x.minus, (ValueOf(x.whole) * Power10(d) + ValueOf(x.fraction)) as real, PowerOf(x) - d)
    ensures IsValue(x, r)
  {
    hide ValueOf, PowerOf, Pow10, Power10, Up, Down, Unsigned;
    var d := |x.fraction|;
    var m := ValueOf(x.whole) * Power10(d) + ValueOf(x.fraction);
    r := Scaled(x.minus, m as real, PowerOf(x) - d);
    ScaledSign(x.minus, m, PowerOf(x) - d, r);
    ScaledValue(m, PowerOf(x), d);
  }

  /** A number as the grammar has it is read as its value, if nothing behind it carries it on. */
  lemma NumRead(x: Num, rest: string) returns (r: real)
    requires GoodNum(x) && EndsNumber(rest)
    ensures IsValue(x, r)
    ensures var s := NumText(x) + rest;
      (Starts(s, '-') || StartsDigit(s)) && ParseNumber(s) == Got(Number(r), rest)
  {
    hide *;
    r := NumValue(x);
    NumReadAs(x, rest);
  }

  lemma ScaledSign(minus: bool, m: nat, e: int, r: real)
    requires r == Scaled(minus, m as real, e)
    ensures Unsigned(minus, r) == m as real * Pow10(e)
  {
  }

  /** The value is the only one. */
  lemma OneValue(x: Num, r: real, q: real)
    requires GoodNum(x) && IsValue(x, r) && IsValue(x, q)
    ensures r == q
  {
    hide Balances, ValueOf, PowerOf, Power10, AllDigits, Down, Up;
    var d, e := |x.fraction|, PowerOf(x);
    PowerPositive(d);
    PowerPositive(Down(e));
    CancelBoth(Unsigned(x.minus, r), Unsigned(x.minus, q), Power10(d), Power10(Down(e)),
               (ValueOf(x.whole) * Power10(d) + ValueOf(x.fraction)) * Power10(Up(e)));
  }

  lemma CancelBoth(a: real, b: real, d: nat, e: nat, m: nat)
    requires Balances(a, d, e, m) && Balances(b, d, e, m) && d > 0 && e > 0
    ensures a == b
  {
    CancelFactor(a * d as real, b * d as real, e as real);
    CancelFactor(a, b, d as real);
  }

  lemma CancelFactor(a: real, b: real, k: real)
    requires a * k == b * k && k > 0.0
    ensures a == b
  {
    assert (a - b) * k == 0.0;
  }

  lemma {:induction false} DigitsTaken(n: real, s: string) returns (x: string)
    ensures s == x + Digits(n, s).1 && AllDigits(x) && !StartsDigit(Digits(n, s).1)
    ensures if StartsDigit(s) then x != "" && x[0] == s[0] else x == ""
    decreases |s|
  {
    x := "";
    if StartsDigit(s) {
      x := DigitsTaken(n * 10.0 + DigitValue(s[0]) as real, s[1..]);
      x := [s[0]] + x;
    }
  }

  lemma WholeTaken(s: string) returns (zero: bool, x: string)
    ensures s == (if zero then "0" else "") + (x + IntegerPart(s).1)
    ensures AllDigits(x) && (x != "" ==> x[0] != '0')
    ensures StartsDigit(s) ==> zero || x != ""
  {
    hide Digits;
    zero := Starts(s, '0');
    var t := if zero then s[1..] else s;
    x := "";
    if StartsDigit(t) && t[0] != '0' {
      x := DigitsTaken(0.0, t);
    }
    assert zero ==> s == "0" + t;
    assert !zero ==> s == "" + t;
  }

  lemma PointTaken(n: real, s: string) returns (x: string)
    ensures var rest := if HasFraction(s) then Digits(n, s[1..]).1 else s;
      s == (if x == "" then "" else "." + x) + rest
    ensures AllDigits(x)
  {
    hide Digits;
    x := "";
    if HasFraction(s) {
      x := DigitsTaken(n, s[1..]);
      assert s == "." + s[1..];
    }
  }

  lemma PowerTaken(s: string) returns (power: Option<Power>)
    ensures power.Some? ==> GoodPower(power.value)
    ensures s == (match power case None => "" case Some(e) => [e.letter] + (e.sign + e.digits)) + Exponent(s).1
  {
    hide Digits, Powers, Exponent;
    ExponentIsPowers(s);
    power := None;
    if Starts(s, 'e') || Starts(s, 'E') {
      var sign, digits := SignedTaken(s[1..]);
      power := Some(Power(s[0], sign, digits));
    }
  }

  lemma SignedTaken(t: string) returns (sign: string, digits: string)
    ensures t == sign + digits + Powers(t).1 && AllDigits(digits)
    ensures sign == "" || sign == "+" || sign == "-"
  {
    hide Digits, AllDigits;
    sign := if Starts(t, '+') then "+" else if Starts(t, '-') then "-" else "";
    var u := if Starts(t, '+') || Starts(t, '-') then t[1..] else t;
    digits := DigitsTaken(0.0, u);
    assert t == sign + u;
  }

  /** Every number is one of the grammar. */
  lemma NumOf(s: string) returns (x: Num)
    requires Starts(s, '-') || StartsDigit(s)
    ensures GoodNum(x) && s == NumText(x) + ParseNumber(s).rest
  {
    hide ParseNumber, Digits, IntegerPart, Exponent, Scaled, AllDigits, GoodPower, HasFraction, NumText, GoodNum;
    hide WholeText, PointText, PowerText;
    var parts, digits, exponent := PartsOf(s);
    var t := if s[0] == '-' then s[1..] else s;
    var zero, whole := WholeTaken(t);
    var fraction := PointTaken(parts.0, parts.1);
    var power := PowerTaken(digits.1);
    x := Num(s[0] == '-', zero, whole, fraction, power);
    SignTaken(s, t);
    SomeNum(x);
    NumJoined(x, exponent.1);
  }

  lemma SignTaken(s: string, t: string)
    requires Starts(s, '-') || StartsDigit(s)
    requires t == if s[0] == '-' then s[1..] else s
    ensures s == (if s[0] == '-' then "-" else "") + t
    ensures s[0] == '-' || StartsDigit(t)
  {
  }

  lemma SomeNum(x: Num)
    requires AllDigits(x.whole) && (x.whole != "" ==> x.whole[0] != '0') && AllDigits(x.fraction)
    requires x.minus || x.zero || x.whole != ""
    requires x.power.Some? ==> GoodPower(x.power.value)
    ensures GoodNum(x)
  {
    hide AllDigits, GoodPower;
  }

  lemma NumJoined(x: Num, rest: string)
    ensures NumText(x) + rest
            == (if x.minus then "-" else "")
               + ((if x.zero then "0" else "")
                  + (x.whole
                     + ((if x.fraction == "" then "" else "." + x.fraction)
                        + ((match x.power case None => "" case Some(e) => [e.letter] + (e.sign + e.digits)) + rest))))
  {
    var a, z, f := if x.minus then "-" else "", if x.zero then "0" else "", PointText(x);
    var p := PowerText(x);
    JoinParts(a, z + x.whole, f, p, rest);
    JoinWhole(z, x.whole, f + (p + rest));
  }

  lemma JoinWhole(z: string, w: string, t: string)
    ensures z + (w + t) == z + w + t
  {
  }

  lemma JoinParts(a: string, b: string, c: string, d: string, rest: string)
    ensures a + (b + (c + (d + rest))) == a + (b + (c + d)) + rest
  {
  }

  /** Numbers with a fraction or an exponent. */
  lemma SomeNumbers()
    ensures ParseNumber("-1.5") == Got(Number(-1.5), "")
    ensures ParseNumber("12e2") == Got(Number(1200.0), "")
    ensures ParseNumber("0.25E-1") == Got(Number(0.025), "")
  {
    hide ParseNumber, Pow10;
    var a := Num(true, false, "1", "5", None);
    var b := Num(false, false, "12", "", Some(Power('e', "", "2")));
    var c := Num(false, true, "", "25", Some(Power('E', "-", "1")));
    ShortValues();
    ShortPowers();
    hide ValueOf, Power10;
    assert AllDigits("1") && AllDigits("5") && AllDigits("12") && AllDigits("2") && AllDigits("25") && AllDigits("");
    var r := NumRead(a, "");
    assert NumText(a) + "" == "-1.5";
    r := NumRead(b, "");
    assert NumText(b) + "" == "12e2";
    r := NumRead(c, "");
    assert NumText(c) + "" == "0.25E-1";
  }

  lemma ShortValues()
    ensures ValueOf("") == 0 && ValueOf("1") == 1 && ValueOf("2") == 2 && ValueOf("5") == 5
    ensures ValueOf("12") == 12 && ValueOf("25") == 25
  {
    assert "1"[..0] == "" && "2"[..0] == "" && "5"[..0] == "" && "12"[..1] == "1" && "25"[..1] == "2";
  }

  lemma ShortPowers()
    ensures Power10(0) == 1 && Power10(1) == 10 && Power10(2) == 100
  {
  }
}
