/** Vocabulary shared by the models: an optional value, the number formats of printf, and texts.
    A C char is a Dafny char. */
module Common {

  datatype Option<+T> = None | Some(value: T)

  predicate IsDigit(c: char) {
    '0' <= c <= '9'
  }

  function DigitChar(d: nat): (c: char)
    requires d < 10
    ensures IsDigit(c) && DigitValue(c) == d
  {
    ('0' as int + d) as char
  }

  function DigitValue(c: char): int {
    c as int - '0' as int
  }

  /** The text printf writes for %u and %zu. */
  function Decimal(n: nat): (s: string)
    ensures |s| >= 1
    ensures forall i :: 0 <= i < |s| ==> IsDigit(s[i])
    ensures n > 0 ==> s[0] != '0'
  {
    if n < 10 then [DigitChar(n)] else Decimal(n / 10) + [DigitChar(n % 10)]
  }

  /** The text printf writes for %d. */
  function Signed(n: int): string {
    if n < 0 then "-" + Decimal(-n) else Decimal(n)
  }

  /** Splits on the last digit: the recursion of Decimal, for callers that add characters. */
  lemma DecimalTail(n: nat, t: string)
    requires n >= 10
    ensures Decimal(n) + t == Decimal(n / 10) + ([DigitChar(n % 10)] + t)
  {
    assert Decimal(n) == Decimal(n / 10) + [DigitChar(n % 10)];
  }

  /** The value of a hexadecimal digit of either case, -1 for any other character. */
  function HexValue(c: char): (v: int)
    ensures -1 <= v < 16
  {
    if '0' <= c <= '9' then c as int - '0' as int
    else if 'A' <= c <= 'F' then 10 + c as int - 'A' as int
    else if 'a' <= c <= 'f' then 10 + c as int - 'a' as int
    else -1
  }

  predicate IsHex(c: char) {
    HexValue(c) >= 0
  }

  /** The digit printf writes for %x. */
  function HexDigit(d: nat): (c: char)
    requires d < 16
    ensures HexValue(c) == d && c < 128 as char
  {
    (if d < 10 then '0' as int + d else 'a' as int + d - 10) as char
  }

  /** The character at a position of a text, NUL at its end. */
  function Peek(text: string, at: nat): char {
    if at < |text| then text[at] else '\0'
  }

  function Concat<T>(chunks: seq<seq<T>>): seq<T> {
    if chunks == [] then [] else chunks[0] + Concat(chunks[1..])
  }
}
