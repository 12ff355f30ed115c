/** The bytes a reply may be, lenient as the reader is, and the bytes it fails on: the reader takes exactly
    these, at every depth. */
module RespWire {
  import opened Common
  import opened Resp
  import opened RespGrammar

  // -------------------------------------------------------------------------------- numbers

  /** What is in front of the first CR. */
  function UpToCR(s: string): (line: string)
    ensures |line| <= |s|
  {
    if s == "" || s[0] == '\r' then "" else [s[0]] + UpToCR(s[1..])
  }

  predicate Signs(line: string) {
    line != "" && (line[0] == '-' || line[0] == '+')
  }

  function DigitsOf(line: string): string {
    if Signs(line) then line[1..] else line
  }

  predicate AllDigits(s: string) {
    forall k :: 0 <= k < |s| ==> '0' <= s[k] <= '9'
  }

  /** Digits by place from the right. */
  function Places(s: string): nat
    requires AllDigits(s)
  {
    if s == "" then 0 else Places(s[..|s| - 1]) * 10 + (s[|s| - 1] as int - '0' as int)
  }

  /** The number a line is read as: its digits, if there is nothing else but a sign in front of the first
      CR, as far as a long long holds them; -1 otherwise. */
  predicate NumberIs(text: string, n: int) {
    var line := UpToCR(text);
    var digits := DigitsOf(line);
    if AllDigits(digits) then LongIs(if line != "" && line[0] == '-' then 0 - Places(digits) else Places(digits), n)
    else n == -1
  }

  /** What a long long keeps of a value. */
  predicate LongIs(v: int, n: int) {
    -0x8000_0000_0000_0000 <= n < 0x8000_0000_0000_0000 && (v - n) % 0x1_0000_0000_0000_0000 == 0
  }

  /** What is left of it in an int, as a size_t has it: a negative int is close to 2 to the 64. */
  predicate SizeIs(n: int, size: nat) {
    && (n - size) % 0x1_0000_0000 == 0
    && (size < 0x8000_0000 || 0xFFFF_FFFF_8000_0000 <= size < 0x1_0000_0000_0000_0000)
  }

  lemma WrapIs(v: int, n: int)
    ensures n == Wrap64(v) <==> LongIs(v, n)
  {
    var q := (v + TWO64 / 2) / TWO64;
    assert v == Wrap64(v) + TWO64 * q;
  }

  lemma CutIs(n: int, size: nat)
    ensures size == SizeT(Cut32(n)) <==> SizeIs(n, size)
    ensures SizeIs(n, size) && 0 < size < 0x8000_0000 ==> size == Cut32(n)
    ensures Cut32(n) > 0 ==> SizeIs(n, Cut32(n))
  {
    var q := (n + TWO32 / 2) / TWO32;
    assert n == Cut32(n) + TWO32 * q;
  }

  /** The digits carried on from v. */
  function Carried(v: nat, s: string): nat
    requires AllDigits(s)
    decreases |s|
  {
    if s == "" then v else Carried(v * 10 + (s[0] as int - '0' as int), s[1..])
  }

  lemma {:induction false} CarriedLast(v: nat, s: string)
    requires AllDigits(s) && s != ""
    ensures Carried(v, s) == Carried(v, s[..|s| - 1]) * 10 + (s[|s| - 1] as int - '0' as int)
    decreases |s|
  {
    var n := |s| - 1;
    if n == 0 {
      assert s[..n] == "" && s[1..] == "";
    } else {
      CarriedLast(v * 10 + (s[0] as int - '0' as int), s[1..]);
      assert s[1..][..n - 1] == s[..n][1..] && s[1..][n - 1] == s[n];
    }
  }

  lemma {:induction false} CarriedIsPlaces(s: string)
    requires AllDigits(s)
    ensures Carried(0, s) == Places(s)
  {
    if s != "" {
      CarriedLast(0, s);
      CarriedIsPlaces(s[..|s| - 1]);
    }
  }

  lemma {:induction false} DigitsRead(v: nat, text: string, tail: string)
    requires tail != "" && tail[0] == '\r'
    ensures var digits := UpToCR(text);
      ReadDigits(Wrap64(v), text + tail) == if AllDigits(digits) then Some(Wrap64(Carried(v, digits))) else None
    decreases |text|
  {
    hide Wrap64;
    if text == "" {
      assert text + tail == tail;
    } else if text[0] == '\r' {
      assert (text + tail)[0] == '\r';
    } else {
      var digits, rest := UpToCR(text), UpToCR(text[1..]);
      assert (text + tail)[1..] == text[1..] + tail && (text + tail)[0] == text[0];
      assert digits == [text[0]] + rest && digits[1..] == rest;
      if IsDigit(text[0]) {
        var d := DigitValue(text[0]);
        DigitsRead(v * 10 + d, text[1..], tail);
        WrapDigit(v, d);
        MoreDigits(digits);
      } else {
        assert !('0' <= digits[0] <= '9');
      }
    }
  }

  lemma MoreDigits(s: string)
    requires s != "" && '0' <= s[0] <= '9'
    ensures AllDigits(s) == AllDigits(s[1..])
  {
    if AllDigits(s[1..]) {
      forall k | 0 <= k < |s|
        ensures '0' <= s[k] <= '9'
      {
        assert k > 0 ==> s[k] == s[1..][k - 1];
      }
    }
  }

  lemma SignedSplit(text: string)
    ensures var line := UpToCR(text);
      && (line != "" ==> text != "" && line[0] == text[0])
      && (Signs(text) <==> Signs(line))
      && (Signs(text) ==> UpToCR(text[1..]) == line[1..])
  {
  }

  lemma WrapNegative(n: nat)
    ensures Wrap64(0 - Wrap64(n)) == Wrap64(0 - n)
  {
    WrapTwice(n);
  }

  /** The number read off a line is the one it says. */
  lemma NumberRead(text: string, t: string)
    ensures NumberIs(text, ReadLongLong(text + "\r\n" + t))
  {
    hide ReadDigits, UpToCR, Carried, Places, Wrap64, AllDigits;
    var tail := "\r\n" + t;
    var s := text + tail;
    assert text + "\r\n" + t == s;
    SignedSplit(text);
    var line := UpToCR(text);
    var digits := DigitsOf(line);
    var unsigned := if Signs(text) then text[1..] else text;
    assert text != "" ==> s[0] == text[0];
    assert text == "" ==> s[0] == '\r';
    assert (if Signs(text) then s[1..] else s) == unsigned + tail;
    DigitsRead(0, unsigned, tail);
    WrapIs(0, 0);
    if AllDigits(digits) {
      CarriedIsPlaces(digits);
      var p: int := Places(digits);
      WrapNegative(p);
      WrapIs(0 - p, Wrap64(0 - p));
      WrapIs(p, Wrap64(p));
    }
  }

  lemma OneNumber(text: string, n: int, m: int)
    requires NumberIs(text, n) && NumberIs(text, m)
    ensures n == m
  {
    hide UpToCR, Places, AllDigits;
    var line := UpToCR(text);
    var digits := DigitsOf(line);
    if AllDigits(digits) {
      var p := if line != "" && line[0] == '-' then 0 - Places(digits) else Places(digits);
      WrapIs(p, n);
      WrapIs(p, m);
    }
  }

  // -------------------------------------------------------------------------------- replies

  /** A reply as it arrives. The text is what stands between its first byte and CR LF. */
  datatype Wire =
    | Line(error: bool, text: string)
    | Int(text: string, n: int)
    | NoBulk(text: string, n: int)
    | Bulk(text: string, bytes: string, end: string)
    | NoArray(text: string)
    | Arr(text: string, n: int, size: nat, elements: seq<Wire>)

  /** Arrays stand at most this deep. */
  const DEEPEST := 8

  /** Nothing looks at the two bytes behind a bulk. An array has as many elements as an int keeps of its
      number, if that is positive; none, if the number is not. */
  predicate Good(w: Wire, depth: nat)
    decreases w, 0
  {
    && OneLine(w.text)
    && match w
       case Line(_, _) => true
       case Int(text, n) => NumberIs(text, n)
       case NoBulk(text, n) => NumberIs(text, n) && n < 0
       case Bulk(text, bytes, end) => NumberIs(text, |bytes|) && |end| == 2
       case NoArray(text) => depth < DEEPEST && NumberIs(text, -1)
       case Arr(text, n, size, elements) =>
         && depth < DEEPEST && NumberIs(text, n) && n != -1 && SizeIs(n, size)
         && (if n <= 0 then elements == [] else 0 < size == |elements| < 0x8000_0000)
         && GoodAll(elements, depth + 1)
  }

  predicate GoodAll(ws: seq<Wire>, depth: nat)
    decreases ws
  {
    ws != [] ==> Good(ws[0], depth) && GoodAll(ws[1..], depth)
  }

  function Spell(w: Wire): string
    decreases w, 0
  {
    match w
    case Line(error, text) => Head(if error then '-' else '+', text)
    case Int(text, _) => Head(':', text)
    case NoBulk(text, _) => Head('$', text)
    case Bulk(text, bytes, end) => Head('$', text) + (bytes + end)
    case NoArray(text) => Head('*', text)
    case Arr(text, _, _, elements) => Head('*', text) + SpellAll(elements)
  }

  function Head(mark: char, text: string): string {
    [mark] + text + "\r\n"
  }

  function SpellAll(ws: seq<Wire>): string
    decreases ws
  {
    if ws == [] then "" else Spell(ws[0]) + SpellAll(ws[1..])
  }

  function Meaning(w: Wire): Reply
    decreases w, 0
  {
    match w
    case Line(error, text) => if error then ErrorReply(text) else StatusReply(text)
    case Int(_, n) => IntegerReply(n)
    case NoBulk(_, _) => NilReply
    case Bulk(_, bytes, _) => StringReply(bytes)
    case NoArray(_) => NilReply
    case Arr(_, _, size, elements) => ArrayReply(size, MeaningAll(elements))
  }

  function MeaningAll(ws: seq<Wire>): seq<Reply>
    decreases ws
  {
    if ws == [] then [] else [Meaning(ws[0])] + MeaningAll(ws[1..])
  }

  // -------------------------------------------------------------------- every such is read

  /** The line of an item and its number. */
  lemma HeadRead(mark: char, text: string, t: string)
    requires OneLine(text)
    ensures var u := Head(mark, text) + t;
      && u != [] && u[0] == mark && FindCRLF(u[1..]) == Some(|text|) && u[1..][..|text|] == text
      && u[1..][|text| + 2..] == t && |u[1..]| == |text| + 2 + |t| && NumberIs(text, ReadLongLong(u[1..]))
  {
    hide FindCRLF, ReadLongLong, NumberIs, OneLine;
    var u := Head(mark, text) + t;
    assert u[1..] == text + "\r\n" + t;
    FindLine(text, t);
    NumberRead(text, t);
  }

  lemma ItemIs(u: string, depth: nat)
    requires u != [] && u[0] in "-+:$*" && (u[0] == '*' ==> depth < DEEPEST)
    ensures TypeOf(u[0]) != UNTYPED
    ensures ParseReply(u, depth) == Shift(ParseItem(TypeOf(u[0]), u[1..], depth), 1)
  {
    hide ReadItem;
  }

  lemma LeafItem(typ: int, v: string, depth: nat)
    requires typ in {REPLY_STRING, REPLY_ARRAY, REPLY_INTEGER, REPLY_STATUS, REPLY_ERROR}
    requires ReadItem(typ, v).Complete?
    ensures ParseItem(typ, v, depth) == Done(ReadItem(typ, v).reply, ReadItem(typ, v).used)
  {
    hide ReadItem;
  }

  lemma LineRead(w: Wire, depth: nat, t: string)
    requires Good(w, depth) && (w.Line? || w.Int?)
    ensures ParseReply(Spell(w) + t, depth) == Done(Meaning(w), |Spell(w)|)
  {
    hide FindCRLF, ReadLongLong, NumberIs, OneLine, ParseReply, ParseItem;
    var mark := if w.Int? then ':' else if w.error then '-' else '+';
    var u := Spell(w) + t;
    HeadRead(mark, w.text, t);
    ItemIs(u, depth);
    LeafItem(TypeOf(mark), u[1..], depth);
    if w.Int? {
      OneNumber(w.text, w.n, ReadLongLong(u[1..]));
    }
  }

  lemma BulkRead(w: Wire, depth: nat, t: string)
    requires Good(w, depth) && (w.Bulk? || w.NoBulk?)
    ensures ParseReply(Spell(w) + t, depth) == Done(Meaning(w), |Spell(w)|)
  {
    hide FindCRLF, ReadLongLong, NumberIs, OneLine, ParseReply, ParseItem;
    var rest := if w.Bulk? then w.bytes + w.end else "";
    var u := Spell(w) + t;
    assert u == Head('$', w.text) + (rest + t);
    HeadRead('$', w.text, rest + t);
    ItemIs(u, depth);
    var v := u[1..];
    if w.Bulk? {
      OneNumber(w.text, |w.bytes|, ReadLongLong(v));
      assert v[|w.text| + 2..|w.text| + 2 + |w.bytes|] == v[|w.text| + 2..][..|w.bytes|] == w.bytes;
    } else {
      OneNumber(w.text, w.n, ReadLongLong(v));
    }
    LeafItem(REPLY_STRING, v, depth);
  }

  lemma ArrayRead(text: string, n: int, depth: nat, t: string)
    requires OneLine(text) && NumberIs(text, n) && depth < DEEPEST
    ensures var u, k := Head('*', text) + t, |Head('*', text)|;
      ParseReply(u, depth)
      == if n == -1 then Done(NilReply, k)
         else if n <= 0 then Done(ArrayReply(SizeT(Cut32(n)), []), k)
         else if Cut32(n) <= 0 then Bad(CountLost)
         else Shift(AsArray(Cut32(n), [], ParseElements(t, depth + 1, Cut32(n))), k)
  {
    hide FindCRLF, ReadLongLong, NumberIs, OneLine, ParseReply, Cut32, SizeT;
    var u := Head('*', text) + t;
    HeadRead('*', text, t);
    ItemIs(u, depth);
    OneNumber(text, n, ReadLongLong(u[1..]));
    ArrayHeadItem(u[1..], n, |text|);
    hide ReadItem, ParseElements;
  }

  /** A reply as the grammar has it is read as what it means, whatever follows it. */
  lemma {:induction false} WireRead(w: Wire, depth: nat, t: string)
    requires Good(w, depth)
    ensures ParseReply(Spell(w) + t, depth) == Done(Meaning(w), |Spell(w)|)
    decreases w, 0
  {
    hide ParseReply, ParseElements, NumberIs, OneLine, SizeIs, Head;
    if w.Line? || w.Int? {
      LineRead(w, depth, t);
    } else if w.Bulk? || w.NoBulk? {
      BulkRead(w, depth, t);
    } else if w.NoArray? {
      ArrayRead(w.text, -1, depth, t);
    } else {
      var head, body := Head('*', w.text), SpellAll(w.elements) + t;
      assert Spell(w) + t == head + body;
      ArrayRead(w.text, w.n, depth, body);
      CutIs(w.n, w.size);
      if w.n > 0 {
        WiresRead(w.elements, depth + 1, t);
        assert [] + MeaningAll(w.elements) == MeaningAll(w.elements);
      } else {
        NothingInside();
      }
    }
  }

  lemma NothingInside()
    ensures MeaningAll([]) == [] && SpellAll([]) == ""
  {
  }

  lemma {:induction false} WiresRead(ws: seq<Wire>, depth: nat, t: string)
    requires GoodAll(ws, depth)
    ensures ParseElements(SpellAll(ws) + t, depth, |ws|) == Done(MeaningAll(ws), |SpellAll(ws)|)
    decreases ws, 1
  {
    hide ParseReply, Good, Spell, Meaning;
    if ws != [] {
      var u := SpellAll(ws[1..]) + t;
      WireRead(ws[0], depth, u);
      WiresRead(ws[1..], depth, t);
      assert SpellAll(ws) + t == Spell(ws[0]) + u;
      assert (Spell(ws[0]) + u)[|Spell(ws[0])|..] == u;
    }
  }

  // ------------------------------------------------------------------ what is read is such

  /** An item whose line is there. */
  lemma HeadTaken(u: string) returns (text: string, rest: string)
    requires u != [] && FindCRLF(u[1..]).Some?
    ensures var k := FindCRLF(u[1..]).value;
      u == Head(u[0], text) + rest && |text| == k && text == u[1..][..k] && rest == u[1..][k + 2..]
    ensures OneLine(text) && NumberIs(text, ReadLongLong(u[1..]))
  {
    hide FindCRLF, ReadLongLong, NumberIs, OneLine;
    var v := u[1..];
    text, rest := LineTaken(v);
    assert u == [u[0]] + v;
    NumberRead(text, rest);
  }

  lemma LineTaken(v: string) returns (text: string, rest: string)
    requires FindCRLF(v).Some?
    ensures var k := FindCRLF(v).value;
      v == text + "\r\n" + rest && |text| == k && text == v[..k] && rest == v[k + 2..]
    ensures OneLine(text)
  {
    var k := FindCRLF(v).value;
    text, rest := v[..k], v[k + 2..];
    hide FindCRLF;
    assert v[k..k + 2] == "\r\n";
    assert v == text + v[k..k + 2] + rest;
    forall j | 0 <= j < |text| - 1
      ensures !(text[j] == '\r' && text[j + 1] == '\n')
    {
      assert text[j] == v[j] && text[j + 1] == v[j + 1];
    }
  }

  lemma ItemTaken(u: string, depth: nat)
    requires !ParseReply(u, depth).More? && u != [] && u[0] in "-+:$*" && (u[0] == '*' ==> depth < DEEPEST)
    ensures FindCRLF(u[1..]).Some?
  {
    ItemIs(u, depth);
    hide FindCRLF, ReadLongLong;
  }

  lemma MarkIs(u: string, depth: nat)
    ensures ParseReply(u, depth).Done? ==> u != [] && u[0] in "-+:$*" && (u[0] == '*' ==> depth < DEEPEST)
    ensures u != [] && u[0] !in "-+:$*" ==> ParseReply(u, depth) == Bad(ProtocolByte(u[0]))
    ensures u != [] && u[0] == '*' && depth >= DEEPEST ==> ParseReply(u, depth) == Bad(TooDeep)
  {
    hide ParseItem;
  }

  /** A bulk that is complete has all its bytes and the two behind them. */
  lemma BulkFits(u: string, depth: nat)
    requires ParseReply(u, depth).Done? && u[0] == '$'
    ensures FindCRLF(u[1..]).Some?
    ensures var k, n := FindCRLF(u[1..]).value, ReadLongLong(u[1..]);
      n >= 0 ==> n + 2 <= |u[1..][k + 2..]|
  {
    ItemIs(u, depth);
    hide FindCRLF, ReadLongLong;
  }

  lemma LeafTaken(u: string, depth: nat) returns (w: Wire)
    requires ParseReply(u, depth).Done? && u[0] != '*'
    ensures Good(w, depth) && Spell(w) <= u
  {
    MarkIs(u, depth);
    ItemTaken(u, depth);
    hide FindCRLF, ReadLongLong, NumberIs, OneLine, ParseReply, Head;
    var text, rest := HeadTaken(u);
    var n := ReadLongLong(u[1..]);
    if u[0] == '$' {
      BulkFits(u, depth);
      if n < 0 {
        w := NoBulk(text, n);
      } else {
        w := Bulk(text, rest[..n], rest[n..n + 2]);
        assert rest[..n] + rest[n..n + 2] == rest[..n + 2];
        PrefixBehind(Head('$', text), rest[..n + 2], rest);
      }
    } else if u[0] == ':' {
      w := Int(text, n);
    } else {
      w := Line(u[0] == '-', text);
    }
  }

  /** What is read as a reply is one of the grammar. */
  lemma {:induction false} WireTaken(u: string, depth: nat) returns (w: Wire)
    requires ParseReply(u, depth).Done?
    ensures Good(w, depth) && Spell(w) <= u && ParseReply(u, depth) == Done(Meaning(w), |Spell(w)|)
    decreases |u|, 0, 1
  {
    hide ParseReply, Good, Spell, Meaning;
    MarkIs(u, depth);
    if u[0] != '*' {
      w := LeafTaken(u, depth);
    } else {
      w := ArrTaken(u, depth);
    }
    WireRead(w, depth, u[|Spell(w)|..]);
    assert u == Spell(w) + u[|Spell(w)|..];
  }

  /** What an array says of itself, and what that means for the parse. */
  lemma ArrayTaken(u: string, depth: nat) returns (text: string, n: int, rest: string)
    requires !ParseReply(u, depth).More? && u != [] && u[0] == '*' && depth < DEEPEST
    ensures OneLine(text) && NumberIs(text, n) && u == Head('*', text) + rest && |rest| < |u|
    ensures n != -1 && n > 0 && Cut32(n) > 0 ==>
              (ParseReply(u, depth).Done? ==> ParseElements(rest, depth + 1, Cut32(n)).Done?)
              && (ParseReply(u, depth).Bad? ==> ParseElements(rest, depth + 1, Cut32(n)).Bad?)
    ensures ParseReply(u, depth).Done? ==> n <= 0 || Cut32(n) > 0
    ensures ParseReply(u, depth).Bad? ==> n > 0
  {
    ItemTaken(u, depth);
    hide FindCRLF, ReadLongLong, NumberIs, OneLine, ParseReply, ParseElements, Head, Cut32, SizeT;
    text, rest := HeadTaken(u);
    n := ReadLongLong(u[1..]);
    ArrayRead(text, n, depth, rest);
    HeadLength('*', text);
  }

  lemma NoneTaken(text: string, n: int, rest: string, depth: nat) returns (w: Wire)
    requires OneLine(text) && NumberIs(text, n) && n <= 0 && depth < DEEPEST
    ensures Good(w, depth) && Spell(w) <= Head('*', text) + rest
  {
    hide NumberIs, OneLine, Head, SizeIs, Cut32, SizeT;
    var size := SizeT(Cut32(n));
    CutIs(n, size);
    w := if n == -1 then NoArray(text) else Arr(text, n, size, []);
    assert Head('*', text) + "" == Head('*', text);
  }

  lemma SomeTaken(text: string, n: int, rest: string, ws: seq<Wire>, depth: nat) returns (w: Wire)
    requires OneLine(text) && NumberIs(text, n) && n > 0 && Cut32(n) == |ws| > 0 && depth < DEEPEST
    requires GoodAll(ws, depth + 1) && SpellAll(ws) <= rest
    ensures Good(w, depth) && Spell(w) <= Head('*', text) + rest
  {
    CutIs(n, |ws|);
    CutSmall(n);
    hide NumberIs, OneLine, Head, SizeIs, Cut32, GoodAll, SpellAll;
    w := Arr(text, n, |ws|, ws);
    PrefixBehind(Head('*', text), SpellAll(ws), rest);
  }

  lemma ArrTaken(u: string, depth: nat) returns (w: Wire)
    requires ParseReply(u, depth).Done? && u[0] == '*' && depth < DEEPEST
    ensures Good(w, depth) && Spell(w) <= u
    decreases |u|, 0, 0
  {
    hide *;
    var text, n, rest := ArrayTaken(u, depth);
    if n <= 0 {
      w := NoneTaken(text, n, rest, depth);
    } else {
      var ws := WiresTaken(rest, depth + 1, Cut32(n));
      w := SomeTaken(text, n, rest, ws, depth);
    }
  }

  lemma HeadLength(mark: char, text: string)
    ensures |Head(mark, text)| == |text| + 3
  {
  }

  lemma PrefixBehind(x: string, y: string, rest: string)
    requires y <= rest
    ensures x + y <= x + rest
  {
    assert rest == y + rest[|y|..];
    assert x + rest == x + y + rest[|y|..];
  }

  lemma {:induction false} WiresTaken(u: string, depth: nat, count: nat) returns (ws: seq<Wire>)
    requires ParseElements(u, depth, count).Done?
    ensures GoodAll(ws, depth) && |ws| == count && SpellAll(ws) <= u
    ensures ParseElements(u, depth, count) == Done(MeaningAll(ws), |SpellAll(ws)|)
    decreases |u|, 1, count
  {
    hide ParseReply, Good, Spell, Meaning;
    if count == 0 {
      ws := [];
    } else {
      var w := WireTaken(u, depth);
      var used := ParseReply(u, depth).used;
      var others := WiresTaken(u[used..], depth, count - 1);
      ws := [w] + others;
      assert ws[1..] == others;
      PrefixBehind(Spell(w), SpellAll(others), u[used..]);
      assert u == Spell(w) + u[used..];
    }
  }

  // ------------------------------------------------------------------ what the reader fails on

  /** A byte that begins no reply, an array too deep, an array whose number is positive and whose half in an
      int is not; or one of these behind the complete elements of an array. */
  datatype Broken =
    | Byte(c: char)
    | Deep
    | NoCount(text: string, n: int)
    | Inside(text: string, n: int, size: nat, complete: seq<Wire>, next: Broken)

  predicate GoodBroken(b: Broken, depth: nat)
    decreases b
  {
    match b
    case Byte(c) => c !in "-+:$*"
    case Deep => depth >= DEEPEST
    case NoCount(text, n) =>
      && depth < DEEPEST && OneLine(text) && NumberIs(text, n) && n > 0
      && (n % 0x1_0000_0000 == 0 || n % 0x1_0000_0000 >= 0x8000_0000)
    case Inside(text, n, size, complete, next) =>
      && depth < DEEPEST && OneLine(text) && NumberIs(text, n) && n > 0
      && SizeIs(n, size) && |complete| < size < 0x8000_0000
      && GoodAll(complete, depth + 1) && GoodBroken(next, depth + 1)
  }

  function SpellBroken(b: Broken): string {
    match b
    case Byte(c) => [c]
    case Deep => "*"
    case NoCount(text, _) => Head('*', text)
    case Inside(text, _, _, complete, next) => Head('*', text) + (SpellAll(complete) + SpellBroken(next))
  }

  function FailureOf(b: Broken): Failure {
    match b
    case Byte(c) => ProtocolByte(c)
    case Deep => TooDeep
    case NoCount(_, _) => CountLost
    case Inside(_, _, _, _, next) => FailureOf(next)
  }

  lemma LostIs(n: int)
    ensures Cut32(n) <= 0 <==> n % 0x1_0000_0000 == 0 || n % 0x1_0000_0000 >= 0x8000_0000
  {
  }

  /** On each of these the reader fails as it says. */
  lemma {:induction false} BrokenRead(b: Broken, depth: nat, t: string)
    requires GoodBroken(b, depth)
    ensures ParseReply(SpellBroken(b) + t, depth) == Bad(FailureOf(b))
    decreases b, 0
  {
    hide ParseReply, ParseElements, NumberIs, OneLine, SizeIs, Head, Cut32, SizeT;
    match b
    case Byte(c) =>
      MarkIs([c] + t, depth);
    case Deep =>
      MarkIs("*" + t, depth);
    case NoCount(text, n) =>
      LostIs(n);
      ArrayRead(text, n, depth, t);
    case Inside(text, n, size, complete, next) =>
      CutIs(n, size);
      var body := SpellAll(complete) + (SpellBroken(next) + t);
      ArrayRead(text, n, depth, body);
      BrokenInside(complete, next, depth + 1, size, t);
      assert SpellBroken(b) + t == Head('*', text) + body;
  }

  lemma {:induction false} BrokenInside(ws: seq<Wire>, next: Broken, depth: nat, count: nat, t: string)
    requires GoodAll(ws, depth) && GoodBroken(next, depth) && |ws| < count
    ensures ParseElements(SpellAll(ws) + (SpellBroken(next) + t), depth, count) == Bad(FailureOf(next))
    decreases next, 1, ws
  {
    hide ParseReply, Good, Spell, Meaning, GoodBroken, SpellBroken, FailureOf;
    var rest := SpellBroken(next) + t;
    if ws == [] {
      assert SpellAll(ws) + rest == rest;
      BrokenRead(next, depth, t);
    } else {
      var u := SpellAll(ws[1..]) + rest;
      WireRead(ws[0], depth, u);
      BrokenInside(ws[1..], next, depth, count - 1, t);
      assert SpellAll(ws) + rest == Spell(ws[0]) + u;
      assert (Spell(ws[0]) + u)[|Spell(ws[0])|..] == u;
    }
  }

  /** And it fails on nothing else. */
  lemma {:induction false} BrokenTaken(u: string, depth: nat) returns (b: Broken)
    requires ParseReply(u, depth).Bad?
    ensures GoodBroken(b, depth) && SpellBroken(b) <= u && ParseReply(u, depth) == Bad(FailureOf(b))
    decreases |u|, 0, 1
  {
    hide ParseReply;
    MarkIs(u, depth);
    EmptyIsMore(depth);
    LeafNeverBad(u, depth);
    if u[0] !in "-+:$*" {
      b := Byte(u[0]);
    } else if depth >= DEEPEST {
      b := Deep;
    } else {
      b := BrokenArray(u, depth);
    }
    hide GoodBroken, SpellBroken, FailureOf;
    BrokenRead(b, depth, u[|SpellBroken(b)|..]);
    assert u == SpellBroken(b) + u[|SpellBroken(b)|..];
  }

  lemma EmptyIsMore(depth: nat)
    ensures ParseReply([], depth).More?
  {
  }

  lemma LeafNeverBad(u: string, depth: nat)
    ensures u != [] && u[0] in "-+:$" ==> !ParseReply(u, depth).Bad?
  {
    if u != [] && u[0] in "-+:$" {
      ItemIs(u, depth);
    }
    hide FindCRLF, ReadLongLong;
  }

  lemma BrokenArray(u: string, depth: nat) returns (b: Broken)
    requires ParseReply(u, depth).Bad? && u != [] && u[0] == '*' && depth < DEEPEST
    ensures GoodBroken(b, depth) && SpellBroken(b) <= u
    decreases |u|, 0, 0
  {
    var text, n, rest := ArrayTaken(u, depth);
    LostIs(n);
    hide NumberIs, OneLine, ParseReply, ParseElements, Head, SizeIs, Cut32, GoodAll, SpellAll;
    if Cut32(n) <= 0 {
      b := NoCount(text, n);
    } else {
      CutIs(n, Cut32(n));
      CutSmall(n);
      var complete, next := BrokenElements(rest, depth + 1, Cut32(n));
      b := Inside(text, n, Cut32(n), complete, next);
      PrefixBehind(Head('*', text), SpellAll(complete) + SpellBroken(next), rest);
    }
  }

  lemma CutSmall(n: int)
    ensures Cut32(n) < 0x8000_0000
  {
  }

  lemma {:induction false} BrokenElements(u: string, depth: nat, count: nat) returns (ws: seq<Wire>, next: Broken)
    requires ParseElements(u, depth, count).Bad?
    ensures GoodAll(ws, depth) && GoodBroken(next, depth) && |ws| < count && SpellAll(ws) + SpellBroken(next) <= u
    decreases |u|, 1, count
  {
    hide ParseReply, Good, Spell, Meaning, GoodBroken, SpellBroken, FailureOf;
    if ParseReply(u, depth).Bad? {
      next := BrokenTaken(u, depth);
      ws := [];
      assert "" + SpellBroken(next) == SpellBroken(next);
    } else {
      var w := WireTaken(u, depth);
      var used := ParseReply(u, depth).used;
      var others;
      others, next := BrokenElements(u[used..], depth, count - 1);
      ws := [w] + others;
      MoreSpelled(w, others, SpellBroken(next), depth);
      PrefixBehind(Spell(w), SpellAll(others) + SpellBroken(next), u[used..]);
      assert u == Spell(w) + u[used..];
    }
  }

  lemma MoreSpelled(w: Wire, others: seq<Wire>, t: string, depth: nat)
    requires Good(w, depth) && GoodAll(others, depth)
    ensures GoodAll([w] + others, depth) && SpellAll([w] + others) + t == Spell(w) + (SpellAll(others) + t)
  {
    hide Good, Spell;
    assert ([w] + others)[1..] == others;
  }

  // -------------------------------------------------------------------------- whole streams

  /** The reader over a stream: the replies at its beginning, one after the other; then it fails exactly if
      what follows begins with something broken. */
  lemma {:induction false} StreamTaken(u: string) returns (ws: seq<Wire>, rest: string)
    ensures GoodAll(ws, 0) && u == SpellAll(ws) + rest && Run(IDLE, u).replies == MeaningAll(ws)
    ensures forall w :: Good(w, 0) ==> !(Spell(w) <= rest)
    ensures Run(IDLE, u).failure.None? <==> forall b :: GoodBroken(b, 0) ==> !(SpellBroken(b) <= rest)
    ensures forall b :: GoodBroken(b, 0) && SpellBroken(b) <= rest ==> Run(IDLE, u).failure == Some(FailureOf(b))
    decreases |u|
  {
    hide Run, Good, Spell, Meaning, ParseReply, GoodBroken, SpellBroken, FailureOf;
    RunIsGrammar(u);
    if ParseReply(u, 0).Done? {
      var w := WireTaken(u, 0);
      var t := u[ParseReply(u, 0).used..];
      RunIsGrammar(t);
      var others;
      others, rest := StreamTaken(t);
      ws := [w] + others;
      assert ws[1..] == others;
      assert u == Spell(w) + t;
    } else {
      ws, rest := [], u;
      NothingTaken(u);
    }
  }

  lemma NotPrefix(w: Wire, u: string)
    requires Good(w, 0) && Spell(w) <= u
    ensures ParseReply(u, 0).Done?
  {
    hide *;
    WireRead(w, 0, u[|Spell(w)|..]);
    assert u == Spell(w) + u[|Spell(w)|..];
  }

  lemma NothingTaken(u: string)
    requires !ParseReply(u, 0).Done?
    ensures forall w :: Good(w, 0) ==> !(Spell(w) <= u)
    ensures ParseReply(u, 0).More? <==> forall b :: GoodBroken(b, 0) ==> !(SpellBroken(b) <= u)
    ensures forall b :: GoodBroken(b, 0) && SpellBroken(b) <= u ==> ParseReply(u, 0) == Bad(FailureOf(b))
  {
    hide Good, Spell, Meaning, ParseReply, GoodBroken, SpellBroken, FailureOf;
    forall w | Good(w, 0)
      ensures !(Spell(w) <= u)
    {
      if Spell(w) <= u {
        NotPrefix(w, u);
      }
    }
    forall b | GoodBroken(b, 0) && SpellBroken(b) <= u
      ensures ParseReply(u, 0) == Bad(FailureOf(b))
    {
      BrokenRead(b, 0, u[|SpellBroken(b)|..]);
      assert u == SpellBroken(b) + u[|SpellBroken(b)|..];
    }
    if ParseReply(u, 0).Bad? {
      var b := BrokenTaken(u, 0);
    }
  }

  lemma {:induction false} NoCR(s: string)
    requires '\r' !in s
    ensures UpToCR(s) == s
  {
    if s != "" {
      assert s[0] in s && forall c :: c in s[1..] ==> c in s;
      NoCR(s[1..]);
    }
  }

  lemma LineIs(sign: string, digits: string)
    requires (sign == "" || sign == "+" || sign == "-") && AllDigits(digits)
    ensures var line := sign + digits;
      UpToCR(line) == line && DigitsOf(line) == digits && ((line != "" && line[0] == '-') <==> sign == "-")
  {
    var line := sign + digits;
    forall c | c in line
      ensures c != '\r'
    {
      var k :| 0 <= k < |line| && line[k] == c;
      assert k >= |sign| ==> line[k] == digits[k - |sign|];
    }
    NoCR(line);
    hide UpToCR;
    assert sign != "" ==> line[0] == sign[0] && line[1..] == digits;
    assert sign == "" ==> line == digits;
  }

  lemma SmallIsKept(v: int)
    ensures -0x8000_0000_0000_0000 <= v < 0x8000_0000_0000_0000 ==> LongIs(v, v)
  {
  }

  /** A number with either sign or none. */
  lemma SignedDigits(sign: string, digits: string)
    requires (sign == "" || sign == "+" || sign == "-") && AllDigits(digits) && Places(digits) < 0x8000_0000_0000_0000
    ensures NumberIs(sign + digits, if sign == "-" then 0 - Places(digits) else Places(digits))
  {
    LineIs(sign, digits);
    SmallIsKept(if sign == "-" then 0 - Places(digits) else Places(digits));
    hide Places, UpToCR, AllDigits, DigitsOf, LongIs;
  }

  lemma PlusFive(depth: nat, t: string)
    ensures ParseReply(":+5\r\n" + t, depth) == Done(IntegerReply(5), 5)
  {
    var w := Int("+5", 5);
    assert "5"[..0] == "" && Places("5") == 5;
    SignedDigits("+", "5");
    assert "+" + "5" == "+5" && Spell(w) == ":+5\r\n";
    hide NumberIs, ParseReply;
    WireRead(w, depth, t);
  }
}
