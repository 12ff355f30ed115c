/** The reply grammar written as plain recursive descent, with no stack and nothing to resume,
    and the encoder it undoes. The stack run of Resp is proved equal to it on every string. */
module RespGrammar {
  import opened Common
  import opened Resp

  datatype Parsed<+T> = Done(value: T, used: nat) | More | Bad(failure: Failure)

  /** The same parse, counted from `k` characters earlier. */
  function Shift<T>(p: Parsed<T>, k: nat): Parsed<T> {
    match p
    case Done(x, used) => Done(x, k + used)
    case More => More
    case Bad(f) => Bad(f)
  }

  /** The elements read, behind those already there, as one array reply. */
  function AsArray(n: nat, before: seq<Reply>, p: Parsed<seq<Reply>>): Parsed<Reply> {
    match p
    case More => More
    case Bad(f) => Bad(f)
    case Done(rs, used) => Done(ArrayReply(n, before + rs), used)
  }

  /** One reply at nesting depth `depth`. */
  function ParseReply(u: string, depth: nat): (p: Parsed<Reply>)
    ensures p.Done? ==> 1 <= p.used <= |u|
    decreases |u|, 0
  {
    if u == [] then More
    else if TypeOf(u[0]) == UNTYPED then Bad(ProtocolByte(u[0]))
    else if TypeOf(u[0]) == REPLY_ARRAY && depth >= STACK_SIZE - 1 then Bad(TooDeep)
    else Shift(ParseItem(TypeOf(u[0]), u[1..], depth), 1)
  }

  /** The rest of a reply of a known type. */
  function ParseItem(typ: int, v: string, depth: nat): (p: Parsed<Reply>)
    requires typ in {REPLY_STRING, REPLY_ARRAY, REPLY_INTEGER, REPLY_STATUS, REPLY_ERROR}
    ensures p.Done? ==> p.used <= |v|
    decreases |v|, 2
  {
    match ReadItem(typ, v)
    case Partial => More
    case Lost(_) => Bad(CountLost)
    case Complete(r, used) => Done(r, used)
    case Opened(n, used) => Shift(AsArray(n, [], ParseElements(v[used..], depth + 1, n)), used)
  }

  /** `count` replies, one after the other. */
  function ParseElements(u: string, depth: nat, count: nat): (p: Parsed<seq<Reply>>)
    ensures p.Done? ==> p.used <= |u| && |p.value| == count
    decreases |u|, 1
  {
    if count == 0 then Done([], 0)
    else
      match ParseReply(u, depth)
      case More => More
      case Bad(f) => Bad(f)
      case Done(r, used) =>
        match ParseElements(u[used..], depth, count - 1)
        case More => More
        case Bad(f) => Bad(f)
        case Done(rs, more) => Done([r] + rs, used + more)
  }

  /** All the replies of a stream, what is left, and the failure that stopped it. */
  function ParseStream(u: string): (res: (seq<Reply>, Option<Failure>))
    decreases |u|
  {
    match ParseReply(u, 0)
    case More => ([], None)
    case Bad(f) => ([], Some(f))
    case Done(r, used) =>
      var (rs, failure) := ParseStream(u[used..]);
      ([r] + rs, failure)
  }

  // ------------------------------------------------- the stack run follows the grammar

  ghost predicate ValidFrames(frames: seq<Frame>) {
    && |frames| < STACK_SIZE
    && forall i :: 0 <= i < |frames| ==> |frames[i].element| < frames[i].elements
  }

  /** The run after the item being read below `frames` has turned out to be `r`. */
  ghost function After(frames: seq<Frame>, r: Reply, u: string): Outcome
    requires ValidFrames(frames)
  {
    var (open, out) := Deliver(frames, r);
    Prepend(out, Run(State(open, UNTYPED), u))
  }

  /** What the grammar says of the next item decides the run. */
  ghost predicate Follows(o: Outcome, p: Parsed<Reply>, frames: seq<Frame>, u: string)
    requires ValidFrames(frames)
  {
    match p
    case More => o.replies == [] && o.failure.None?
    case Bad(f) => o.replies == [] && o.failure == Some(f)
    case Done(r, used) => used <= |u| && o == After(frames, r, u[used..])
  }

  /** Reading the type byte. */
  lemma RunTypeByte(frames: seq<Frame>, u: string)
    requires ValidFrames(frames) && u != []
    requires TypeOf(u[0]) != UNTYPED
    requires TypeOf(u[0]) == REPLY_ARRAY ==> |frames| < STACK_SIZE - 1
    ensures Run(State(frames, UNTYPED), u) == Run(State(frames, TypeOf(u[0])), u[1..])
  {
    RunStep(State(frames, UNTYPED), u);
  }

  lemma FollowsShift(o: Outcome, p: Parsed<Reply>, frames: seq<Frame>, u: string, k: nat)
    requires ValidFrames(frames) && k <= |u|
    requires Follows(o, p, frames, u[k..])
    ensures Follows(o, Shift(p, k), frames, u)
  {
    if p.Done? {
      assert u[k..][p.used..] == u[k + p.used..];
    }
  }

  lemma {:induction false} RunFollowsReply(frames: seq<Frame>, u: string)
    requires ValidFrames(frames)
    ensures Follows(Run(State(frames, UNTYPED), u), ParseReply(u, |frames|), frames, u)
    decreases |u|, 0
  {
    if u == [] || TypeOf(u[0]) == UNTYPED || (TypeOf(u[0]) == REPLY_ARRAY && |frames| == STACK_SIZE - 1) {
      RunStep(State(frames, UNTYPED), u);
    } else {
      RunTypeByte(frames, u);
      RunFollowsItem(frames, TypeOf(u[0]), u[1..]);
      FollowsShift(Run(State(frames, TypeOf(u[0])), u[1..]), ParseItem(TypeOf(u[0]), u[1..], |frames|), frames, u, 1);
    }
  }

  lemma {:induction false} RunFollowsItem(frames: seq<Frame>, typ: int, v: string)
    requires ValidFrames(frames) && ValidState(State(frames, typ)) && typ != UNTYPED
    ensures Follows(Run(State(frames, typ), v), ParseItem(typ, v, |frames|), frames, v)
    decreases |v|, 2
  {
    hide Run, ReadItem, ParseElements;
    RunStep(State(frames, typ), v);
    var item := ReadItem(typ, v);
    if item.Opened? {
      var f, rest := Frame(item.elements, []), v[item.used..];
      RunFollowsElements(frames, f, rest);
      FollowsShift(Run(State(frames + [f], UNTYPED), rest),
                   AsArray(item.elements, [], ParseElements(rest, |frames| + 1, item.elements)),
                   frames, v, item.used);
    }
  }

  lemma {:induction false} RunFollowsElements(frames: seq<Frame>, f: Frame, u: string)
    requires ValidFrames(frames) && |frames| < STACK_SIZE - 1 && |f.element| < f.elements
    ensures Follows(Run(State(frames + [f], UNTYPED), u),
                    AsArray(f.elements, f.element, ParseElements(u, |frames| + 1, f.elements - |f.element|)),
                    frames, u)
    decreases |u|, 1
  {
    hide Run, ParseReply, Deliver, After;
    RunFollowsReply(frames + [f], u);
    var p := ParseReply(u, |frames| + 1);
    if p.Done? {
      var v, grown := u[p.used..], Frame(f.elements, f.element + [p.value]);
      AfterElement(frames, f, p.value, v);
      ElementsStep(u, |frames| + 1, f);
      if |grown.element| < f.elements {
        var rest := ParseElements(v, |frames| + 1, f.elements - |grown.element|);
        RunFollowsElements(frames, grown, v);
        FollowsShift(Run(State(frames + [grown], UNTYPED), v), AsArray(f.elements, grown.element, rest),
                     frames, u, p.used);
      }
    }
  }

  /** The run goes on inside the array until its last element has been read. */
  lemma AfterElement(frames: seq<Frame>, f: Frame, r: Reply, v: string)
    requires ValidFrames(frames + [f]) && ValidFrames(frames)
    ensures var grown := f.element + [r];
      After(frames + [f], r, v)
      == if |grown| == f.elements then After(frames, ArrayReply(f.elements, grown), v)
         else Run(State(frames + [Frame(f.elements, grown)], UNTYPED), v)
  {
    DeliverToElement(frames, f, r);
  }

  /** The grammar's side of the same step. */
  lemma ElementsStep(u: string, depth: nat, f: Frame)
    requires |f.element| < f.elements && ParseReply(u, depth).Done?
    ensures var p := ParseReply(u, depth);
      var grown := f.element + [p.value];
      AsArray(f.elements, f.element, ParseElements(u, depth, f.elements - |f.element|))
      == if |grown| == f.elements then Done(ArrayReply(f.elements, grown), p.used)
         else Shift(AsArray(f.elements, grown, ParseElements(u[p.used..], depth, f.elements - |grown|)), p.used)
  {
    hide ParseReply;
    var p := ParseReply(u, depth);
    var rest := ParseElements(u[p.used..], depth, f.elements - |f.element| - 1);
    if rest.Done? {
      assert (f.element + [p.value]) + rest.value == f.element + ([p.value] + rest.value);
      assert rest.value == [] ==> f.element + ([p.value] + rest.value) == f.element + [p.value];
    }
  }

  lemma DeliverToElement(frames: seq<Frame>, f: Frame, r: Reply)
    requires ValidFrames(frames + [f])
    ensures var grown := f.element + [r];
      Deliver(frames + [f], r)
      == if |grown| == f.elements then Deliver(frames, ArrayReply(f.elements, grown))
         else (frames + [Frame(f.elements, grown)], None)
  {
    var below := frames + [f];
    assert below[..|below| - 1] == frames;
  }

  /** The explicit stack computes the recursive grammar: same replies, same failure, on every
      string, well formed or not. */
  lemma {:induction false} RunIsGrammar(u: string)
    ensures Run(IDLE, u).replies == ParseStream(u).0
    ensures Run(IDLE, u).failure == ParseStream(u).1
    decreases |u|
  {
    RunFollowsReply([], u);
    var p := ParseReply(u, 0);
    if p.Done? {
      RunIsGrammar(u[p.used..]);
    }
  }

  // ------------------------------------------------------------------------ round trip

  /** No CR LF inside a line text. */
  predicate OneLine(s: string) {
    forall j :: 0 <= j < |s| - 1 ==> !(s[j] == '\r' && s[j + 1] == '\n')
  }

  /** How many elements an array says it has: their number, in an int; or, with none there, what a
      size_t makes of a negative int, which -1 is not, for it stands for no array at all. */
  predicate Countable(n: nat, rs: seq<Reply>) {
    (n == |rs| && n < TWO32 / 2) || (rs == [] && TWO64 - TWO32 / 2 <= n < TWO64 - 1)
  }

  /** Replies with a wire form: one-line texts, integers of 64 bits, counted arrays, no array below
      the last slot of the stack. */
  predicate Encodable(r: Reply, depth: nat) {
    match r
    case ErrorReply(s) => OneLine(s)
    case StatusReply(s) => OneLine(s)
    case StringReply(s) => |s| < TWO64 / 2
    case IntegerReply(n) => IsLong(n)
    case NilReply => true
    case ArrayReply(n, rs) =>
      && depth < STACK_SIZE - 1
      && Countable(n, rs)
      && forall i :: 0 <= i < |rs| ==> Encodable(rs[i], depth + 1)
  }

  function Encode(r: Reply): string {
    match r
    case ErrorReply(s) => "-" + s + "\r\n"
    case StatusReply(s) => "+" + s + "\r\n"
    case IntegerReply(n) => ":" + Signed(n) + "\r\n"
    case NilReply => "$-1\r\n"
    case StringReply(s) => "$" + Decimal(|s|) + "\r\n" + s + "\r\n"
    case ArrayReply(n, rs) => "*" + Signed(n) + "\r\n" + EncodeAll(rs)
  }

  function EncodeAll(rs: seq<Reply>): string {
    if rs == [] then [] else Encode(rs[0]) + EncodeAll(rs[1..])
  }

  lemma FindLine(line: string, t: string)
    requires OneLine(line)
    ensures FindCRLF(line + "\r\n" + t) == Some(|line|)
  {
    var u := line + "\r\n" + t;
    if line == [] {
      assert u == "\r\n" + t;
    } else {
      assert !(u[0] == '\r' && u[1] == '\n');
      assert u[1..] == line[1..] + "\r\n" + t;
      FindLine(line[1..], t);
    }
  }

  lemma {:induction false} WrapMultiple(v: int, k: nat)
    ensures Wrap64(v + TWO64 * k) == Wrap64(v)
    decreases k
  {
    if k > 0 {
      WrapMultiple(v + TWO64, k - 1);
    }
  }

  /** Wrapping on the way is wrapping at the end. */
  lemma WrapDigit(n: nat, d: nat)
    ensures Wrap64(Wrap64(n) * 10 + d) == Wrap64(n * 10 + d)
  {
    var q := (n + TWO64 / 2) / TWO64;
    assert n == Wrap64(n) + TWO64 * q;
    assert n * 10 + d == Wrap64(n) * 10 + d + TWO64 * (10 * q);
    WrapMultiple(Wrap64(n) * 10 + d, 10 * q);
  }

  lemma {:induction false} ReadDecimal(n: nat, t: string)
    ensures ReadDigits(0, Decimal(n) + t) == ReadDigits(Wrap64(n), t)
  {
    hide Wrap64;
    if n < 10 {
      assert (Decimal(n) + t)[1..] == t;
    } else {
      DecimalTail(n, t);
      var s := [DigitChar(n % 10)] + t;
      ReadDecimal(n / 10, s);
      assert s[1..] == t;
      assert n / 10 * 10 + n % 10 == n;
      WrapDigit(n / 10, n % 10);
    }
  }

  lemma WrapTwice(n: nat)
    ensures Wrap64(0 - Wrap64(n)) == Wrap64(0 - n)
  {
    var q := (n + TWO64 / 2) / TWO64;
    assert n == Wrap64(n) + TWO64 * q;
    WrapMultiple(0 - n, q);
  }

  /** The number reader gives what a long long keeps of the number printed. */
  lemma ReadSigned(n: int, t: string)
    requires t != [] && t[0] == '\r'
    ensures ReadLongLong(Signed(n) + t) == Wrap64(n)
    ensures OneLine(Signed(n))
  {
    hide Decimal, IsDigit, Wrap64;
    var s := Signed(n) + t;
    NoCRInSigned(n);
    if n < 0 {
      assert s[1..] == Decimal(-n) + t;
      ReadDecimal(-n, t);
      WrapTwice(-n);
    } else {
      assert s[0] == Decimal(n)[0];
      DigitIsNoSign(s[0]);
      ReadDecimal(n, t);
    }
  }

  lemma DigitIsNoSign(c: char)
    ensures IsDigit(c) ==> c != '-' && c != '+' && c != '\r'
  {
  }

  lemma NoCRInSigned(n: int)
    ensures OneLine(Signed(n))
  {
    hide Decimal;
    var s := Signed(n);
    forall k | 0 <= k < |s|
      ensures s[k] != '\r'
    {
      assert n < 0 && k > 0 ==> s[k] == Decimal(-n)[k - 1];
      assert s[k] == '-' || IsDigit(s[k]);
    }
  }

  /** The head of an item: type byte, number, CR LF. */
  lemma NumberHead(n: int, t: string)
    ensures FindCRLF(Signed(n) + "\r\n" + t) == Some(|Signed(n)|)
    ensures ReadLongLong(Signed(n) + "\r\n" + t) == Wrap64(n)
  {
    assert Signed(n) + "\r\n" + t == Signed(n) + ("\r\n" + t);
    ReadSigned(n, "\r\n" + t);
    FindLine(Signed(n), t);
  }

  lemma ParseLine(c: char, line: string, depth: nat, t: string)
    requires c == '-' || c == '+'
    requires OneLine(line)
    ensures ParseReply([c] + line + "\r\n" + t, depth)
         == Done(if c == '-' then ErrorReply(line) else StatusReply(line), 1 + |line| + 2)
  {
    hide FindCRLF;
    var u := [c] + line + "\r\n" + t;
    assert u[1..] == line + "\r\n" + t;
    FindLine(line, t);
    assert u[1..][..|line|] == line;
  }

  lemma ParseBulk(s: string, depth: nat, t: string)
    requires |s| < TWO64 / 2
    ensures ParseReply(Encode(StringReply(s)) + t, depth) == Done(StringReply(s), |Encode(StringReply(s))|)
  {
    hide FindCRLF, ReadLongLong;
    var u := Encode(StringReply(s)) + t;
    var n := |Signed(|s|)|;
    assert u[1..] == Signed(|s|) + "\r\n" + (s + "\r\n" + t);
    NumberHead(|s|, s + "\r\n" + t);
    assert u[1..][n + 2..n + 2 + |s|] == s;
  }

  lemma ParseNumber(n: int, depth: nat, t: string)
    ensures ParseReply(":" + Signed(n) + "\r\n" + t, depth) == Done(IntegerReply(Wrap64(n)), 1 + |Signed(n)| + 2)
    ensures ParseReply("$-1\r\n" + t, depth) == Done(NilReply, 5)
  {
    hide FindCRLF, ReadLongLong;
    assert (":" + Signed(n) + "\r\n" + t)[1..] == Signed(n) + "\r\n" + t;
    NumberHead(n, t);
    assert Signed(-1) == "-1";
    assert ("$-1\r\n" + t)[1..] == Signed(-1) + "\r\n" + t;
    NumberHead(-1, t);
  }

  /** The head of an array, then its elements. */
  lemma ParseArrayHead(n: int, depth: nat, body: string)
    requires depth < STACK_SIZE - 1
    ensures ParseReply("*" + Signed(n) + "\r\n" + body, depth)
         == var k, v := 1 + |Signed(n)| + 2, Wrap64(n);
            if v == -1 then Done(NilReply, k)
            else if v <= 0 then Done(ArrayReply(SizeT(Cut32(v)), []), k)
            else if Cut32(v) <= 0 then Bad(CountLost)
            else Shift(AsArray(Cut32(v), [], ParseElements(body, depth + 1, Cut32(v))), k)
  {
    hide FindCRLF, ReadLongLong;
    var u := "*" + Signed(n) + "\r\n" + body;
    assert u[1..] == Signed(n) + "\r\n" + body;
    NumberHead(n, body);
    assert u[1..][|Signed(n)| + 2..] == body;
    var v := u[1..];
    var k := |Signed(n)| + 2;
    ArrayHeadItem(v, Wrap64(n), |Signed(n)|);
    assert ParseReply(u, depth) == Shift(ParseItem(REPLY_ARRAY, v, depth), 1);
  }

  lemma ArrayHeadItem(v: string, n: int, k: nat)
    requires FindCRLF(v) == Some(k) && ReadLongLong(v) == n
    ensures ReadItem(REPLY_ARRAY, v) == CountItem(n, k + 2)
  {
  }

  lemma ParseLeaf(r: Reply, depth: nat, t: string)
    requires Encodable(r, depth) && !r.ArrayReply?
    ensures ParseReply(Encode(r) + t, depth) == Done(r, |Encode(r)|)
  {
    match r
    case ErrorReply(s) => ParseLine('-', s, depth, t);
    case StatusReply(s) => ParseLine('+', s, depth, t);
    case IntegerReply(n) => ParseNumber(n, depth, t);
    case NilReply => ParseNumber(0, depth, t);
    case StringReply(s) => ParseBulk(s, depth, t);
  }

  /** Decoding an encoding, whatever follows it, gives the reply back and stops right after it. */
  lemma {:induction false} ParseEncode(r: Reply, depth: nat, t: string)
    requires Encodable(r, depth)
    ensures ParseReply(Encode(r) + t, depth) == Done(r, |Encode(r)|)
    decreases r, 0
  {
    if r.ArrayReply? {
      var head, body := "*" + Signed(r.elements) + "\r\n", EncodeAll(r.element) + t;
      assert Encode(r) + t == head + body;
      ParseArrayHead(r.elements, depth, body);
      CountRead(r.elements);
      if 0 < r.elements < TWO32 / 2 {
        ParseEncodeAll(r.element, depth + 1, t);
        assert [] + r.element == r.element;
      }
    } else {
      ParseLeaf(r, depth, t);
    }
  }

  lemma {:induction false} ParseEncodeAll(rs: seq<Reply>, depth: nat, t: string)
    requires forall i :: 0 <= i < |rs| ==> Encodable(rs[i], depth)
    ensures ParseElements(EncodeAll(rs) + t, depth, |rs|) == Done(rs, |EncodeAll(rs)|)
    decreases rs, 1
  {
    if rs != [] {
      var others := rs[1..];
      ParseEncode(rs[0], depth, EncodeAll(others) + t);
      ParseEncodeAll(others, depth, t);
      ParseCons(rs, depth, t);
    }
  }

  lemma ParseCons(rs: seq<Reply>, depth: nat, t: string)
    requires rs != []
    requires ParseReply(Encode(rs[0]) + (EncodeAll(rs[1..]) + t), depth) == Done(rs[0], |Encode(rs[0])|)
    requires ParseElements(EncodeAll(rs[1..]) + t, depth, |rs| - 1) == Done(rs[1..], |EncodeAll(rs[1..])|)
    ensures ParseElements(EncodeAll(rs) + t, depth, |rs|) == Done(rs, |EncodeAll(rs)|)
  {
    hide Encode, ParseReply;
    var first, u := Encode(rs[0]), EncodeAll(rs[1..]) + t;
    assert EncodeAll(rs) + t == first + u;
    assert (first + u)[|first|..] == u;
    assert [rs[0]] + rs[1..] == rs;
  }

  /** An encoding that is read back as what was encoded had a wire form, and is used up. */
  lemma {:induction false} OnlyEncodable(r: Reply, depth: nat, t: string)
    requires var p := ParseReply(Encode(r) + t, depth); p.Done? && p.value == r
    ensures Encodable(r, depth) && ParseReply(Encode(r) + t, depth).used == |Encode(r)|
    decreases r, 0
  {
    hide ParseElements, FindCRLF;
    match r
    case ErrorReply(s) => OnlyOneLine('-', s, depth, t);
    case StatusReply(s) => OnlyOneLine('+', s, depth, t);
    case IntegerReply(n) => ParseNumber(n, depth, t);
    case NilReply => ParseNumber(0, depth, t);
    case StringReply(s) => OnlyShortBulk(s, depth, t); ParseBulk(s, depth, t);
    case ArrayReply(n, rs) => OnlyArray(n, rs, depth, t);
  }

  lemma OnlyArray(n: nat, rs: seq<Reply>, depth: nat, t: string)
    requires var p := ParseReply(Encode(ArrayReply(n, rs)) + t, depth); p.Done? && p.value == ArrayReply(n, rs)
    ensures Encodable(ArrayReply(n, rs), depth)
    ensures ParseReply(Encode(ArrayReply(n, rs)) + t, depth).used == |Encode(ArrayReply(n, rs))|
    decreases rs, 2
  {
    hide ParseReply, Encode, ParseElements, Signed, AsArray, Shift;
    var body := EncodeAll(rs) + t;
    ArrayText(n, rs, t);
    NotTooDeep(Signed(n) + "\r\n" + body, depth);
    ParseArrayHead(n, depth, body);
    CountRead(n);
    var v, k := Wrap64(n), 1 + |Signed(n)| + 2;
    if v > 0 {
      assert Shift(AsArray(Cut32(v), [], ParseElements(body, depth + 1, Cut32(v))), k).value == ArrayReply(n, rs);
      ArrayTaken(Cut32(v), n, rs, ParseElements(body, depth + 1, Cut32(v)), k);
      OnlyEncodableAll(rs, depth + 1, t);
    }
  }

  /** The counts that are read back as they were written. */
  lemma CountRead(n: nat)
    ensures var v := Wrap64(n);
      && (0 < n < TWO32 / 2 ==> v == Cut32(v) == n)
      && (v > 0 && Cut32(v) == n ==> n < TWO32 / 2)
      && (v <= 0 && v != -1 ==>
            (SizeT(Cut32(v)) == n <==> n == 0 || TWO64 - TWO32 / 2 <= n < TWO64 - 1))
      && (n == 0 || TWO64 - TWO32 / 2 <= n < TWO64 - 1 ==> v <= 0 && v != -1)
  {
    if TWO64 / 2 <= n < TWO64 {
      assert Wrap64(n) == n - TWO64;
    }
  }

  lemma OnlyShortBulk(s: string, depth: nat, t: string)
    requires var p := ParseReply(Encode(StringReply(s)) + t, depth); p.Done? && p.value == StringReply(s)
    ensures |s| < TWO64 / 2
  {
    var u := Encode(StringReply(s)) + t;
    assert u[0] == '$';
    ShortBulk(u[1..]);
  }

  lemma ShortBulk(v: string)
    ensures var item := ReadItem(REPLY_STRING, v);
      item.Complete? && item.reply.StringReply? ==> |item.reply.str| < TWO64 / 2
  {
  }

  lemma ArrayText(n: nat, rs: seq<Reply>, t: string)
    ensures var line := Signed(n) + "\r\n";
      && |Encode(ArrayReply(n, rs))| == 1 + |line| + |EncodeAll(rs)|
      && Encode(ArrayReply(n, rs)) + t == ['*'] + (line + (EncodeAll(rs) + t))
      && Encode(ArrayReply(n, rs)) + t == "*" + Signed(n) + "\r\n" + (EncodeAll(rs) + t)
  {
    hide Signed, EncodeAll;
    assert Encode(ArrayReply(n, rs)) == "*" + Signed(n) + "\r\n" + EncodeAll(rs);
  }

  lemma ArrayTaken(count: nat, n: nat, rs: seq<Reply>, p: Parsed<seq<Reply>>, k: nat)
    requires var q := Shift(AsArray(count, [], p), k); q.Done? && q.value == ArrayReply(n, rs)
    ensures n == count && p.Done? && p.value == rs && Shift(AsArray(count, [], p), k).used == k + p.used
  {
    assert p.Done? ==> [] + p.value == p.value;
  }

  lemma NotTooDeep(u: string, depth: nat)
    requires ParseReply(['*'] + u, depth).Done?
    ensures depth < STACK_SIZE - 1
  {
  }

  lemma OnlyOneLine(c: char, s: string, depth: nat, t: string)
    requires c == '-' || c == '+'
    requires var p := ParseReply([c] + s + "\r\n" + t, depth);
      p.Done? && p.value == if c == '-' then ErrorReply(s) else StatusReply(s)
    ensures OneLine(s) && ParseReply([c] + s + "\r\n" + t, depth).used == 1 + |s| + 2
  {
    var u := [c] + s + "\r\n" + t;
    var v := s + "\r\n" + t;
    assert u[1..] == v;
    var k := FindCRLF(v).value;
    assert v[..k] == s;
    forall j | 0 <= j < |s| - 1
      ensures !(s[j] == '\r' && s[j + 1] == '\n')
    {
      assert v[j] == s[j] && v[j + 1] == s[j + 1];
    }
  }

  lemma {:induction false} OnlyEncodableAll(rs: seq<Reply>, depth: nat, t: string)
    requires var p := ParseElements(EncodeAll(rs) + t, depth, |rs|); p.Done? && p.value == rs
    ensures forall i :: 0 <= i < |rs| ==> Encodable(rs[i], depth)
    ensures ParseElements(EncodeAll(rs) + t, depth, |rs|).used == |EncodeAll(rs)|
    decreases rs, 1
  {
    if rs != [] {
      var u, others := EncodeAll(rs[1..]) + t, rs[1..];
      assert EncodeAll(rs) + t == Encode(rs[0]) + u;
      var q := ParseElements((Encode(rs[0]) + u)[ParseReply(Encode(rs[0]) + u, depth).used..], depth, |rs| - 1);
      assert ([ParseReply(Encode(rs[0]) + u, depth).value] + q.value)[1..] == q.value;
      OnlyEncodable(rs[0], depth, u);
      assert (Encode(rs[0]) + u)[|Encode(rs[0])|..] == u;
      OnlyEncodableAll(others, depth, t);
      forall i | 0 <= i < |rs|
        ensures Encodable(rs[i], depth)
      {
        assert i > 0 ==> rs[i] == others[i - 1];
      }
    }
  }

  /** Exactly the replies with a wire form come back from theirs. */
  lemma ComesBackIff(r: Reply, depth: nat, t: string)
    ensures Encodable(r, depth) <==> ParseReply(Encode(r) + t, depth) == Done(r, |Encode(r)|)
  {
    hide Encodable, Encode, ParseReply;
    if Encodable(r, depth) {
      ParseEncode(r, depth, t);
    }
    if ParseReply(Encode(r) + t, depth) == Done(r, |Encode(r)|) {
      OnlyEncodable(r, depth, t);
    }
  }

  /** Reading the encodings of any list of replies hands out exactly those replies, in order, and
      leaves the reader idle with every byte consumed. */
  lemma {:induction false} RunEncode(rs: seq<Reply>)
    requires forall i :: 0 <= i < |rs| ==> Encodable(rs[i], 0)
    ensures Run(IDLE, EncodeAll(rs)) == Outcome(rs, IDLE, [], None)
  {
    if rs != [] {
      var u := EncodeAll(rs[1..]);
      ParseEncode(rs[0], 0, u);
      RunFollowsReply([], EncodeAll(rs));
      assert (Encode(rs[0]) + u)[|Encode(rs[0])|..] == u;
      RunEncode(rs[1..]);
    }
  }

  /** End to end: however the encodings are cut into chunks, the replies come back. */
  lemma ChunkedRoundTrip(rs: seq<Reply>, chunks: seq<string>)
    requires forall i :: 0 <= i < |rs| ==> Encodable(rs[i], 0)
    requires Concat(chunks) == EncodeAll(rs)
    ensures ResumeAll(Outcome([], IDLE, [], None), chunks) == Outcome(rs, IDLE, [], None)
  {
    ChunkIndependence(chunks);
    RunEncode(rs);
  }
}
