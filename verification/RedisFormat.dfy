/** Building commands: the size computed in advance, the buffer filled behind a moving position,
    and what the format language of redisFormatCommand means. */
module RedisFormat {
  import opened Common
  import Resp
  import RespGrammar

  /** A command is the wire form of an array of bulk strings. */
  function AsReply(argv: seq<string>): Resp.Reply {
    Resp.ArrayReply(|argv|, Bulks(argv))
  }

  function Bulks(argv: seq<string>): (rs: seq<Resp.Reply>)
    ensures |rs| == |argv|
    ensures forall i :: 0 <= i < |argv| ==> rs[i] == Resp.StringReply(argv[i])
  {
    if argv == [] then [] else [Resp.StringReply(argv[0])] + Bulks(argv[1..])
  }

  /** The number of arguments is an int, and a string is shorter than half the address space. */
  predicate Sized(argv: seq<string>) {
    |argv| < Resp.TWO32 / 2 && forall i :: 0 <= i < |argv| ==> |argv[i]| < Resp.TWO64 / 2
  }

  function Command(argv: seq<string>): string {
    RespGrammar.Encode(AsReply(argv))
  }

  lemma SizedIsEncodable(argv: seq<string>)
    ensures RespGrammar.Encodable(AsReply(argv), 0) <==> Sized(argv)
  {
    var rs := Bulks(argv);
    forall i | 0 <= i < |argv|
      ensures RespGrammar.Encodable(rs[i], 1) <==> |argv[i]| < Resp.TWO64 / 2
    {
      assert rs[i] == Resp.StringReply(argv[i]);
    }
    assert RespGrammar.Countable(|argv|, rs) <==> |argv| < Resp.TWO32 / 2;
  }

  /** The reader gives the arguments back, whatever bytes are in them, and stops right after the
      command, exactly when their number is an int and their lengths fit a long long. */
  lemma CommandRoundTrip(argv: seq<string>, t: string)
    ensures Sized(argv) <==>
            RespGrammar.ParseReply(Command(argv) + t, 0) == RespGrammar.Done(AsReply(argv), |Command(argv)|)
    ensures Sized(argv) ==> Resp.Run(Resp.IDLE, Command(argv)) == Resp.Outcome([AsReply(argv)], Resp.IDLE, [], None)
  {
    hide Sized, Resp.Run, RespGrammar.ParseReply, RespGrammar.Encodable, RespGrammar.Encode;
    SizedIsEncodable(argv);
    RespGrammar.ComesBackIff(AsReply(argv), 0, t);
    if Sized(argv) {
      RespGrammar.RunEncode([AsReply(argv)]);
      assert RespGrammar.EncodeAll([AsReply(argv)]) == Command(argv) + RespGrammar.EncodeAll([]);
      assert Command(argv) + [] == Command(argv);
    }
  }

  // ---------------------------------------------------------------------- sizes

  /** The length of an integer printed with %d. */
  method IntLen(i: int) returns (len: nat)
    ensures len == |Signed(i)|
  {
    var n := i;
    len := 0;
    if n < 0 {
      len := len + 1;
      n := -n;
    }
    ghost var sign, digits := len, |Decimal(n)|;
    len := len + 1;
    n := n / 10;
    while n != 0
      invariant n >= 0
      invariant sign + digits == len + if n == 0 then 0 else |Decimal(n)|
    {
      len := len + 1;
      n := n / 10;
    }
  }

  function Bulk(s: string): string {
    RespGrammar.Encode(Resp.StringReply(s))
  }

  method BulkLen(len: nat) returns (n: nat)
    ensures n == 1 + |Signed(len)| + 2 + len + 2
    ensures forall s :: |s| == len ==> n == |Bulk(s)|
  {
    var digits := IntLen(len);
    n := 1 + digits + 2 + len + 2;
  }

  // ----------------------------------------------------------------- filling the buffer

  /** What the arguments alone look like on the wire. */
  function Wire(argv: seq<string>): string {
    if argv == [] then [] else Bulk(argv[0]) + Wire(argv[1..])
  }

  function Head(argc: nat): string {
    "*" + Signed(argc) + "\r\n"
  }

  lemma CommandIsWire(argv: seq<string>)
    ensures Command(argv) == Head(|argv|) + Wire(argv)
  {
    WireIsEncodeAll(argv);
  }

  lemma {:induction false} WireIsEncodeAll(argv: seq<string>)
    ensures Wire(argv) == RespGrammar.EncodeAll(Bulks(argv))
  {
    if argv != [] {
      WireIsEncodeAll(argv[1..]);
      assert Bulks(argv)[1..] == Bulks(argv[1..]);
    }
  }

  lemma WireAppend(argv: seq<string>, s: string)
    ensures Wire(argv + [s]) == Wire(argv) + Bulk(s)
  {
    if argv == [] {
      assert argv + [s] == [s];
    } else {
      assert (argv + [s])[1..] == argv[1..] + [s];
      WireAppend(argv[1..], s);
      assert Wire(argv + [s]) == Bulk(argv[0]) + (Wire(argv[1..]) + Bulk(s));
    }
  }

  lemma WirePrefix(argv: seq<string>, j: nat)
    requires j < |argv|
    ensures Wire(argv[..j + 1]) == Wire(argv[..j]) + Bulk(argv[j])
  {
    assert argv[..j + 1] == argv[..j] + [argv[j]];
    WireAppend(argv[..j], argv[j]);
  }

  lemma WirePrefixFits(argv: seq<string>, j: nat)
    requires j <= |argv|
    ensures |Wire(argv[..j])| <= |Wire(argv)|
    decreases |argv| - j
  {
    if j == |argv| {
      assert argv[..j] == argv;
    } else {
      WirePrefix(argv, j);
      WirePrefixFits(argv, j + 1);
    }
  }

  /** sprintf and memcpy at a position of the buffer. */
  method Write(cmd: array<char>, pos: nat, s: string) returns (next: nat)
    requires pos + |s| <= cmd.Length
    modifies cmd
    ensures next == pos + |s|
    ensures cmd[..next] == old(cmd[..pos]) + s
  {
    for i := 0 to |s|
      invariant cmd[..pos + i] == old(cmd[..pos]) + s[..i]
    {
      cmd[pos + i] := s[i];
    }
    assert s[..|s|] == s;
    next := pos + |s|;
  }

  /** One argument: its length line, its bytes, and the closing CR LF. */
  method WriteBulk(cmd: array<char>, pos: nat, arg: string) returns (next: nat)
    requires pos + |Bulk(arg)| <= cmd.Length
    modifies cmd
    ensures next == pos + |Bulk(arg)|
    ensures cmd[..next] == old(cmd[..pos]) + Bulk(arg)
  {
    ghost var before, head := cmd[..pos], "$" + Signed(|arg|) + "\r\n";
    assert Bulk(arg) == head + arg + "\r\n";
    hide Bulk, Signed;
    next := Write(cmd, pos, "$" + Signed(|arg|) + "\r\n");
    next := Write(cmd, next, arg);
    cmd[next] := '\r';
    next := next + 1;
    cmd[next] := '\n';
    next := next + 1;
    assert cmd[..next] == before + head + arg + "\r\n";
    assert before + head + arg + "\r\n" == before + (head + arg + "\r\n");
  }

  /** Writes the command into a buffer of exactly the predicted size and its NUL. */
  method Assemble(argv: seq<string>, totlen: nat) returns (cmd: array<char>)
    requires totlen == |Command(argv)|
    ensures fresh(cmd) && cmd.Length == totlen + 1
    ensures cmd[..totlen] == Command(argv) && cmd[totlen] == '\0'
  {
    hide Bulk, Command, Signed;
    CommandIsWire(argv);
    cmd := new char[totlen + 1];
    var pos: nat := Write(cmd, 0, Head(|argv|));
    for j := 0 to |argv|
      invariant pos == |Head(|argv|)| + |Wire(argv[..j])| <= totlen
      invariant cmd[..pos] == Head(|argv|) + Wire(argv[..j])
    {
      WirePrefix(argv, j);
      WirePrefixFits(argv, j + 1);
      pos := WriteBulk(cmd, pos, argv[j]);
    }
    assert argv[..|argv|] == argv;
    assert pos == totlen;
    cmd[pos] := '\0';
  }

  method FormatCommandArgv(argv: seq<string>) returns (cmd: array<char>, totlen: nat)
    ensures fresh(cmd) && cmd.Length == totlen + 1
    ensures cmd[..totlen] == Command(argv) && cmd[totlen] == '\0'
  {
    var digits := IntLen(|argv|);
    totlen := 1 + digits + 2;
    for j := 0 to |argv|
      invariant totlen == |Head(|argv|)| + |Wire(argv[..j])|
    {
      WirePrefix(argv, j);
      var n := BulkLen(|argv[j]|);
      totlen := totlen + n;
    }
    assert argv[..|argv|] == argv;
    CommandIsWire(argv);
    cmd := Assemble(argv, totlen);
  }

  // ------------------------------------------------------------------- command formats

  datatype Token = Space | Literal(c: char) | StringArg | BinaryArg

  /** The directives of a format. A % at the very end stands for itself. */
  function Lex(format: string): seq<Token>
    requires Supported(format)
    decreases |format|
  {
    if format == [] then []
    else if format[0] != '%' || |format| == 1 then
      [if format[0] == ' ' then Space else Literal(format[0])] + Lex(format[1..])
    else
      [if format[1] == 's' then StringArg else if format[1] == 'b' then BinaryArg else Literal('%')]
      + Lex(format[2..])
  }

  /** Formats that use no other directive than %s, %b and %%. */
  predicate Supported(format: string)
    decreases |format|
  {
    if format == [] then true
    else if format[0] != '%' || |format| == 1 then Supported(format[1..])
    else (format[1] == 's' || format[1] == 'b' || format[1] == '%') && Supported(format[2..])
  }

  /** The directive at a position, and where the next one starts. */
  lemma LexAt(format: string, c: nat)
    requires c < |format| && Supported(format[c..])
    ensures var plain := format[c] != '%' || c + 1 == |format|;
      var next := if plain then c + 1 else c + 2;
      && next <= |format| && Supported(format[next..])
      && (!plain ==> format[c + 1] == 's' || format[c + 1] == 'b' || format[c + 1] == '%')
      && Lex(format[c..]) ==
           [if plain then (if format[c] == ' ' then Space else Literal(format[c]))
            else if format[c + 1] == 's' then StringArg
            else if format[c + 1] == 'b' then BinaryArg
            else Literal('%')] + Lex(format[next..])
  {
    assert format[c..][1..] == format[c + 1..];
    if c + 2 <= |format| {
      assert format[c..][2..] == format[c + 2..];
    }
  }

  /** The words of a format: maximal runs of tokens without a space, `word` being the one begun. */
  function Words(ts: seq<Token>, word: seq<Token>): seq<seq<Token>>
    decreases |ts|
  {
    if ts == [] then (if word == [] then [] else [word])
    else if ts[0].Space? then (if word == [] then Words(ts[1..], []) else [word] + Words(ts[1..], []))
    else Words(ts[1..], word + [ts[0]])
  }

  predicate TakesArg(t: Token) {
    t.StringArg? || t.BinaryArg?
  }

  function Uses(word: seq<Token>): nat {
    if word == [] then 0
    else var n := |word| - 1; Uses(word[..n]) + if TakesArg(word[n]) then 1 else 0
  }

  function UsesAll(words: seq<seq<Token>>): nat {
    if words == [] then 0 else Uses(words[0]) + UsesAll(words[1..])
  }

  /** A C string ends at its first NUL. */
  function CString(s: string): string {
    if s == [] || s[0] == '\0' then [] else [s[0]] + CString(s[1..])
  }

  function Value(t: Token, arg: string): string
    requires TakesArg(t)
  {
    if t.StringArg? then CString(arg) else arg
  }

  /** A word with its arguments put in. */
  function Expand(word: seq<Token>, args: seq<string>): string
    requires Uses(word) <= |args|
  {
    if word == [] then []
    else
      var n := |word| - 1;
      Expand(word[..n], args)
      + if TakesArg(word[n]) then Value(word[n], args[Uses(word[..n])])
        else if word[n].Literal? then [word[n].c]
        else []
  }

  /** One command argument for each word of the format, so their number is the number of words
      whatever the arguments hold. */
  function Fill(words: seq<seq<Token>>, args: seq<string>): (argv: seq<string>)
    requires UsesAll(words) <= |args|
    ensures |argv| == |words|
  {
    if words == [] then []
    else [Expand(words[0], args)] + Fill(words[1..], args[Uses(words[0])..])
  }

  /** A word begun is one of the words to come. */
  lemma {:induction false} WordsUse(ts: seq<Token>, word: seq<Token>)
    ensures Uses(word) <= UsesAll(Words(ts, word))
    decreases |ts|
  {
    if ts == [] {
    } else if ts[0].Space? {
      if word != [] {
        assert Words(ts, word)[0] == word;
      }
    } else {
      WordsUse(ts[1..], word + [ts[0]]);
      assert (word + [ts[0]])[..|word|] == word;
    }
  }

  /** Halfway through the format: `done` arguments are complete, `word` is begun and stands for
      `text`, `ts` is to come; `args` are the values not used by the complete arguments, `unused`
      those not used at all. */
  ghost predicate Halfway(goal: seq<string>, done: seq<string>, word: seq<Token>, ts: seq<Token>,
                          args: seq<string>, text: string, unused: seq<string>) {
    && UsesAll(Words(ts, word)) <= |args|
    && goal == done + Fill(Words(ts, word), args)
    && Uses(word) <= |args|
    && text == Expand(word, args)
    && unused == args[Uses(word)..]
  }

  lemma LexEmpty()
    ensures Lex([]) == []
  {
  }

  lemma StartFormat(ts: seq<Token>, args: seq<string>)
    requires UsesAll(Words(ts, [])) <= |args|
    ensures Halfway(Fill(Words(ts, []), args), [], [], ts, args, "", args)
    ensures Wire([]) == []
  {
  }

  lemma EndFormat(goal: seq<string>, done: seq<string>, args: seq<string>, text: string, unused: seq<string>)
    requires Halfway(goal, done, [], [], args, text, unused)
    ensures done == goal
  {
  }

  /** A space with no word before it. */
  lemma SkipSpace(goal: seq<string>, done: seq<string>, ts: seq<Token>,
                  args: seq<string>, text: string, unused: seq<string>)
    requires Halfway(goal, done, [], ts, args, text, unused)
    requires ts != [] && ts[0].Space?
    ensures Halfway(goal, done, [], ts[1..], args, text, unused)
  {
  }

  /** A space, or the end of the format, ends the word. */
  lemma EndWord(goal: seq<string>, done: seq<string>, word: seq<Token>, ts: seq<Token>,
                args: seq<string>, text: string, unused: seq<string>)
    requires Halfway(goal, done, word, ts, args, text, unused)
    requires word != [] && (ts == [] || ts[0].Space?)
    ensures Halfway(goal, done + [text], [], if ts == [] then [] else ts[1..], unused, "", unused)
  {
    var later := if ts == [] then [] else Words(ts[1..], []);
    assert Words(ts, word) == [word] + later;
    assert ts == [] ==> Words([], []) == later;
    assert ([word] + later)[1..] == later;
    assert Fill([word] + later, args) == [Expand(word, args)] + Fill(later, args[Uses(word)..]);
  }

  /** Any other token goes into the word, its value being the next argument not used. */
  lemma ExtendWord(goal: seq<string>, done: seq<string>, word: seq<Token>, ts: seq<Token>,
                   args: seq<string>, text: string, unused: seq<string>)
    requires Halfway(goal, done, word, ts, args, text, unused)
    requires ts != [] && !ts[0].Space?
    ensures TakesArg(ts[0]) ==> unused != []
    ensures Halfway(goal, done, word + [ts[0]], ts[1..], args,
                    text + if TakesArg(ts[0]) then Value(ts[0], unused[0])
                           else if ts[0].Literal? then [ts[0].c] else [],
                    if TakesArg(ts[0]) then unused[1..] else unused)
  {
    WordsUse(ts[1..], word + [ts[0]]);
    assert (word + [ts[0]])[..|word|] == word;
  }

  /** Appends a complete argument and accounts for its bytes. */
  method AddArgument(argv: seq<string>, totlen: nat, arg: string) returns (argv': seq<string>, totlen': nat)
    requires totlen == |Wire(argv)|
    ensures argv' == argv + [arg] && totlen' == |Wire(argv')|
  {
    WireAppend(argv, arg);
    argv' := argv + [arg];
    var n := BulkLen(|arg|);
    totlen' := totlen + n;
  }

  /** One directive: puts the next argument, or the percent sign, behind the text so far. */
  method Interpolate(directive: char, curarg: string, args: seq<string>, ap: nat) returns (newarg: string, ap': nat)
    requires directive == 's' || directive == 'b' ==> ap < |args|
    ensures newarg == curarg + if directive == 's' then Value(StringArg, args[ap])
                               else if directive == 'b' then Value(BinaryArg, args[ap])
                               else "%"
    ensures ap' == ap + if directive == 's' || directive == 'b' then 1 else 0
  {
    newarg, ap' := curarg, ap;
    if directive == 's' {
      var arg := CString(args[ap]);
      ap' := ap + 1;
      if |arg| > 0 { newarg := curarg + arg; }
    } else if directive == 'b' {
      var arg := args[ap];
      ap' := ap + 1;
      if |arg| > 0 { newarg := curarg + arg; }
    } else {
      newarg := curarg + "%";
    }
  }

  /** Builds the arguments, character by character of the format. */
  method CollectArguments(format: string, args: seq<string>) returns (curargv: seq<string>, totlen: nat)
    requires Supported(format) && UsesAll(Words(Lex(format), [])) <= |args|
    ensures curargv == Fill(Words(Lex(format), []), args)
    ensures totlen == |Wire(curargv)|
  {
    hide Lex, Words, Fill, Halfway, UsesAll, Wire;
    var c, ap := 0, 0;
    var curarg := "";
    var touched := false;
    curargv, totlen := [], 0;
    ghost var goal := Fill(Words(Lex(format), []), args);
    ghost var word, rest, ts: seq<Token> := [], args, Lex(format);
    StartFormat(ts, args);
    assert format[0..] == format && args[0..] == args;
    while c < |format|
      invariant c <= |format| && Supported(format[c..]) && ts == Lex(format[c..])
      invariant ap <= |args| && Halfway(goal, curargv, word, ts, rest, curarg, args[ap..])
      invariant touched <==> word != []
      invariant totlen == |Wire(curargv)|
    {
      LexAt(format, c);
      if format[c] != '%' || c + 1 == |format| {
        if format[c] == ' ' {
          if touched {
            EndWord(goal, curargv, word, ts, rest, curarg, args[ap..]);
            rest, word := args[ap..], [];
            curargv, totlen := AddArgument(curargv, totlen, curarg);
            curarg := "";
            touched := false;
          } else {
            SkipSpace(goal, curargv, ts, rest, curarg, args[ap..]);
          }
        } else {
          ExtendWord(goal, curargv, word, ts, rest, curarg, args[ap..]);
          word := word + [ts[0]];
          curarg := curarg + [format[c]];
          touched := true;
        }
      } else {
        ExtendWord(goal, curargv, word, ts, rest, curarg, args[ap..]);
        word := word + [ts[0]];
        curarg, ap := Interpolate(format[c + 1], curarg, args, ap);
        touched := true;
        c := c + 1;
      }
      ts := ts[1..];
      c := c + 1;
    }
    assert ts == [] by {
      assert format[c..] == [];
      LexEmpty();
    }
    if touched {
      EndWord(goal, curargv, word, ts, rest, curarg, args[ap..]);
      curargv, totlen := AddArgument(curargv, totlen, curarg);
      EndFormat(goal, curargv, args[ap..], "", args[ap..]);
    } else {
      EndFormat(goal, curargv, rest, curarg, args[ap..]);
    }
  }

  /** One bulk for each word of the format, its directives replaced by the arguments. */
  method FormatCommand(format: string, args: seq<string>) returns (cmd: array<char>, totlen: nat)
    requires Supported(format) && UsesAll(Words(Lex(format), [])) <= |args|
    ensures fresh(cmd) && cmd.Length == totlen + 1
    ensures cmd[..totlen] == Command(Fill(Words(Lex(format), []), args)) && cmd[totlen] == '\0'
  {
    var curargv;
    curargv, totlen := CollectArguments(format, args);
    var digits := IntLen(|curargv|);
    totlen := totlen + 1 + digits + 2;
    CommandIsWire(curargv);
    cmd := Assemble(curargv, totlen);
  }
}
