/** What the format language of redisFormatCommand means, word by word of the format. */
module RedisWords {
  import opened Common
  import opened RedisFormat
  import Resp
  import RespGrammar

  /** What a word of a format is made of, each directive together with the value passed for it. `seen`
      is the part of the value that %s is to take; Final is a percent sign at the very end. */
  datatype Piece = Plain(c: char) | Percent | Text(value: string, seen: string) | Bytes(value: string) | Final

  datatype Word = Word(gap: string, pieces: seq<Piece>)

  /** The longest beginning without a NUL. */
  predicate UpToNul(value: string, seen: string) {
    && |seen| <= |value| && value[..|seen|] == seen
    && '\0' !in seen
    && (|seen| == |value| || value[|seen|] == '\0')
  }

  predicate Blank(s: string) {
    forall i :: 0 <= i < |s| ==> s[i] == ' '
  }

  predicate GoodPiece(p: Piece) {
    match p
    case Plain(c) => c != ' ' && c != '%'
    case Text(value, seen) => UpToNul(value, seen)
    case _ => true
  }

  /** The pieces of a word, which is the last one of the format if `last`. */
  predicate GoodPieces(ps: seq<Piece>, last: bool) {
    && (forall i :: 0 <= i < |ps| ==> GoodPiece(ps[i]))
    && forall i :: 0 <= i < |ps| && ps[i].Final? ==> i == |ps| - 1 && last
  }

  /** Words with spaces between them, and any spaces in front and behind. */
  predicate GoodWords(ws: seq<Word>, tail: string) {
    if ws == [] then Blank(tail)
    else
      && Blank(ws[0].gap) && ws[0].pieces != [] && GoodPieces(ws[0].pieces, ws[1..] == [] && tail == "")
      && (ws[1..] != [] ==> ws[1].gap != "")
      && GoodWords(ws[1..], tail)
  }

  function Spell(p: Piece): string {
    match p
    case Plain(c) => [c]
    case Percent => "%%"
    case Text(_, _) => "%s"
    case Bytes(_) => "%b"
    case Final => "%"
  }

  function SpellAll(ps: seq<Piece>): string {
    if ps == [] then "" else Spell(ps[0]) + SpellAll(ps[1..])
  }

  /** The format. */
  function Format(ws: seq<Word>, tail: string): string {
    if ws == [] then tail else ws[0].gap + SpellAll(ws[0].pieces) + Format(ws[1..], tail)
  }

  /** What a piece stands for. */
  function Meaning(p: Piece): string {
    match p
    case Plain(c) => [c]
    case Percent => "%"
    case Text(_, seen) => seen
    case Bytes(value) => value
    case Final => "%"
  }

  function WordMeaning(ps: seq<Piece>): string {
    if ps == [] then "" else WordMeaning(ps[..|ps| - 1]) + Meaning(ps[|ps| - 1])
  }

  /** The command meant. */
  function Meanings(ws: seq<Word>): seq<string> {
    if ws == [] then [] else [WordMeaning(ws[0].pieces)] + Meanings(ws[1..])
  }

  predicate HasValue(p: Piece) {
    p.Text? || p.Bytes?
  }

  function WordValues(ps: seq<Piece>): seq<string> {
    if ps == [] then []
    else
      var n := |ps| - 1;
      WordValues(ps[..n]) + if HasValue(ps[n]) then [ps[n].value] else []
  }

  /** The values to be passed. */
  function Values(ws: seq<Word>): seq<string> {
    if ws == [] then [] else WordValues(ws[0].pieces) + Values(ws[1..])
  }

  // ---------------------------------------------------------------------- tokens

  function TokenOf(p: Piece): Token {
    match p
    case Plain(c) => Literal(c)
    case Percent => Literal('%')
    case Text(_, _) => StringArg
    case Bytes(_) => BinaryArg
    case Final => Literal('%')
  }

  function Tokens(ps: seq<Piece>): (ts: seq<Token>)
    ensures |ts| == |ps| && forall i :: 0 <= i < |ps| ==> ts[i] == TokenOf(ps[i])
  {
    if ps == [] then [] else [TokenOf(ps[0])] + Tokens(ps[1..])
  }

  lemma LexPiece(p: Piece, rest: string)
    requires GoodPiece(p) && Supported(rest) && (p.Final? ==> rest == "")
    ensures Supported(Spell(p) + rest) && Lex(Spell(p) + rest) == [TokenOf(p)] + Lex(rest)
  {
    var s := Spell(p) + rest;
    assert p.Plain? ==> s[1..] == rest;
    assert !p.Plain? && !p.Final? ==> s[2..] == rest;
    assert p.Final? ==> s == "%" && s[1..] == rest;
  }

  lemma {:induction false} LexPieces(ps: seq<Piece>, rest: string)
    requires GoodPieces(ps, rest == "") && Supported(rest)
    ensures Supported(SpellAll(ps) + rest) && Lex(SpellAll(ps) + rest) == Tokens(ps) + Lex(rest)
  {
    hide Lex, Supported, Spell, GoodPiece, TokenOf;
    if ps == [] {
      assert SpellAll(ps) + rest == rest;
    } else {
      LexPieces(ps[1..], rest);
      LexPiece(ps[0], SpellAll(ps[1..]) + rest);
      assert SpellAll(ps) + rest == Spell(ps[0]) + (SpellAll(ps[1..]) + rest);
      assert Tokens(ps) + Lex(rest) == [TokenOf(ps[0])] + (Tokens(ps[1..]) + Lex(rest));
    }
  }

  /** Spaces are passed before a word, and end one. */
  lemma {:induction false} LexBlank(gap: string, rest: string)
    requires Blank(gap) && Supported(rest)
    ensures Supported(gap + rest)
    ensures Words(Lex(gap + rest), []) == Words(Lex(rest), [])
    ensures forall word :: word != [] && gap != "" ==>
              Words(Lex(gap + rest), word) == [word] + Words(Lex(rest), [])
  {
    if gap == "" {
      assert gap + rest == rest;
    } else {
      LexBlank(gap[1..], rest);
      assert (gap + rest)[1..] == gap[1..] + rest;
      assert Lex(gap + rest) == [Space] + Lex(gap[1..] + rest);
    }
  }

  lemma {:induction false} WordsTake(ps: seq<Piece>, ts: seq<Token>, word: seq<Token>)
    ensures Words(Tokens(ps) + ts, word) == Words(ts, word + Tokens(ps))
  {
    if ps == [] {
      assert Tokens(ps) + ts == ts && word + Tokens(ps) == word;
    } else {
      var t := TokenOf(ps[0]);
      assert Tokens(ps) + ts == [t] + (Tokens(ps[1..]) + ts);
      assert ([t] + (Tokens(ps[1..]) + ts))[1..] == Tokens(ps[1..]) + ts;
      WordsTake(ps[1..], ts, word + [t]);
      assert word + [t] + Tokens(ps[1..]) == word + Tokens(ps);
    }
  }

  // ------------------------------------------------------------------ one word's text

  lemma CStringIsSeen(value: string, seen: string)
    requires UpToNul(value, seen)
    ensures CString(value) == seen
  {
    if seen == "" {
      assert value != "" ==> value[0] == '\0';
    } else {
      assert value[0] == seen[0] && seen[0] in seen;
      assert forall c :: c in seen[1..] ==> c in seen;
      assert value[1..][..|seen[1..]|] == seen[1..];
      CStringIsSeen(value[1..], seen[1..]);
    }
  }

  lemma TokensAt(ps: seq<Piece>)
    requires ps != []
    ensures Tokens(ps) != [] && Tokens(ps)[..|ps| - 1] == Tokens(ps[..|ps| - 1])
    ensures Tokens(ps)[|ps| - 1] == TokenOf(ps[|ps| - 1])
  {
    hide TokenOf;
  }

  lemma PieceValue(p: Piece, value: string)
    requires GoodPiece(p) && HasValue(p) && value == p.value
    ensures TakesArg(TokenOf(p)) && Value(TokenOf(p), value) == Meaning(p)
  {
    hide UpToNul;
    if p.Text? {
      CStringIsSeen(p.value, p.seen);
    }
  }

  lemma UsesLast(word: seq<Token>)
    requires word != []
    ensures Uses(word) == Uses(word[..|word| - 1]) + if TakesArg(word[|word| - 1]) then 1 else 0
  {
  }

  lemma ExpandLast(word: seq<Token>, args: seq<string>)
    requires word != [] && Uses(word) <= |args|
    ensures Uses(word[..|word| - 1]) <= |args|
    ensures var n := |word| - 1;
      Expand(word, args) == Expand(word[..n], args)
        + if TakesArg(word[n]) then Value(word[n], args[Uses(word[..n])])
          else if word[n].Literal? then [word[n].c]
          else []
  {
  }

  /** A word's tokens use exactly its values, and stand for its meaning. */
  lemma {:induction false} WordExpands(ps: seq<Piece>, args: seq<string>)
    requires (forall i :: 0 <= i < |ps| ==> GoodPiece(ps[i])) && WordValues(ps) <= args
    ensures Uses(Tokens(ps)) == |WordValues(ps)|
    ensures Expand(Tokens(ps), args) == WordMeaning(ps)
  {
    hide GoodPiece, Expand, Uses, Value, Tokens;
    if ps == [] {
      NoTokens(args);
    } else {
      var n := |ps| - 1;
      WordExpands(ps[..n], args);
      TokensAt(ps);
      UsesLast(Tokens(ps));
      ExpandLast(Tokens(ps), args);
      if HasValue(ps[n]) {
        assert args[|WordValues(ps[..n])|] == WordValues(ps)[|WordValues(ps[..n])|] == ps[n].value;
        PieceValue(ps[n], ps[n].value);
      }
    }
  }

  lemma NoTokens(args: seq<string>)
    ensures Uses(Tokens([])) == 0 && Expand(Tokens([]), args) == ""
  {
  }

  // -------------------------------------------------------------------- whole formats

  lemma {:induction false} TailIsBlank(tail: string)
    requires Blank(tail)
    ensures Supported(tail) && Words(Lex(tail), []) == []
    ensures forall word :: word != [] ==> Words(Lex(tail), word) == [word]
  {
    LexBlank(tail, "");
    assert tail + "" == tail;
  }

  /** The words of a format are the tokens of its words. */
  function AllTokens(ws: seq<Word>): seq<seq<Token>> {
    if ws == [] then [] else [Tokens(ws[0].pieces)] + AllTokens(ws[1..])
  }

  /** Behind a word begun, another one or the end. */
  lemma {:induction false} WordEnds(ws: seq<Word>, tail: string, word: seq<Token>)
    requires GoodWords(ws, tail) && Supported(Format(ws, tail)) && word != []
    requires ws != [] ==> ws[0].gap != "" && Supported(SpellAll(ws[0].pieces) + Format(ws[1..], tail))
    ensures Words(Lex(Format(ws, tail)), word) == [word] + Words(Lex(Format(ws, tail)), [])
  {
    hide Lex, Words, Supported, GoodPieces, SpellAll;
    if ws == [] {
      TailIsBlank(tail);
    } else {
      var rest := SpellAll(ws[0].pieces) + Format(ws[1..], tail);
      LexBlank(ws[0].gap, rest);
      assert Format(ws, tail) == ws[0].gap + rest;
    }
  }

  lemma FormatFront(ws: seq<Word>, tail: string)
    requires GoodWords(ws, tail) && ws != []
    ensures Format(ws, tail) == ws[0].gap + (SpellAll(ws[0].pieces) + Format(ws[1..], tail))
    ensures Blank(ws[0].gap) && ws[0].pieces != [] && GoodWords(ws[1..], tail)
    ensures ws[1..] != [] ==> ws[1].gap != ""
    ensures AllTokens(ws) == [Tokens(ws[0].pieces)] + AllTokens(ws[1..])
  {
    hide SpellAll, Tokens, GoodPieces, Blank;
  }

  lemma {:induction false} FormatWords(ws: seq<Word>, tail: string)
    requires GoodWords(ws, tail)
    ensures Supported(Format(ws, tail))
    ensures ws != [] ==> Supported(SpellAll(ws[0].pieces) + Format(ws[1..], tail))
    ensures Words(Lex(Format(ws, tail)), []) == AllTokens(ws)
  {
    if ws == [] {
      TailIsBlank(tail);
    } else {
      hide *;
      var ps, later := ws[0].pieces, Format(ws[1..], tail);
      FormatFront(ws, tail);
      FormatWords(ws[1..], tail);
      OnlyEmpty(ws, tail);
      FirstWord(ps, later);
      LexBlank(ws[0].gap, SpellAll(ps) + later);
      WordEnds(ws[1..], tail, Tokens(ps));
    }
  }

  lemma FirstWord(ps: seq<Piece>, later: string)
    requires GoodPieces(ps, later == "") && Supported(later)
    ensures Supported(SpellAll(ps) + later)
    ensures Words(Lex(SpellAll(ps) + later), []) == Words(Lex(later), Tokens(ps))
  {
    hide *;
    LexPieces(ps, later);
    WordsTake(ps, Lex(later), []);
    assert [] + Tokens(ps) == Tokens(ps);
  }

  lemma OnlyEmpty(ws: seq<Word>, tail: string)
    requires GoodWords(ws, tail) && ws != []
    ensures GoodPieces(ws[0].pieces, Format(ws[1..], tail) == "")
  {
    hide SpellAll;
  }

  lemma {:induction false} FillWords(ws: seq<Word>, tail: string, more: seq<string>)
    requires GoodWords(ws, tail)
    ensures UsesAll(AllTokens(ws)) == |Values(ws)|
    ensures Fill(AllTokens(ws), Values(ws) + more) == Meanings(ws)
  {
    hide Uses, Expand, Tokens, WordValues, WordMeaning;
    if ws != [] {
      var args, values := Values(ws) + more, WordValues(ws[0].pieces);
      assert args == values + (Values(ws[1..]) + more);
      WordExpands(ws[0].pieces, args);
      FillWords(ws[1..], tail, more);
      assert args[|values|..] == Values(ws[1..]) + more;
      assert AllTokens(ws)[1..] == AllTokens(ws[1..]);
    }
  }

  /** A format with the values it calls for gives the arguments meant: %b its value byte for byte, %s the
      longest NUL-free beginning of it, a character and %% themselves, spaces nothing. */
  lemma FormatMeans(ws: seq<Word>, tail: string, more: seq<string>)
    requires GoodWords(ws, tail)
    ensures Supported(Format(ws, tail))
    ensures UsesAll(Words(Lex(Format(ws, tail)), [])) == |Values(ws)|
    ensures Fill(Words(Lex(Format(ws, tail)), []), Values(ws) + more) == Meanings(ws)
  {
    hide *;
    FormatWords(ws, tail);
    FillWords(ws, tail, more);
  }

  // ----------------------------------------------------------------- storing an image

  const SET := "SET %s %b"

  lemma OnePiece(p: Piece)
    ensures SpellAll([p]) == Spell(p) && WordMeaning([p]) == Meaning(p)
    ensures WordValues([p]) == if HasValue(p) then [p.value] else []
  {
    hide Spell, Meaning;
    assert [p][1..] == [] && [p][..0] == [];
    assert SpellAll([p]) == Spell(p) + SpellAll([]) && WordMeaning([p]) == WordMeaning([]) + Meaning(p);
  }

  /** A word without directives is itself. */
  lemma {:induction false} PlainWord(text: string) returns (ps: seq<Piece>)
    requires forall i :: 0 <= i < |text| ==> text[i] != ' ' && text[i] != '%'
    ensures GoodPieces(ps, false) && |ps| == |text|
    ensures SpellAll(ps) == text == WordMeaning(ps) && WordValues(ps) == []
  {
    hide SpellAll, WordMeaning, WordValues, GoodPieces;
    if text == "" {
      NoPieces();
      ps := [];
    } else {
      var n := |text| - 1;
      var front := PlainWord(text[..n]);
      assert text == text[..n] + [text[n]];
      ps := PlainLast(front, text[..n], text[n]);
    }
  }

  lemma NoPieces()
    ensures GoodPieces([], false) && SpellAll([]) == "" == WordMeaning([]) && WordValues([]) == []
  {
  }

  lemma PlainLast(front: seq<Piece>, text: string, c: char) returns (ps: seq<Piece>)
    requires GoodPieces(front, false) && |front| == |text| && c != ' ' && c != '%'
    requires SpellAll(front) == text == WordMeaning(front) && WordValues(front) == []
    ensures GoodPieces(ps, false) && |ps| == |text| + 1
    ensures SpellAll(ps) == text + [c] == WordMeaning(ps) && WordValues(ps) == []
  {
    ps := front + [Plain(c)];
    assert ps[..|text|] == front;
    SpellLast(front, Plain(c));
    hide SpellAll;
  }

  lemma {:induction false} SpellLast(ps: seq<Piece>, p: Piece)
    ensures SpellAll(ps + [p]) == SpellAll(ps) + Spell(p)
  {
    hide Spell;
    if ps == [] {
      OnePiece(p);
      assert ps + [p] == [p];
    } else {
      SpellLast(ps[1..], p);
      assert (ps + [p])[1..] == ps[1..] + [p];
    }
  }

  lemma ThreeWords(a: seq<Piece>, b: seq<Piece>, c: seq<Piece>)
    requires a != [] && b != [] && c != []
    requires GoodPieces(a, false) && GoodPieces(b, false) && GoodPieces(c, true)
    ensures var ws := [Word("", a), Word(" ", b), Word(" ", c)];
      && GoodWords(ws, "")
      && Format(ws, "") == SpellAll(a) + (" " + SpellAll(b) + (" " + SpellAll(c)))
      && Values(ws) == WordValues(a) + (WordValues(b) + WordValues(c))
      && Meanings(ws) == [WordMeaning(a), WordMeaning(b), WordMeaning(c)]
  {
    hide GoodPieces, SpellAll, WordValues, WordMeaning;
    var ws := [Word("", a), Word(" ", b), Word(" ", c)];
    var later, last := ws[1..], ws[2..];
    assert later[1..] == last && last[1..] == [];
    LastWord(c);
    assert Format(later, "") == " " + SpellAll(b) + Format(last, "");
    assert Values(later) == WordValues(b) + Values(last);
    assert Meanings(later) == [WordMeaning(b)] + Meanings(last);
    assert GoodPieces(a, false) && GoodPieces(b, false);
  }

  lemma LastWord(c: seq<Piece>)
    requires c != [] && GoodPieces(c, true)
    ensures var ws := [Word(" ", c)];
      && GoodWords(ws, "") && Format(ws, "") == " " + SpellAll(c)
      && Values(ws) == WordValues(c) && Meanings(ws) == [WordMeaning(c)]
  {
    hide GoodPieces, SpellAll, WordValues, WordMeaning;
    var ws := [Word(" ", c)];
    assert ws[1..] == [];
    assert Format([], "") == "" && Values([]) == [] && Meanings([]) == [] && GoodWords([], "");
  }

  /** SET, the key, and the bytes as they are, NULs and all. */
  lemma SetMeans(key: string, name: string, buff: string)
    requires UpToNul(key, name)
    ensures Supported(SET) && UsesAll(Words(Lex(SET), [])) == 2
    ensures Fill(Words(Lex(SET), []), [key, buff]) == ["SET", name, buff]
  {
    hide Fill, Lex, Words, Supported, UsesAll, UpToNul, SpellAll, WordMeaning, WordValues, GoodWords, Format, Values,
      Meanings;
    var verb := PlainWord("SET");
    var text, bytes := [Text(key, name)], [Bytes(buff)];
    OnePiece(text[0]);
    OnePiece(bytes[0]);
    ThreeWords(verb, text, bytes);
    var ws := [Word("", verb), Word(" ", text), Word(" ", bytes)];
    assert "SET" + (" " + "%s" + (" " + "%b")) == SET == Format(ws, "");
    assert [] + ([key] + [buff]) == [key, buff] == [key, buff] + [];
    FormatMeans(ws, "", []);
  }

  /** A command on the wire: the number of arguments, then each with its length in bytes. */
  lemma SetOnTheWire(key: string, buff: string)
    ensures Command(["SET", key, buff]) ==
              "*3\r\n$3\r\nSET\r\n"
              + ("$" + Decimal(|key|) + "\r\n" + key + "\r\n")
              + ("$" + Decimal(|buff|) + "\r\n" + buff + "\r\n")
  {
    var argv := ["SET", key, buff];
    CommandIsWire(argv);
    BulkText("SET");
    BulkText(key);
    BulkText(buff);
    assert Decimal(3) == "3";
    hide Bulk, Decimal, Command;
    assert argv[1..] == [key, buff] && argv[2..] == [buff] && argv[1..][1..] == argv[2..];
    assert Wire([buff]) == Bulk(buff) + Wire([]);
    assert "*3\r\n" + (Bulk("SET") + (Bulk(key) + Bulk(buff))) == "*3\r\n" + Bulk("SET") + Bulk(key) + Bulk(buff);
    assert "*3\r\n" + Bulk("SET") == "*3\r\n$3\r\nSET\r\n";
  }

  lemma BulkText(s: string)
    ensures Bulk(s) == "$" + Decimal(|s|) + "\r\n" + s + "\r\n"
  {
  }

  /** What save_img_ssdb sends. */
  method SaveCommand(key: string, buff: string) returns (cmd: array<char>, totlen: nat)
    requires '\0' !in key
    ensures fresh(cmd) && cmd.Length == totlen + 1
    ensures cmd[..totlen] == "*3\r\n$3\r\nSET\r\n"
                             + ("$" + Decimal(|key|) + "\r\n" + key + "\r\n")
                             + ("$" + Decimal(|buff|) + "\r\n" + buff + "\r\n")
  {
    hide Fill, Lex, Words, Supported, UsesAll, Command, Decimal;
    SetMeans(key, key, buff);
    SetOnTheWire(key, buff);
    cmd, totlen := FormatCommand(SET, [key, buff]);
  }

  /** Any format, its words and values given. */
  method CommandOf(ws: seq<Word>, tail: string, more: seq<string>) returns (cmd: array<char>, totlen: nat)
    requires GoodWords(ws, tail)
    ensures fresh(cmd) && cmd.Length == totlen + 1
    ensures cmd[..totlen] == Command(Meanings(ws))
  {
    FormatMeans(ws, tail, more);
    cmd, totlen := FormatCommand(Format(ws, tail), Values(ws) + more);
  }

  // ---------------------------------------------------------- every format is one of words

  lemma {:induction false} CStringIsUpToNul(value: string)
    ensures UpToNul(value, CString(value))
  {
    if value != [] && value[0] != '\0' {
      var rest := CString(value[1..]);
      CStringIsUpToNul(value[1..]);
      assert value[..|rest| + 1] == [value[0]] + value[1..][..|rest|];
      assert |rest| + 1 < |value| ==> value[|rest| + 1] == value[1..][|rest|];
    }
  }

  /** How many values a row of directives takes. */
  function Takes(ts: seq<Token>): nat {
    if ts == [] then 0 else (if TakesArg(ts[0]) then 1 else 0) + Takes(ts[1..])
  }

  lemma {:induction false} UsesAllTakes(ts: seq<Token>, word: seq<Token>)
    ensures UsesAll(Words(ts, word)) == Uses(word) + Takes(ts)
    decreases |ts|
  {
    if ts == [] {
      assert word != [] ==> UsesAll([word]) == Uses(word) + UsesAll([]);
    } else if ts[0].Space? {
      UsesAllTakes(ts[1..], []);
      assert ([word] + Words(ts[1..], []))[1..] == Words(ts[1..], []);
    } else {
      UsesAllTakes(ts[1..], word + [ts[0]]);
      assert (word + [ts[0]])[..|word|] == word;
    }
  }

  /** The first character of a format that is no space, or its first directive. */
  lemma FirstPiece(format: string, args: seq<string>) returns (p: Piece)
    requires Supported(format) && format != "" && format[0] != ' ' && Takes(Lex(format)) <= |args|
    ensures GoodPiece(p) && Spell(p) <= format && (p.Final? ==> format == "%")
    ensures Spell(p) != "" && Supported(format[|Spell(p)|..])
    ensures Takes(Lex(format)) == Takes(Lex(format[|Spell(p)|..])) + if HasValue(p) then 1 else 0
    ensures HasValue(p) ==> args != [] && p.value == args[0]
  {
    if format[0] != '%' {
      p := Plain(format[0]);
    } else if |format| == 1 {
      p := Final;
    } else if format[1] == 's' {
      CStringIsUpToNul(args[0]);
      p := Text(args[0], CString(args[0]));
    } else {
      p := if format[1] == 'b' then Bytes(args[0]) else Percent;
    }
  }

  lemma {:induction false} WordValuesFront(p: Piece, ps: seq<Piece>)
    ensures WordValues([p] + ps) == (if HasValue(p) then [p.value] else []) + WordValues(ps)
  {
    var all := [p] + ps;
    if ps == [] {
      assert all[..0] == [];
    } else {
      WordValuesFront(p, ps[..|ps| - 1]);
      assert all[..|all| - 1] == [p] + ps[..|ps| - 1];
    }
  }

  /** A piece in front of words begins a word, */
  lemma BeginWord(p: Piece, ws: seq<Word>, tail: string) returns (ws': seq<Word>)
    requires GoodPiece(p) && GoodWords(ws, tail) && (p.Final? ==> ws == [] && tail == "")
    requires ws != [] ==> ws[0].gap != ""
    ensures GoodWords(ws', tail) && Format(ws', tail) == Spell(p) + Format(ws, tail)
    ensures Values(ws') == (if HasValue(p) then [p.value] else []) + Values(ws)
  {
    hide GoodPiece, Spell;
    WordValuesFront(p, []);
    assert [p] + [] == [p] && SpellAll([p]) == Spell(p) + SpellAll([]);
    ws' := [Word("", [p])] + ws;
    assert ws'[1..] == ws;
  }

  lemma JoinPieces(p: Piece, ps: seq<Piece>, last: bool)
    requires GoodPiece(p) && !p.Final? && GoodPieces(ps, last)
    ensures GoodPieces([p] + ps, last) && SpellAll([p] + ps) == Spell(p) + SpellAll(ps)
  {
    hide GoodPiece, Spell;
    assert ([p] + ps)[1..] == ps;
  }

  /** or joins the first one. */
  lemma JoinWord(p: Piece, ws: seq<Word>, tail: string) returns (ws': seq<Word>)
    requires GoodPiece(p) && !p.Final? && GoodWords(ws, tail) && ws != [] && ws[0].gap == ""
    ensures GoodWords(ws', tail) && Format(ws', tail) == Spell(p) + Format(ws, tail)
    ensures Values(ws') == (if HasValue(p) then [p.value] else []) + Values(ws)
  {
    hide GoodPiece, Spell, GoodPieces, SpellAll, WordValues;
    hide Format, Values, GoodWords;
    var ps, others := ws[0].pieces, ws[1..];
    InFront(ws[0], others, tail);
    assert [ws[0]] + others == ws;
    WordValuesFront(p, ps);
    JoinPieces(p, ps, others == [] && tail == "");
    var w := Word("", [p] + ps);
    InFront(w, others, tail);
    ws' := [w] + others;
  }

  lemma InFront(w: Word, others: seq<Word>, tail: string)
    ensures var ws := [w] + others;
      && Format(ws, tail) == w.gap + SpellAll(w.pieces) + Format(others, tail)
      && Values(ws) == WordValues(w.pieces) + Values(others)
      && (GoodWords(ws, tail) <==>
            && Blank(w.gap) && w.pieces != [] && GoodPieces(w.pieces, others == [] && tail == "")
            && (others != [] ==> others[0].gap != "") && GoodWords(others, tail))
  {
    hide GoodPieces, SpellAll, WordValues, Blank;
    assert ([w] + others)[1..] == others;
  }

  lemma SpellNotEmpty(ps: seq<Piece>)
    requires ps != []
    ensures SpellAll(ps) != ""
  {
  }

  lemma NoneLeft(ws: seq<Word>, tail: string)
    requires GoodWords(ws, tail)
    ensures Format(ws, tail) == "" ==> ws == [] && tail == ""
  {
    hide SpellAll, GoodPieces;
    if ws != [] {
      SpellNotEmpty(ws[0].pieces);
    }
  }

  lemma NoWords()
    ensures GoodWords([], "") && Format([], "") == "" && Values([]) == []
  {
  }

  lemma SpaceFirst(format: string)
    requires Supported(format) && format != "" && format[0] == ' '
    ensures Supported(format[1..]) && Takes(Lex(format)) == Takes(Lex(format[1..]))
  {
  }

  lemma PutSpace(ws: seq<Word>, tail: string) returns (ws': seq<Word>, tail': string)
    requires GoodWords(ws, tail)
    ensures GoodWords(ws', tail') && Format(ws', tail') == " " + Format(ws, tail) && Values(ws') == Values(ws)
  {
    hide GoodPieces, SpellAll, WordValues;
    ws', tail' := ws, tail;
    if ws == [] {
      tail' := " " + tail;
    } else {
      ws' := [Word(" " + ws[0].gap, ws[0].pieces)] + ws[1..];
      assert ws'[1..] == ws[1..];
    }
  }

  /** Every format that is supported is one of words, with the values its directives find. */
  lemma {:induction false} EveryFormat(format: string, args: seq<string>) returns (ws: seq<Word>, tail: string)
    requires Supported(format) && Takes(Lex(format)) <= |args|
    ensures GoodWords(ws, tail) && Format(ws, tail) == format && Values(ws) <= args
    decreases |format|
  {
    hide *;
    if format == "" {
      ws, tail := [], "";
      NoWords();
    } else if format[0] == ' ' {
      SpaceFirst(format);
      ws, tail := EveryFormat(format[1..], args);
      ws, tail := PutSpace(ws, tail);
      assert format == " " + format[1..];
    } else {
      var p := FirstPiece(format, args);
      var n, used := |Spell(p)|, if HasValue(p) then 1 else 0;
      ws, tail := EveryFormat(format[n..], args[used..]);
      assert format == Spell(p) + format[n..];
      assert p.Final? ==> format[n..] == "";
      NoneLeft(ws, tail);
      if ws != [] && ws[0].gap == "" {
        ws := JoinWord(p, ws, tail);
      } else {
        ws := BeginWord(p, ws, tail);
      }
      assert args == args[..used] + args[used..];
    }
  }
}
