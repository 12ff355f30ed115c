/** What a request for an image gets, by its arguments alone, and how the arguments come from the query. */
module ImageRequests {
  import opened Common
  import opened ImageKey
  import opened ImageDb
  import Rfc1321

  const WIDTH := 0
  const HEIGHT := 1
  const PROPORTION := 2

  /** An image that is not there is not found, whatever is asked of it. */
  lemma NotThere(convert: Converter, originals: map<string, Blob>, r: Request)
    requires Wellformed(r) && r.md5 !in originals
    ensures Answer(convert, originals, r) == (-1, [])
  {
  }

  /** Width, height and proportion all 0: the image as it was uploaded, under its own name. */
  lemma AsUploaded(convert: Converter, originals: map<string, Blob>, r: Request)
    requires Wellformed(r) && r.md5 in originals
    requires r.args[WIDTH] == 0 && r.args[HEIGHT] == 0 && r.args[PROPORTION] == 0
    ensures Answer(convert, originals, r) == (1, originals[r.md5])
    ensures Key(r) == r.md5 && Md5Name(Key(r)) && Fits(r)
  {
    hide Md5Name;
  }

  /** One of them not 0: what the conversion makes of it, under a key that is no image's name. */
  lemma AsConverted(convert: Converter, originals: map<string, Blob>, r: Request)
    requires Wellformed(r) && r.md5 in originals
    requires r.args[WIDTH] != 0 || r.args[HEIGHT] != 0 || r.args[PROPORTION] != 0
    ensures convert(originals[r.md5], r.args, r.fmt) == Unreadable ==> Answer(convert, originals, r) == (0, [])
    ensures convert(originals[r.md5], r.args, r.fmt) == Failed ==> Answer(convert, originals, r) == (-1, [])
    ensures convert(originals[r.md5], r.args, r.fmt) == NoBlob ==> Answer(convert, originals, r) == (1, [])
    ensures forall blob :: convert(originals[r.md5], r.args, r.fmt) == Rendered(blob) ==>
              Answer(convert, originals, r) == (1, blob)
    ensures !Md5Name(Key(r))
    ensures Fits(r) <==> |FullKey(r.md5, r.args, r.fmt)| < 128
    ensures Fits(r) ==> Key(r) == FullKey(r.md5, r.args, r.fmt)
  {
    hide Md5Name, FullKey;
    FullKeyIsDerived(r.md5, r.args, r.fmt);
  }

  /** The name of an image is the MD5 of its bytes, two hexadecimal digits for each, the letters small. */
  lemma NameSpells(data: Blob, i: nat)
    requires i < 16
    ensures |Rfc1321.Md5(data)| == 16 && |Name(data)| == 32
    ensures HexValue(Name(data)[2 * i]) * 16 + HexValue(Name(data)[2 * i + 1]) == Rfc1321.Md5(data)[i] as int
    ensures Name(data)[2 * i] in "0123456789abcdef" && Name(data)[2 * i + 1] in "0123456789abcdef"
  {
    hide Rfc1321.Md5;
    HexSpells(Rfc1321.Md5(data), i);
  }

  lemma {:induction false} HexSpells(digest: seq<Byte>, i: nat)
    requires i < |digest|
    ensures |HexText(digest)| == 2 * |digest|
    ensures HexValue(HexText(digest)[2 * i]) * 16 + HexValue(HexText(digest)[2 * i + 1]) == digest[i] as int
    ensures HexText(digest)[2 * i] in "0123456789abcdef" && HexText(digest)[2 * i + 1] in "0123456789abcdef"
  {
    HexFront(digest);
    hide HexText, HexValue, HexDigit;
    if i == 0 {
      SmallDigit(digest[0] as int / 16);
      SmallDigit(digest[0] as int % 16);
    } else {
      HexSpells(digest[1..], i - 1);
    }
  }

  lemma HexFront(digest: seq<Byte>)
    requires digest != []
    ensures var h, rest := HexText(digest), HexText(digest[1..]);
      && |h| == 2 * |digest| && |rest| == 2 * |digest| - 2
      && h[0] == HexDigit(digest[0] as int / 16) && h[1] == HexDigit(digest[0] as int % 16)
      && forall k :: 0 <= k < |rest| ==> h[k + 2] == rest[k]
  {
    hide HexDigit;
  }

  lemma SmallDigit(v: nat)
    requires v < 16
    ensures HexDigit(v) == "0123456789abcdef"[v] && HexValue(HexDigit(v)) == v
  {
  }

  /** A request to a running server, whatever its cache holds and its store has saved. */
  method Fetch(server: Server, r: Request, lost: set<string>, lostLater: set<string>, caches: bool, saves: bool)
    returns (result: int, body: Blob)
    requires server.Valid() && Wellformed(r) && Fits(r)
    modifies server`store, server`cache
    ensures server.Valid() && server.Originals() == old(server.Originals())
    ensures r.md5 !in old(server.Originals()) ==> result == -1 && body == []
    ensures r.md5 in old(server.Originals()) ==>
              var original := old(server.Originals())[r.md5];
              if r.args[WIDTH] == 0 && r.args[HEIGHT] == 0 && r.args[PROPORTION] == 0
              then result == 1 && body == original
              else match server.convert(original, r.args, r.fmt)
                case Unreadable => result == 0 && body == []
                case Failed => result == -1 && body == []
                case NoBlob => result == 1 && body == []
                case Rendered(blob) => result == 1 && body == blob
    ensures (r.args[WIDTH] != 0 || r.args[HEIGHT] != 0 || r.args[PROPORTION] != 0)
            && r.md5 in old(server.Originals())
            && server.convert(old(server.Originals())[r.md5], r.args, r.fmt) == Rendered(body)
            && |body| < 1048576 && server.cacheOn && caches
            ==> FullKey(r.md5, r.args, r.fmt) in server.cache && server.cache[FullKey(r.md5, r.args, r.fmt)] == body
  {
    ghost var originals := server.Originals();
    if r.md5 !in originals {
      NotThere(server.convert, originals, r);
    } else if r.args[WIDTH] == 0 && r.args[HEIGHT] == 0 && r.args[PROPORTION] == 0 {
      AsUploaded(server.convert, originals, r);
    } else {
      AsConverted(server.convert, originals, r);
    }
    hide Answer, Key, Fits, OriginalsOf, Md5Name;
    result, body := server.Get(r, lost, lostLater, caches, saves);
  }

  // ------------------------------------------------------------------------ from the query

  /** The numbers in a query, as atoi reads them. */
  datatype Query = Query(w: Option<int>, h: Option<int>, p: Option<int>, g: Option<int>,
                         x: Option<int>, y: Option<int>, r: Option<int>, q: Option<int>)

  function Or(given: Option<int>, default: int): int {
    match given
    case Some(n) => n
    case None => default
  }

  /** The arguments of a request, with a query or without one; `quality` is the server's setting. */
  function Args(query: Option<Query>, argsOff: bool, quality: int): (args: seq<int>)
    ensures |args| == 8
  {
    if query.None? || argsOff then [0, 0, 1, 0, -1, -1, 0, quality]
    else
      var given := query.value;
      var x, y := Or(given.x, -1), Or(given.y, -1);
      var proportion := if x != -1 || y != -1 then 1 else Or(given.p, 1);
      var q := Or(given.q, 0);
      [Or(given.w, 0), Or(given.h, 0), proportion, Or(given.g, 0), x, y, Or(given.r, 0), if q != 0 then q else quality]
  }

  /** The original goes out to those queries only that ask for proportion 0, no size and no corner. */
  lemma OriginalIff(convert: Converter, originals: map<string, Blob>, r: Request,
                    query: Option<Query>, argsOff: bool, quality: int)
    requires Wellformed(r) && r.md5 in originals && r.args == Args(query, argsOff, quality)
    ensures Key(r) == r.md5 <==>
            && !argsOff && query.Some? && query.value.p == Some(0)
            && (query.value.w == None || query.value.w == Some(0))
            && (query.value.h == None || query.value.h == Some(0))
            && (query.value.x == None || query.value.x == Some(-1))
            && (query.value.y == None || query.value.y == Some(-1))
    ensures Key(r) == r.md5 ==> Answer(convert, originals, r) == (1, originals[r.md5])
  {
    hide Md5Name, FullKey, Answer;
    if r.args[WIDTH] == 0 && r.args[HEIGHT] == 0 && r.args[PROPORTION] == 0 {
      AsUploaded(convert, originals, r);
    } else {
      AsConverted(convert, originals, r);
    }
  }

  /** The key of an image asked for without a query. */
  lemma PlainKey(md5: string, quality: nat, fmt: string)
    ensures FullKey(md5, Args(None, false, quality), fmt)
            == md5 + (":0:0:1:0:-1:-1:0:" + Decimal(quality) + (":" + fmt))
  {
    SmallNumbers();
    NumberInFront(quality, []);
    assert ArgsText([]) == "" && Signed(quality) == Decimal(quality);
    hide Decimal, Signed, ArgsText;
    var last: seq<int> := [quality];
    assert [quality] + [] == last;
    NumberInFront(0, last);
    NumberInFront(-1, [0] + last);
    NumberInFront(-1, [-1] + ([0] + last));
    NumberInFront(0, [-1] + ([-1] + ([0] + last)));
    NumberInFront(1, [0] + ([-1] + ([-1] + ([0] + last))));
    NumberInFront(0, [1] + ([0] + ([-1] + ([-1] + ([0] + last)))));
    NumberInFront(0, [0] + ([1] + ([0] + ([-1] + ([-1] + ([0] + last))))));
    assert Args(None, false, quality) == [0] + ([0] + ([1] + ([0] + ([-1] + ([-1] + ([0] + last))))));
    Joined(Decimal(quality));
  }

  lemma SmallNumbers()
    ensures Signed(0) == "0" && Signed(1) == "1" && Signed(-1) == "-1"
  {
    assert Decimal(0) == "0" && Decimal(1) == "1";
  }

  lemma NumberInFront(n: int, args: seq<int>)
    ensures ArgsText([n] + args) == ":" + (Signed(n) + ArgsText(args))
  {
    hide Signed;
    assert ([n] + args)[1..] == args;
  }

  lemma Joined(d: string)
    ensures ":" + ("0" + (":" + ("0" + (":" + ("1" + (":" + ("0" + (":" + ("-1" + (":" + ("-1" + (":" + ("0"
            + (":" + (d + ""))))))))))))))) == ":0:0:1:0:-1:-1:0:" + d
  {
  }

  // ------------------------------------------------------------------------ whole runs

  /** Nothing in the run takes the image away, and no other data have its name. */
  predicate Keeps(ops: seq<Op>, md5: string, data: Blob) {
    forall i :: 0 <= i < |ops| ==>
      && (ops[i].Remove? ==> ops[i].md5 != md5 || ops[i].t != 1 || !ops[i].works)
      && (ops[i].Put? && Name(ops[i].data) == md5 ==> ops[i].data == data)
  }

  /** Nothing in the run brings the image. */
  predicate Lacks(ops: seq<Op>, md5: string) {
    forall i :: 0 <= i < |ops| && ops[i].Put? ==> Name(ops[i].data) != md5 || !ops[i].works
  }

  /** Data that are there already are not written again, so nothing can fail. */
  lemma UploadAgain(convert: Converter, originals: map<string, Blob>, data: Blob, works: bool)
    requires Put(data, works).Possible() && Name(data) in originals && originals[Name(data)] == data
    ensures Effect(convert, originals, Put(data, works)) == ((1, []), originals)
  {
    hide Name;
    assert originals[Name(data) := data] == originals;
  }

  /** New data that cannot be written leave nothing behind. */
  lemma UploadFails(convert: Converter, originals: map<string, Blob>, data: Blob)
    requires Put(data, false).Possible() && Name(data) !in originals
    ensures Effect(convert, originals, Put(data, false)) == ((-1, []), originals)
  {
    hide Name;
  }

  lemma AllPossibleMore(ops: seq<Op>, op: Op)
    requires AllPossible(ops) && op.Possible()
    ensures AllPossible(ops + [op])
  {
    if ops == [] {
      assert ops + [op] == [op];
    } else {
      AllPossibleMore(ops[1..], op);
      assert (ops + [op])[1..] == ops[1..] + [op];
    }
  }

  lemma OneExpected(convert: Converter, originals: map<string, Blob>, op: Op)
    requires op.Possible()
    ensures AllPossible([op]) && Expected(convert, originals, [op]) == [Effect(convert, originals, op).0]
  {
    assert [op][1..] == [];
  }

  /** A request later in a run that keeps the image: it is answered from that image. */
  lemma {:induction false} StillThere(
    convert: Converter, originals: map<string, Blob>, ops: seq<Op>, ask: Op, data: Blob)
    requires AllPossible(ops) && ask.Possible() && ask.Ask? && Keeps(ops, ask.r.md5, data)
    requires ask.r.md5 in originals && originals[ask.r.md5] == data
    ensures AllPossible(ops + [ask]) && |Expected(convert, originals, ops + [ask])| == |ops| + 1
    ensures Expected(convert, originals, ops + [ask])[|ops|] == Answer(convert, map[ask.r.md5 := data], ask.r)
    decreases |ops|
  {
    hide Answer, Name, Md5Name, Fits;
    AllPossibleMore(ops, ask);
    if ops == [] {
      assert ops + [ask] == [ask];
      OneExpected(convert, originals, ask);
      SameAnswer(convert, originals, map[ask.r.md5 := data], ask.r);
    } else {
      var after := Effect(convert, originals, ops[0]).1;
      assert Keeps(ops[1..], ask.r.md5, data);
      assert (ops + [ask])[1..] == ops[1..] + [ask];
      StillThere(convert, after, ops[1..], ask, data);
    }
  }

  lemma SameAnswer(convert: Converter, one: map<string, Blob>, other: map<string, Blob>, r: Request)
    requires Wellformed(r) && r.md5 in one && r.md5 in other && one[r.md5] == other[r.md5]
    ensures Answer(convert, one, r) == Answer(convert, other, r)
  {
    hide Rendering;
  }

  /** A request later in a run that lacks the image finds nothing, though its renderings were saved. */
  lemma {:induction false} StillNotThere(convert: Converter, originals: map<string, Blob>, ops: seq<Op>, ask: Op)
    requires AllPossible(ops) && ask.Possible() && ask.Ask? && Lacks(ops, ask.r.md5)
    requires ask.r.md5 !in originals
    ensures AllPossible(ops + [ask]) && |Expected(convert, originals, ops + [ask])| == |ops| + 1
    ensures Expected(convert, originals, ops + [ask])[|ops|] == (-1, [])
    decreases |ops|
  {
    hide Answer, Name, Md5Name, Fits;
    AllPossibleMore(ops, ask);
    if ops == [] {
      assert ops + [ask] == [ask];
      OneExpected(convert, originals, ask);
      NotThere(convert, originals, ask.r);
    } else {
      var after := Effect(convert, originals, ops[0]).1;
      assert Lacks(ops[1..], ask.r.md5);
      assert (ops + [ask])[1..] == ops[1..] + [ask];
      StillNotThere(convert, after, ops[1..], ask);
    }
  }

  /** An upload that works, anything that keeps it, and a request: the answer is that of the data uploaded. */
  lemma UploadThenAsk(convert: Converter, originals: map<string, Blob>, data: Blob, ops: seq<Op>, ask: Op)
    requires Put(data, true).Possible() && AllPossible(ops) && ask.Possible() && ask.Ask?
    requires ask.r.md5 == Name(data) && Keeps(ops, Name(data), data)
    ensures AllPossible([Put(data, true)] + (ops + [ask]))
    ensures var responses := Expected(convert, originals, [Put(data, true)] + (ops + [ask]));
      && |responses| == |ops| + 2 && responses[0] == (1, [])
      && responses[|ops| + 1] == Answer(convert, map[Name(data) := data], ask.r)
  {
    hide Answer, Name, Md5Name, Fits, Keeps;
    var run := [Put(data, true)] + (ops + [ask]);
    AllPossibleMore(ops, ask);
    assert run[1..] == ops + [ask];
    StillThere(convert, originals[Name(data) := data], ops, ask, data);
  }

  /** A removal that works, anything that does not bring the image back, and a request: not found. */
  lemma RemoveThenAsk(convert: Converter, originals: map<string, Blob>, md5: string, ops: seq<Op>, ask: Op)
    requires Remove(md5, 1, true).Possible() && AllPossible(ops) && ask.Possible() && ask.Ask?
    requires ask.r.md5 == md5 && Lacks(ops, md5)
    ensures AllPossible([Remove(md5, 1, true)] + (ops + [ask]))
    ensures var responses := Expected(convert, originals, [Remove(md5, 1, true)] + (ops + [ask]));
      && |responses| == |ops| + 2 && responses[0] == (if md5 in originals then 1 else 2, [])
      && responses[|ops| + 1] == (-1, [])
  {
    hide Answer, Name, Md5Name, Fits, Lacks;
    var run := [Remove(md5, 1, true)] + (ops + [ask]);
    AllPossibleMore(ops, ask);
    assert run[1..] == ops + [ask];
    StillNotThere(convert, originals - {md5}, ops, ask);
  }
}
