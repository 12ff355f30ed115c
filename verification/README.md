# Models of zimg's protocol engines and storage logic

zimg is an image server. The parts of it that carry state and arithmetic of their own are modelled
here and their properties proved: the reply reader and command formatter of hiredis, the JSON
printer, parser and minifier, the streaming MD5, the multipart upload parser, the HTTP body decoder
with its encoder, the log slots behind spinlocks, the database-mode image cache, the wildcard
matcher and the decoders of query-string uploads.

`dafny verify dfyconfig.toml` checks everything.

Each engine is a class or a method in the form of the source (fields updated in place, arrays
written behind moving indices, the same loops and branches) proved equal to a specification
function, and the main results are lemmas about that function, on all inputs:

- **Replies** (`Resp`, `RespGrammar`, `RespWire`, `RedisReader`, `RedisFormat`, `RedisWords`). However
  the bytes are cut into chunks, the reader with its nine-slot task stack hands out the replies of the
  bytes taken whole; on every byte string, well formed or not, these are the replies of a plain
  recursive grammar, with the same failure; and exactly the replies with a wire form come back from
  theirs, integers and counts having the widths they have in C. `RespWire` writes down the bytes a
  reply may be and the bytes the reader fails on, and proves that it reads and fails on exactly these.
  Commands fill exactly the buffer computed for them and are read back as their arguments exactly when
  their counts fit those widths; any format is words of characters, %%, %s and %b, which stand for
  what `RedisWords` says.
- **JSON** (`JsonSpec`, `JsonRoundTrip`, `JsonItem`, `JsonParser`, `JsonLiteral`, `JsonMinify`,
  `JsonLocal`, `JsonSameTree`, `JsonTexts`, `JsonGrammar`, `JsonLayout`, `JsonComments`). The texts
  with tidy literals that are parsed whole are exactly those of a grammar with spaces wherever they
  may be, and are read as what they mean; the minifier keeps exactly what is neither blank nor
  comment. Parsing undoes printing in both layouts; minifying in place turns the formatted layout into
  the compact one, and leaves the tree of any text as it was whose literals are tidy; parser and
  minifier stay inside a text exactly when its escapes, literals and comments are complete; the
  printer never outgrows the buffers it sized; a `\u` escape of any code point becomes its UTF-8.
- **MD5** (`Rfc1321`, `Rfc1321Words`, `Rfc1321Suite`, `Md5`). The 64 unrolled steps are the loop of
  RFC 1321, and the buffered, two-word-counted streaming form computes the digest of the whole message
  for any cutting. The four functions are given bit by bit and the rotation as arithmetic, and two
  digests of section A.5 of RFC 1321 are carried through the 64 operations.
- **Multipart** (`MultipartSpec`, `MultipartRoundTrip`, `MultipartStops`, `MultipartSearch`,
  `Multipart`). The loop that steps back is linear, and the encoding of any parts is taken apart into
  exactly those parts; where a text is not as it should be, the place is given where the parser stops.
  On all bytes every chunk ends at the first delimiter for exactly the boundaries `Restartable`
  describes; for any other a text is given on which a run of the parser hands over a delimiter as
  data.
- **HTTP bodies** (`BodySpec`, `Trailers`, `ChunkedBodies`, `Rfc7230`, `HttpBody`, `HttpHeaders`,
  `HttpStops`). Any block of headers decides what is read as the body; a Content-Length is read
  exactly up to 2 to the 64, and beyond it is given exactly which numbers are refused. A run from the
  first header line on may be cut anywhere; chunks sent are the data received, as one complete
  message; a chunk survives exactly when it is shorter than 4 GB. The messages completed are exactly
  chunks of the announced sizes, a size of 0 and one of the trailers `TrailerFrom` describes. A
  chunked body as section 4.1 of RFC 7230 has it is read whole exactly when it has neither extensions
  nor a trailer: an extension is an error, and with a trailer the message is complete behind its first
  line. The count of the bytes read is given exactly, with the inputs for which it is right.
- **Log slots** (`LogSlots`, `LogLines`). Over all interleavings: one holder for each lock, one owner
  for each open slot, no printing to a closed slot, everything free at rest, no deadlock, and never
  more slots in use than threads, so that opening can fail exactly when there are more than 100
  threads; each call prints exactly once, into the slot it opened or else to stdout.
- **Image store** (`ImageKey`, `ImageDb`, `ImageRequests`). Over every run of uploads, requests and
  deletions, with a cache that may lose anything at any time, every response is the one a plain map of
  originals gives. A key identifies its rendering exactly when it is shorter than 127 characters. What
  a request gets is given by its arguments, and which queries get the original.
- **Wildcards and decoders** (`Glob`, `Base64`, `UploadTables`). The matcher is exact, the decoders
  undo their encodings, and every text is decoded as its pieces mean.

Strings are sequences of characters, one for each byte. `Common` holds what several of them share.

The code is followed where it surprises: bytes above 127 count as the hexadecimal digit 0 in a chunk
size, because half of the table was never filled in, and sizes are read modulo 2 to the 64; the byte
counter of the HTTP parser counts a slice of a body as one byte, and a CR right behind a colon twice;
in a trailer the first CR LF ends the message; an array announced with a count below -1 is an empty
array whose element count is the huge number that int becomes as a size_t, and a count of more than 31
bits is cut to an int; an escape `\u` takes the four bytes behind it for digits even when one is the
closing quote; a request for an image that cannot be read returns 0, which its caller takes for
success, with an empty body; a slash, star and slash are a whole comment to the minifier.

## Model

| member | source | states |
|---|---|---|
| Resp.FindCRLF | deps/hiredis/hiredis.c:260-285 | The position found is a CR LF and none comes before it; none found means there is none. |
| Resp.RunIsTurns | deps/hiredis/hiredis.c:617-665 | Taking replies one call at a time gives the whole run. |
| Resp.NextMonotone | deps/hiredis/hiredis.c:355-505 | Bytes that arrive later never change a step that could already be taken. |
| Resp.RunSplit | deps/hiredis/hiredis.c:585-665 | Stopping after some bytes and resuming with the rest is running over all of them. |
| Resp.ResumeAllIsRun | deps/hiredis/hiredis.c:585-665 | Resuming chunk after chunk from any point is one run over all the bytes. |
| Resp.ChunkIndependence | deps/hiredis/hiredis.c:585-665 | For every byte string and every cutting into chunks, replies, state, kept bytes and failure are those of the bytes taken whole. |
| RespGrammar.RunFollowsReply | deps/hiredis/hiredis.c:330-554 | Below any open arrays, the stack run does what the recursive grammar says of the next reply. |
| RespGrammar.RunFollowsItem | deps/hiredis/hiredis.c:355-505 | The same for an item whose type byte has been read. |
| RespGrammar.RunFollowsElements | deps/hiredis/hiredis.c:330-353 | The same for the elements an open array still needs. |
| RespGrammar.RunIsGrammar | deps/hiredis/hiredis.c:330-554 | On every byte string, numbers of any length in it, the stack run and the recursive grammar give the same replies and the same failure. |
| RespGrammar.ReadSigned | deps/hiredis/hiredis.c:288-313 | The number reader gives what a long long keeps of the number %d printed. |
| RespGrammar.CountRead | deps/hiredis/hiredis.c:442-505 | For every number, what is left of it as a long long, an int and a size_t, and so which counts an array can be read back with. |
| RespGrammar.ParseEncode | deps/hiredis/hiredis.c:355-505 | Parsing the encoding of a reply, whatever follows, gives the reply and stops right behind it: one-line texts, binary bulks, nils, arrays down to the last slot. |
| RespGrammar.OnlyEncodable | deps/hiredis/hiredis.c:355-505 | An encoding read back as what was encoded had a wire form and is used up to its end. |
| RespGrammar.ComesBackIff | deps/hiredis/hiredis.c:442-505 | Exactly the replies with a wire form come back from theirs: no line end in a text, integers that fit a long long, the count of an array true and an int, or one that only a negative int makes, nesting within the stack. |
| RespGrammar.RunEncode | deps/hiredis/hiredis.c:507-665 | The encodings of any list of replies are read as exactly those replies, every byte consumed. |
| RespGrammar.ChunkedRoundTrip | deps/hiredis/hiredis.c:585-665 | The same however the encodings are cut into chunks. |
| RespWire.NumberRead | deps/hiredis/hiredis.c:288-314 | The number read off any line is its digits behind a sign, as a long long keeps them, up to the first CR, or -1 if there is anything else. |
| RespWire.WireRead | deps/hiredis/hiredis.c:355-554 | Any reply as the grammar has it, whatever two bytes end a bulk, is read as what it means, whatever follows. |
| RespWire.WireTaken | deps/hiredis/hiredis.c:355-554 | Whatever is read as a reply is one of the grammar. |
| RespWire.BrokenRead | deps/hiredis/hiredis.c:442-535 | A byte that begins no reply, an array too deep or without a usable count, also inside open arrays, is the failure reported. |
| RespWire.BrokenTaken | deps/hiredis/hiredis.c:442-535 | The reader fails on nothing else. |
| RespWire.StreamTaken | deps/hiredis/hiredis.c:617-665 | Over any stream the replies handed out are those at its beginning, and a failure comes exactly of something broken behind them. |
| RespWire.SignedDigits | deps/hiredis/hiredis.c:288-314 | Digits with either sign or none are their number. |
| RespWire.PlusFive | deps/hiredis/hiredis.c:288-314 | A colon, a plus sign and 5 are the integer 5. |
| RedisReader.SetType | deps/hiredis/hiredis.c:507-540 | Giving the top task a type keeps the stack's shape and its open arrays. |
| RedisReader.PushTask | deps/hiredis/hiredis.c:484-497 | Opening an array adds one open array with nothing in it and a task for its first element. |
| RedisReader.NextElement | deps/hiredis/hiredis.c:344-351 | An element that is not the last is filed and the same slot turns to the next one. |
| RedisReader.PopTask | deps/hiredis/hiredis.c:339-343 | The last element closes the array, which is then filed one slot below. |
| RedisReader.Reader.constructor | deps/hiredis/hiredis.c:556-575 | A new reader is idle with an empty buffer and no error. |
| RedisReader.Reader.SetError | deps/hiredis/hiredis.c:186-210 | An error drops reply, buffer and stack. |
| RedisReader.Reader.SeekNewline | deps/hiredis/hiredis.c:260-285 | The search finds the first CR LF of the unread bytes, or says there is none. |
| RedisReader.Reader.ReadNumber | deps/hiredis/hiredis.c:288-313 | The number at the cursor as a long long, wrapping digit by digit; -1 when it is not one. |
| RedisReader.Reader.ReadLine | deps/hiredis/hiredis.c:315-328 | The next line is taken off whole, or nothing moves. |
| RedisReader.Reader.MoveToNextTask | deps/hiredis/hiredis.c:330-353 | The loop over the slots files the object as Deliver says and keeps the stack's shape. |
| RedisReader.Reader.ProcessLineItem | deps/hiredis/hiredis.c:355-387 | An integer, status or error item advances the reader as the specification step, or leaves it as it was. |
| RedisReader.Reader.ProcessBulkItem | deps/hiredis/hiredis.c:389-440 | The same for a bulk, including one not yet whole. |
| RedisReader.Reader.StoreChild | deps/hiredis/hiredis.c:330-353 | Storing an object in the array above closes that array or turns the slot to the next element, as Deliver says. |
| RedisReader.Reader.StartArray | deps/hiredis/hiredis.c:457-497 | A count is nil, an empty array, an array of the elements its low half announces, or beyond what the reader defines. |
| RedisReader.Reader.ProcessArrayItem | deps/hiredis/hiredis.c:455-505 | An array item below the last slot advances the reader as the specification step, once its line is there. |
| RedisReader.Reader.ProcessMultiBulkItem | deps/hiredis/hiredis.c:442-505 | The same for an array, including nil, empty, cut to an int and one nested too deep. |
| RedisReader.Reader.ProcessItem | deps/hiredis/hiredis.c:507-554 | One call is one transition, or two when a type byte is read; no assertion on the stack can fail. |
| RedisReader.Reader.Feed | deps/hiredis/hiredis.c:585-615 | The bytes join the unread ones; dropping a large idle buffer changes nothing that can be read. |
| RedisReader.Reader.Discard | deps/hiredis/hiredis.c:650-656 | Moving the buffer down at 1024 bytes changes neither state nor unread bytes. |
| RedisReader.Reader.GetReply | deps/hiredis/hiredis.c:617-665 | The call hands out the first reply of the run, keeps the rest, and reports the failure that ends it. |
| RedisReader.Reader.Drain | deps/hiredis/hiredis.c:617-665 | Calling until nothing comes gives all replies of the run. |
| RedisReader.Reader.FeedAndDrain | deps/hiredis/hiredis.c:585-665 | Feeding any chunks and draining after each gives the replies and the failure of their concatenation, whatever idle buffers are dropped on the way. |
| RedisFormat.CommandRoundTrip | deps/hiredis/hiredis.c:939-971 | The reader turns a command back into the array of its arguments, whatever bytes they hold, exactly when their number is an int and their lengths fit a long long. |
| RedisFormat.IntLen | deps/hiredis/hiredis.c:668-679 | The length of an integer as %d prints it. |
| RedisFormat.BulkLen | deps/hiredis/hiredis.c:682-684 | The size of a bulk, for any string of that length. |
| RedisFormat.Assemble | deps/hiredis/hiredis.c:878-892 | The buffer of the predicted size is filled exactly, terminator included. |
| RedisFormat.FormatCommandArgv | deps/hiredis/hiredis.c:939-971 | The total predicted from the lengths is the size of the command written. |
| RedisFormat.Fill | deps/hiredis/hiredis.c:706-871 | A format makes one argument for each of its words, whatever the values. |
| RedisFormat.CollectArguments | deps/hiredis/hiredis.c:706-871 | The character loop makes the words of the format with the values put in, and counts their bytes. |
| RedisFormat.FormatCommand | deps/hiredis/hiredis.c:686-937 | For %s, %b and %% formats the command written is that of those words. |
| RedisWords.FormatMeans | deps/hiredis/hiredis.c:686-872 | Of any words and spaces: %b is its value byte for byte, %s the longest beginning of it without a NUL, characters and %% themselves, a percent sign at the very end too. |
| RedisWords.EveryFormat | deps/hiredis/hiredis.c:708-752 | Every format with these directives is one of such words. |
| RedisWords.SetMeans | src/zdb.c:363-363 | The format that stores an image makes SET, the key up to its NUL, and all bytes of the image. |
| RedisWords.SetOnTheWire | deps/hiredis/hiredis.c:880-892 | That command, byte for byte. |
| RedisWords.SaveCommand | src/zdb.c:359-367 | What is sent for a key without a NUL and any image. |
| RedisWords.CommandOf | deps/hiredis/hiredis.c:686-896 | The command written for any words and values is that of what they mean. |
| JsonRoundTrip.ReadQuoted | deps/cjson/cJSON.c:155-248 | Reading what the string printer wrote gives the string back and stops behind the closing quote. |
| JsonRoundTrip.DigitsMeaning | deps/cjson/cJSON.c:101-102 | Digits carried on from a number shift it and add their value, place by place. |
| JsonRoundTrip.NumberMeaning | deps/cjson/cJSON.c:96-115 | A number in its general form (section 6 of RFC 8259: exponents with e or E, signed or not) is read as its digits, shifted by fraction and exponent, with its sign. |
| JsonRoundTrip.ParseSigned | deps/cjson/cJSON.c:96-115 | The number parser undoes %d when no digit, point or exponent follows. |
| JsonRoundTrip.ParsePrint | deps/cjson/cJSON.c:287-507 | Parsing the text of any tree at any depth in either layout gives the tree and stops exactly behind it. |
| JsonRoundTrip.ParsePrintItems | deps/cjson/cJSON.c:320-403 | The same for the items of an array. |
| JsonRoundTrip.ParsePrintMembers | deps/cjson/cJSON.c:406-507 | The same for the members of an object, with their indentation. |
| JsonRoundTrip.RoundTrip | deps/cjson/cJSON.c:264-284 | Whole texts, with spaces in front and anything behind. |
| JsonRoundTrip.ReadUnicode | deps/cjson/cJSON.c:179-201 | The escape of any code point, in digits of either case, a surrogate pair above the basic plane, is read as its UTF-8 bytes. |
| JsonRoundTrip.Utf8Decodes | deps/cjson/cJSON.c:192-199 | Those bytes are the code point's: no two code points are read alike. |
| JsonTexts.LettersRead | deps/cjson/cJSON.c:172-178 | The letters of section 7 of RFC 8259 that stand for a control character. |
| JsonTexts.OthersRead | deps/cjson/cJSON.c:202-202 | A quote, a backslash, a slash and any other character stand for themselves. |
| JsonTexts.EscapesWritten | deps/cjson/cJSON.c:228-243 | Which characters are escaped, and how. |
| JsonTexts.HexDigits | deps/cjson/cJSON.c:140-151 | The digits of either case are worth their place; nothing else is a digit. |
| JsonTexts.LiteralRead | deps/cjson/cJSON.c:155-212 | Characters, escapes, escapes in digits and pairs of them between quotes are read as what they mean, halves and invalid digits as nothing. |
| JsonTexts.PiecesOf | deps/cjson/cJSON.c:155-212 | Every tidy literal is made of such pieces. |
| JsonTexts.NumRead | deps/cjson/cJSON.c:96-115 | A number with or without minus, leading zero, digits, fraction, exponent: its value times the powers of ten it is divided by is its digits times those it is multiplied by. |
| JsonTexts.OneValue | deps/cjson/cJSON.c:110-110 | That fixes the value. |
| JsonTexts.NumOf | deps/cjson/cJSON.c:96-115 | Whatever is read as a number looks so. |
| JsonTexts.SomeNumbers | deps/cjson/cJSON.c:96-115 | Three numbers with fractions and exponents. |
| JsonGrammar.DocRead | deps/cjson/cJSON.c:287-438 | Any value with spaces wherever they may be is read as what it means, whatever follows. |
| JsonGrammar.DocOf | deps/cjson/cJSON.c:287-438 | Whatever is read as a value from a text with tidy literals is such a value. |
| JsonGrammar.TextIff | deps/cjson/cJSON.c:264-280 | The texts with tidy literals that are parsed whole are exactly those of the grammar, each read as what it means. |
| JsonItem.PrintString | deps/cjson/cJSON.c:215-248 | The escaped string exactly fills the buffer computed for it. |
| JsonItem.PrintValue | deps/cjson/cJSON.c:302-317 | A node that holds a tree is rendered as the text of that tree. |
| JsonItem.RenderArray | deps/cjson/cJSON.c:348-403 | Entries rendered first and composed second are the text of the array. |
| JsonItem.ComposeArray | deps/cjson/cJSON.c:391-403 | The composed text fits the computed length, separators and terminator included. |
| JsonItem.RenderObject | deps/cjson/cJSON.c:442-507 | Names and values rendered first and composed second are the text of the object. |
| JsonItem.ComposeObject | deps/cjson/cJSON.c:490-507 | The composed lines fit the computed length in both layouts. |
| JsonLayout.Deeper | deps/cjson/cJSON.c:302-507 | A value printed one level deeper has every line but its first moved in by a tab. |
| JsonLayout.TwoItems | deps/cjson/cJSON.c:348-403 | The text of an empty array and of one with two items, in both layouts. |
| JsonLayout.TwoMembers | deps/cjson/cJSON.c:442-507 | The text of an empty object and of one with two members, in both layouts. |
| JsonParser.SkipBlanks | deps/cjson/cJSON.c:261-261 | The cursor passes characters up to the blank and stops on the first other one. |
| JsonParser.ParseNumberAt | deps/cjson/cJSON.c:96-115 | Sign, digits, fraction and exponent as the exact value, and the cursor behind them. |
| JsonParser.EncodeUtf8 | deps/cjson/cJSON.c:192-199 | The bytes written from the last to the first are the UTF-8 of the code point. |
| JsonLiteral.MeasureInside | deps/cjson/cJSON.c:160-160 | The measuring loop steps over the terminator exactly if no quote closes the literal and the text ends in an odd number of backslashes. |
| JsonLiteral.CharactersInside | deps/cjson/cJSON.c:165-209 | The copying loop steps over it exactly if an escape before the closing quote is incomplete. |
| JsonLiteral.StringIff | deps/cjson/cJSON.c:155-212 | A literal is read exactly if neither happens and what is copied fits what was measured. |
| JsonLiteral.LoneBackslash | deps/cjson/cJSON.c:160-209 | A quote and a backslash are such a text. |
| JsonLiteral.SwallowedQuote | deps/cjson/cJSON.c:179-181 | An escape that takes the closing quote for a digit copies what follows the literal, which does not fit from three bytes on. |
| JsonLiteral.TidyIsRead | deps/cjson/cJSON.c:155-212 | A literal that is closed, with four bytes behind each u that are neither quote nor backslash, is read, and what is copied fits. |
| JsonParser.MeasureAt | deps/cjson/cJSON.c:160-160 | The length the first loop counts, or that it leaves the text. |
| JsonParser.ParseStringAt | deps/cjson/cJSON.c:155-212 | The unescaped text goes into the node and the cursor behind the closing quote or to the end; a text without an opening quote fails; a literal the source is lost in is told apart. |
| JsonParser.ParseValueAt | deps/cjson/cJSON.c:287-299 | On every text: the node holds the tree parsed and the cursor is behind it, or the parse fails, or the source's cursor leaves the text. |
| JsonParser.ParseItemsAt | deps/cjson/cJSON.c:328-344 | The loop appends one fresh node for each item and ends at the bracket or fails. |
| JsonParser.FillMember | deps/cjson/cJSON.c:417-422 | The name read as a string is moved aside and the value read into the same node. |
| JsonParser.ParseMembersAt | deps/cjson/cJSON.c:415-438 | The loop appends one fresh node for each member and ends at the brace or fails. |
| JsonParser.ParseText | deps/cjson/cJSON.c:264-280 | A text becomes a fresh tree with the end of the value, or null when it cannot be parsed, the cursor inside the text; or the cursor leaves it. |
| JsonMinify.MinifiedIff | deps/cjson/cJSON.c:581-596 | The minifier stays inside the text exactly if every literal and every long comment in it has its end. |
| JsonMinify.OpenTexts | deps/cjson/cJSON.c:591-592 | An open literal and an open comment are left, and a slash, star and slash is a whole comment. |
| JsonMinify.LiteralEscaped | deps/cjson/cJSON.c:592-592 | The minifier passes an escaped character whole, so a literal ends at its own quote. |
| JsonMinify.MinifyPrint | deps/cjson/cJSON.c:581-596 | Minifying the formatted text of any tree, whatever follows, leaves its compact text and the minified rest. |
| JsonMinify.MinifyIsCompact | deps/cjson/cJSON.c:581-596 | Minifying the formatted layout gives the compact layout, character by character. |
| JsonComments.PartsLeft | deps/cjson/cJSON.c:581-596 | Of blanks, comments of both kinds, literals and other characters the minifier keeps exactly the last two, as they are. |
| JsonComments.PartsOf | deps/cjson/cJSON.c:581-596 | Every text it stays inside is made of these. |
| JsonMinify.CopyLiteral | deps/cjson/cJSON.c:592-592 | A literal is copied as it stands if it has an end; without one the loop leaves the text. |
| JsonMinify.Minify | deps/cjson/cJSON.c:581-596 | For every text, whether the loop stays inside it; if so, in place, the array holds the minified text and its terminator; what is behind the old terminator is untouched; the write index never passes the read index. |
| JsonLocal.NumberLocal | deps/cjson/cJSON.c:96-115 | A number is read alike whatever follows it that does not carry it on. |
| JsonLocal.LiteralLocal | deps/cjson/cJSON.c:155-212 | Parser and minifier see the same end of a tidy literal, whatever follows. |
| JsonSameTree.NeverLost | deps/cjson/cJSON.c:264-280 | In a text whose literals are tidy the parser's cursor never leaves the text. |
| JsonSameTree.SameValue | deps/cjson/cJSON.c:287-299 | A value becomes, minified, a text that is read as the same value. |
| JsonSameTree.SameTree | deps/cjson/cJSON.c:581-596 | A text that is one value and spaces, its literals tidy, is the same tree when minified. |
| JsonSameTree.IrregularText | deps/cjson/cJSON.c:179-181 | A text with a literal that is not tidy, which is parsed and which the minifier leaves. |
| Rfc1321.PadZeros | src/zmd5.c:367-367 | The padding ends 56 bytes into a block, with fewer than 64 zeros. |
| Rfc1321.CountCarries | src/zmd5.c:321-324 | Adding in two words, the carry seen in the low sum, counts the bits of all bytes. |
| Rfc1321.BlocksMore | src/zmd5.c:327-345 | More bytes act on the chaining value and the bytes left over, as they would on the whole message. |
| Rfc1321.PadIsPadding | src/zmd5.c:367-367 | The pad length computed from the count word is that of section 3.1 of RFC 1321. |
| Rfc1321.SavedByte | src/zmd5.c:364-365 | Each saved byte is that byte of the 64-bit length of section 3.2. |
| Rfc1321Words.BitsOfF | src/zmd5.c:181-181 | Bit by bit: where x has a one, the bit of y, else that of z. |
| Rfc1321Words.BitsOfG | src/zmd5.c:207-207 | Bit by bit: where z has a one, the bit of x, else that of y. |
| Rfc1321Words.BitsOfH | src/zmd5.c:233-233 | Bit by bit: one where an odd number of the three have a one. |
| Rfc1321Words.BitsOfI | src/zmd5.c:259-259 | Bit by bit: the bit of y turned where x has a one or z has none. |
| Rfc1321Words.RotateIsArithmetic | src/zmd5.c:176-176 | The low places move up, multiplied modulo 2 to the 32; the high ones come in below. |
| Rfc1321Words.BytesMakeWord | src/zmd5.c:171-171 | The word of four bytes has them as its bytes, the lowest first. |
| Rfc1321Words.WordHasBytes | src/zmd5.c:370-371 | The word of the bytes of a word is that word. |
| Rfc1321Words.LengthIsNumber | src/zmd5.c:363-365 | The eight bytes that are saved are the length, modulo 2 to the 64. |
| Rfc1321Suite.EmptyDigest | src/zmd5.c:112-372 | The digest of the empty message (section A.5 of RFC 1321), through the 64 operations. |
| Rfc1321Suite.AbcDigest | src/zmd5.c:112-372 | The digest of "abc" (section A.5 of RFC 1321), through the 64 operations. |
| Md5.Operations1To4 | src/zmd5.c:186-189 | Four unrolled steps with permuted registers are four operations of section 3.4. |
| Md5.Operations61To64 | src/zmd5.c:276-279 | So are the last four, after which the registers are back in order. |
| Md5.Md5State.Process | src/zmd5.c:112-289 | The 64 steps are the loop and table form, for every state and block. |
| Md5.Md5State.CountBits | src/zmd5.c:321-324 | The two count words hold the length in bits modulo 2 to the 64. |
| Md5.Md5State.FillBuffer | src/zmd5.c:327-345 | Buffered bytes and chaining value stay those of the message so far. |
| Md5.Md5State.Append | src/zmd5.c:311-345 | After any append the chaining value is over all full blocks, the buffer holds the rest, the count is right. |
| Md5.Md5State.Finish | src/zmd5.c:353-372 | The digest is that of RFC 1321 for the whole message. |
| Md5.Digest | src/zmd5.c:296-372 | It depends only on the bytes, not on how they were cut. |
| MultipartSpec.RunIsLinear | src/xparser.c:122-321 | The loop body runs at most twice for every byte. |
| MultipartSpec.FailedMatch | src/xparser.c:250-275 | A delimiter that failed begins nowhere up to the failure. |
| MultipartSpec.RestartIsSafe | src/xparser.c:250-275 | As a fact about the boundary: a failed match hides no delimiter exactly if every inner CR begins the delimiter again. |
| MultipartSpec.ExamineSearches | src/xparser.c:231-290 | In every phase of a body the scanner knows that no delimiter has been passed. |
| MultipartSpec.RunIsExact | deps/multipart-parser-c/multipart_parser.c:110-293 | For those boundaries, on any bytes, each chunk runs up to the first delimiter behind its start; chunks lie in the buffer, in order and disjoint. |
| MultipartSearch.Overlooks | src/xparser.c:231-290 | For any other boundary, a text on which a run hands over a chunk with a delimiter in it. |
| MultipartSearch.ExactIff | src/xparser.c:113-322 | The chunks of every run end at the first delimiter for exactly the boundaries whose every inner CR begins the delimiter again. |
| MultipartRoundTrip.ReadHeaders | src/xparser.c:161-229 | The header lines, their names in letters of both cases and hyphens, any spaces behind the colon, and the empty line give exactly their names and values. |
| MultipartRoundTrip.FindDelimiter | src/xparser.c:239-275 | Wherever it is in a body, the scanner comes to the first delimiter. |
| MultipartRoundTrip.ReadPart | src/xparser.c:161-310 | One part is taken apart up to the end of its boundary line. |
| MultipartRoundTrip.RoundTrip | src/xparser.c:113-322 | One call on the encoding of any parts (section 5.1.1 of RFC 2046) consumes it all and emits exactly their headers and bodies. |
| MultipartRoundTrip.NameChars | src/xparser.c:185-189 | The characters of a name are the letters of both cases and the hyphen. |
| MultipartStops.NotTheBoundary | src/xparser.c:128-159 | At the first byte that is not the boundary line's the run stops, and nothing is handed over. |
| MultipartStops.BadName | src/xparser.c:161-190 | A name with any other character stops the run there, and nothing is handed over of it. |
| MultipartStops.NameWithoutColon | src/xparser.c:166-201 | A name that ends in CR LF ends the headers, and is not handed over; behind its CR nothing but LF will do. |
| MultipartStops.BadValueEnd | src/xparser.c:213-229 | Behind the CR of a value, which is handed over, nothing but LF will do. |
| MultipartStops.BadClosing | src/xparser.c:277-310 | What may stand behind a delimiter, and what is handed over if it does not. |
| MultipartStops.CutName | src/xparser.c:185-192 | A buffer that ends inside a name hands over what there is of it, unless it ends in a hyphen. |
| MultipartStops.CutValue | src/xparser.c:213-221 | A buffer that ends inside a value hands over what there is of it, and twice if it ends in the CR. |
| Multipart.Parser.constructor | src/xparser.c:72-89 | A new parser is at the start, with room behind the boundary for the delimiter seen so far. |
| Multipart.Parser.Turn | src/xparser.c:126-318 | The switch, its fall-throughs and its steps back are the specification's examination; every index stays in its array. |
| Multipart.Parser.Execute | src/xparser.c:113-322 | The loop returns, emits and leaves what the run of examinations does, in at most two rounds for each byte. |
| BodySpec.RunSplit | deps/libevhtp/htparse.c:465-1904 | A run over a body may be cut anywhere. |
| BodySpec.ExpandKeepsData | deps/libevhtp/htparse.c:1808-1833 | How the body is sliced does not change its data. |
| BodySpec.RunHex | deps/libevhtp/htparse.c:1752-1778 | The size line read is the number %x printed. |
| BodySpec.RunData | deps/libevhtp/htparse.c:1808-1833 | A stretch of chunk data is counted down and handed over. |
| BodySpec.RunChunk | deps/libevhtp/htparse.c:1752-1858 | A chunk shorter than 4 GB is read back whole and leaves the parser where it was. |
| BodySpec.ChunkFits | deps/libevhtp/evhtp.c:2690-2707 | Since the length goes out as an unsigned int, a chunk is read back whole exactly when it is shorter than 4 GB. |
| BodySpec.ChunkedRoundTrip | deps/libevhtp/evhtp.c:2690-2717 | What is sent in chunks comes back in order as one complete message, with the parser at the start. |
| Trailers.AfterLine | deps/libevhtp/htparse.c:1383-1612 | What a line of a trailer leaves in the parser decides whether CR LF, or a bare LF, may end it. |
| Trailers.LastLineEnds | deps/libevhtp/htparse.c:1383-1637 | The first CR LF of a trailer ends the message or is an error: a line that fits the buffer, its Content-Length a number. |
| Trailers.NameLineEnds | deps/libevhtp/htparse.c:1383-1685 | A bare LF ends exactly a line without a value, which continues none before it. |
| Trailers.TrailerIff | deps/libevhtp/htparse.c:1383-1725 | A trailer completes the message, and is read to its end, exactly if it is such lines and then one that CR LF ends. |
| Trailers.TrailerCalls | deps/libevhtp/htparse.c:1383-1725 | A trailer hands over no data and completes the message once, at its end. |
| ChunkedBodies.RunPieces | deps/libevhtp/htparse.c:1752-1858 | Any chunks, sizes in whatever digits, are read as their data, up to the trailer. |
| ChunkedBodies.TakePieces | deps/libevhtp/htparse.c:1752-1858 | Whatever completes a message begins with size lines, data of those sizes, line ends and a last size of 0. |
| ChunkedBodies.ReadBody | deps/libevhtp/htparse.c:1752-1858 | The calls over a whole body: its chunks in order, those of the trailer, and the message complete at the end. |
| ChunkedBodies.CompletesIff | deps/libevhtp/htparse.c:1383-1858 | The parser completes a message on exactly chunks, a last size of 0 and a trailer, and hands over exactly the data of the chunks. |
| Rfc7230.PlainIsRfc | deps/libevhtp/htparse.c:1752-1788 | Of the bodies without a trailer that it takes, those with size bytes below 128 and sizes below 2 to the 64 are the bodies of section 4.1 of RFC 7230 without extensions and trailer. |
| Rfc7230.ReadWholeIff | deps/libevhtp/htparse.c:1383-1858 | A body as section 4.1 of RFC 7230 has it is read whole exactly if it has no chunk extensions and no trailer. |
| Rfc7230.ExtensionFails | deps/libevhtp/htparse.c:1764-1778 | A chunk extension anywhere is an error. |
| Rfc7230.FirstFieldEnds | deps/libevhtp/htparse.c:1614-1637 | With a trailer the message is complete behind its first line, and the rest is left unread. |
| Rfc7230.HighByteTaken | deps/libevhtp/htparse.c:152-161 | The byte 128 as a size completes the message; by the RFC it is no chunked body. |
| Rfc7230.WrappedSizeTaken | deps/libevhtp/htparse.c:1776-1777 | Nor is a last size of 2 to the 64, which is read as 0. |
| HttpBody.CountIff | deps/libevhtp/htparse.c:489-490 | Up to the last chunk the count of the bytes read is right exactly while no two calls in succession hand over data. |
| HttpBody.FixedCount | deps/libevhtp/htparse.c:1860-1894 | Over a body of known length it is right exactly if there is no second byte to hand over. |
| HttpBody.ChunkedCount | deps/libevhtp/htparse.c:1808-1833 | Over a whole chunked body without a trailer it is right exactly if every chunk is of one byte. |
| HttpBody.ReadUint64 | deps/libevhtp/htparse.c:271-300 | The value of a Content-Length in 64 bits, or that it is none. |
| HttpBody.HtParser.Run | deps/libevhtp/htparse.c:465-1904 | From the first header line on, one call over a buffer is the run byte by byte, apart from the slicing; the count is that of the run less one for each byte handed over directly behind another. |
| HttpBody.HtParser.Turn | deps/libevhtp/htparse.c:476-1902 | One turn of the loop: a byte, a slice, or a CR that is to be looked at again. |
| HttpBody.HtParser.ReadSlice | deps/libevhtp/htparse.c:1808-1894 | A slice is as long as buffer and remaining length allow and moves the state on at its end. |
| HttpBody.HtParser.SwitchBody | deps/libevhtp/htparse.c:1752-1858 | The byte states of a body do what the specification says, errors included. |
| HttpBody.HtParser.SwitchHeader | deps/libevhtp/htparse.c:1383-1612 | So do the states of a header line, with the buffer filled byte by byte. |
| HttpBody.HtParser.SwitchLineEnd | deps/libevhtp/htparse.c:1614-1725 | So do those between the lines. |
| HttpBody.HtParser.EndOfValue | deps/libevhtp/htparse.c:1506-1594 | So does the end of a value, for the headers that frame a body. |
| HttpBody.HtParser.Feed | deps/libevhtp/htparse.c:465-1904 | Over pieces of any size the result is that of all the bytes at once. |
| HttpBody.Reply.SendChunk | deps/libevhtp/evhtp.c:2690-2707 | A chunk is put on the wire with its size line, an empty one not at all. |
| HttpBody.Reply.Send | deps/libevhtp/evhtp.c:2690-2717 | A whole chunked or plain reply body. |
| HttpBody.Transfer | deps/libevhtp/htparse.c:1752-1858 | From sender to hooks over any cutting: the same data, message complete once. |
| HttpBody.FixedLength | deps/libevhtp/htparse.c:1860-1894 | Bytes handed over and bytes pending make up the Content-Length; then the message is complete, once, and nothing more is taken. |
| HttpHeaders.LengthIsRead | deps/libevhtp/htparse.c:271-300 | Every number below 2 to the 64 is read as itself. |
| HttpHeaders.OverflowIff | deps/libevhtp/htparse.c:271-300 | Of those beyond, exactly the ones of more than 20 digits, or whose 64 bits are no more than a tenth of them, are refused; of any other the 64 bits are taken. |
| HttpHeaders.OverflowMissed | deps/libevhtp/htparse.c:271-300 | One of the numbers the test for overflow misses. |
| HttpHeaders.NoNumber | deps/libevhtp/htparse.c:271-300 | A text with anything but digits in it is no number. |
| HttpHeaders.KindByName | deps/libevhtp/htparse.c:1404-1468 | The headers the parser looks at, by their names in letters of any case. |
| HttpHeaders.RunLine | deps/libevhtp/htparse.c:1383-1685 | One header line: its name and value, and what it sets. |
| HttpHeaders.RunBlock | deps/libevhtp/htparse.c:1383-1725 | Any block of headers from the state of the constructor: names and values in order; then chunks if a line says so, else the last Content-Length, else nothing. |
| HttpHeaders.FixedMessage | deps/libevhtp/htparse.c:1383-1894 | Headers with a Content-Length and as many bytes give exactly those bytes and one complete message. |
| HttpHeaders.ChunkedMessage | deps/libevhtp/htparse.c:1383-1858 | Headers that say chunked and chunks give their data and one complete message. |
| HttpHeaders.NoBody | deps/libevhtp/htparse.c:1687-1725 | With neither header the message is complete behind the empty line, without data. |
| HttpHeaders.Receive | deps/libevhtp/htparse.c:465-1904 | The same from a new parser object, over any pieces. |
| HttpStops.BareLF | deps/libevhtp/htparse.c:1470-1612 | A value ended by a bare LF is an error behind its name. |
| HttpStops.BadLength | deps/libevhtp/htparse.c:1506-1540 | A Content-Length that is no number, or too long, is an error, and the length left is 0. |
| HttpStops.CRWithoutLF | deps/libevhtp/htparse.c:1614-1637 | Behind the CR of a line there must be LF. |
| HttpStops.EmptyValue | deps/libevhtp/htparse.c:1470-1503 | A plain header without a value has a space for one. |
| HttpStops.Continued | deps/libevhtp/htparse.c:1639-1685 | A line that begins with a tab continues the value before it. |
| HttpStops.BadEmptyLine | deps/libevhtp/htparse.c:1639-1725 | Instead of the empty line: a bare LF, or a CR without one. |
| HttpStops.TooLong | deps/libevhtp/htparse.c:465-500 | A name or value of 8192 bytes leaves no room for another. |
| HttpStops.BadSize | deps/libevhtp/htparse.c:1752-1788 | A size that does not begin with a digit, or is followed by anything but CR LF. |
| HttpStops.BadDataEnd | deps/libevhtp/htparse.c:1835-1858 | Behind the data of a chunk there must be CR LF. |
| LogSlots.NextInv | src/zlog.c:90-109 | No step of any thread breaks: a lock is taken exactly when one thread holds it, a slot is open exactly when one thread owns it. |
| LogSlots.Safety | src/zlog.c:138-188 | In every interleaving: one holder, one owner, and a thread that prints or closes finds its slot open. |
| LogSlots.Quiescent | src/zlog.c:212-224 | With no thread logging, every slot and lock is as log_init left it. |
| LogSlots.NoDeadlock | src/zspinlock.c:50-60 | While a thread is logging, some logging thread can move. |
| LogSlots.WorkFalls | src/zlog.c:90-109 | Every step but a turn of a spin loop brings its thread nearer to the end. |
| LogSlots.NextSpread | src/zlog.c:90-109 | A thread goes past a slot only while another one has it, so the threads behind it stay accounted for. |
| LogSlots.SlotsSuffice | src/zlog.c:90-109 | While fopen works, no more slots are used than there are threads; with up to 100 threads log_open never fails. |
| LogSlots.PassSlot | src/zlog.c:93-106 | A slot in use is passed and left as it was. |
| LogSlots.FillUp | src/zlog.c:90-109 | Threads that log at once take the slots from the first on, one each. |
| LogSlots.CanFailIff | src/zlog.c:90-109 | While fopen works, log_open can fail exactly when there are more than 100 threads. |
| LogLines.EveryCallPrintsOnce | src/zlog.c:90-224 | In any run, thread by thread: every call begun opens a slot or fails to; as often as slots are opened they are printed into and closed; as often as it fails, stdout is printed to. |
| LogLines.OpenedPrintsOnce | src/zlog.c:138-224 | From when log_open has succeeded until the thread is idle again it prints exactly once, to the file, and closes it. |
| LogLines.FailedPrintsOnce | src/zlog.c:138-188 | If it fails, exactly once to stdout. |
| LogLines.IdleHasPrinted | src/zlog.c:90-224 | A thread at rest has printed once for each call it made. |
| LogLines.SameSlot | src/zlog.c:90-224 | What it prints into and closes is the slot it opened, with the file in it. |
| LogSlots.Logs.constructor | src/zlog.c:73-80 | Every slot is empty and every lock free. |
| LogSlots.Logs.TryLock | src/zspinlock.c:50-60 | The lock was free and is taken, or nothing changes. |
| LogSlots.Logs.Step | src/zlog.c:90-224 | One atomic step on the arrays is one step of the model. |
| ImageKey.GenKey | src/zutil.c:545-567 | Appending number after number through a second buffer gives the beginning of the whole key that fits. |
| ImageKey.IsMd5 | src/zutil.c:478-486 | 1 exactly for 32 hexadecimal digits. |
| ImageKey.FullKeyInjective | src/zutil.c:545-567 | Whole keys differ for any two renderings. |
| ImageKey.FullKeyIsDerived | src/zutil.c:545-567 | No derived key is the name of an image. |
| ImageKey.KeyIdentifies | src/zutil.c:545-567 | A key tells its rendering from all others exactly when it is shorter than 127 characters. |
| ImageDb.MeantIsRendering | src/zdb.c:73-97 | Whatever is found under the key of a request is what the request stands for. |
| ImageDb.HexDigest | src/zimg.c:68-74 | The digest in lower-case hexadecimal digits, a name is_md5 accepts. |
| ImageDb.Server.Upload | src/zimg.c:56-100 | The data is stored under its MD5 name unless it is there, and nothing else changes. |
| ImageDb.Server.Get | src/zdb.c:57-160 | The code and body returned are those of converting the original, whatever cache and saved renderings hold; a small result is cached afterwards, a new one saved exactly when settings and request ask for it, and originals stay. |
| ImageDb.Server.Convert | src/zdb.c:97-150 | The rendering is made from the original, cached and saved under its own key only. |
| ImageDb.Server.Admin | src/zdb.c:389-415 | Deletion removes the original alone; a missing one is reported as 2. |
| ImageDb.Server.Serve | src/zdb.c:57-160 | Over any run, every response is the one a plain map of originals gives. |
| ImageRequests.NotThere | src/zdb.c:67-70 | An image that is not there is not found, whatever is asked of it. |
| ImageRequests.AsUploaded | src/zdb.c:76-77 | Width, height and proportion 0: the original, under its own name. |
| ImageRequests.AsConverted | src/zdb.c:78-131 | One of them not 0: code and body are those of the conversion, under a key that is no image's name. |
| ImageRequests.Fetch | src/zdb.c:57-160 | The same of a running server, whatever its cache holds and its store has saved. |
| ImageRequests.OriginalIff | src/zhttpd.c:986-1058 | The original goes out to exactly those queries that ask for proportion 0, no size and no corner. |
| ImageRequests.PlainKey | src/zutil.c:545-567 | The key of an image asked for without a query, character by character. |
| ImageRequests.NameSpells | src/zimg.c:68-74 | The name of an image is its MD5 in small hexadecimal digits, the high one of each byte first. |
| ImageRequests.UploadThenAsk | src/zdb.c:57-160 | An upload, anything that keeps it, and a request: the answer is that of the data uploaded. |
| ImageRequests.RemoveThenAsk | src/zdb.c:389-415 | A removal, anything that does not bring the image back, and a request: not found, though its renderings were saved. |
| ImageRequests.UploadAgain | src/zimg.c:83-88 | Data that are there already are not written again. |
| ImageRequests.UploadFails | src/zimg.c:91-95 | New data that cannot be written leave nothing behind. |
| Glob.MatchStarStep | deps/libevhtp/evhtp.c:523-542 | A star takes nothing, or the first character and then what it likes. |
| Glob.Match | deps/libevhtp/evhtp.c:509-568 | True exactly when strings put for the stars make the pattern the text. |
| Base64.DecodeEncode | src/xutil.c:33-65 | Decoding undoes base64 (section 4 of RFC 4648) for any bytes. |
| Base64.B64Decode | src/xutil.c:33-65 | The decoded bytes, at most three for every four characters, and nothing written behind them. |
| Base64.PercentRoundTrip | src/xutil.c:67-98 | Decoding undoes percent-encoding (section 2.1 of RFC 3986) in any mixture of plain and escaped characters. |
| Base64.UrlDecode | src/xutil.c:67-98 | The decoded text, no longer than the encoded one. |
| Base64.DecodeUpload | src/xhttpd.c:253-275 | The two buffers as computed are large enough for both decoders. |
| Base64.UploadRoundTrip | src/xhttpd.c:253-275 | Any bytes in base64, percent-encoded in any way, come back as they were. |
| UploadTables.Alphabet | src/xutil.c:9-32 | The digits of table 1 of RFC 4648. |
| UploadTables.OtherCharacter | src/xutil.c:9-32 | Any other character counts like an A. |
| UploadTables.QuadValue | src/xutil.c:33-65 | Four digits are the 24 bits of three bytes, the first digit the highest. |
| UploadTables.QuadPadded | src/xutil.c:33-65 | With padding, the bytes the digits in front of it fill. |
| UploadTables.Vectors | src/xutil.c:33-65 | Examples of section 10 of RFC 4648. |
| UploadTables.Leftover | src/xutil.c:33-65 | Characters behind the last four are dropped. |
| UploadTables.PiecesDecode | src/xutil.c:67-98 | A percent sign with two digits of either case is a byte, one with anything else behind it is dropped, one at the very end stays. |
| UploadTables.PiecesOf | src/xutil.c:67-98 | Every text is made of such pieces. |
| UploadTables.OneStar | deps/libevhtp/evhtp.c:509-568 | A pattern with one star matches what begins and ends like it, without overlap. |
| UploadTables.NoStar | deps/libevhtp/evhtp.c:509-568 | One without a star matches itself. |

## Left out

- Sockets, libevent buffers, memcached and redis connections, files, Lua and MagickWand: the store and
  the cache are maps, and image conversion is an arbitrary function of the original and the request.
- Allocation failure, and sizes beyond size_t. The numbers on the wire, the words of MD5, chunk sizes and
  the printed chunk length have the widths they have in C.
- hiredis: replies under construction are values in the stack slots instead of objects that parents
  point to, so aliasing between slots is not modelled; the wording of errors is not either. A positive
  count whose low half is not positive ends the modelled run (`CountLost`): the source goes on without
  defined behaviour.
- RedisFormat.CollectArguments: formats with other directives than %s, %b and %%, which are the integer
  and floating ones.
- RedisFormat.FormatCommand: the same.
- RedisWords.EveryFormat: the same.
- JsonItem.PrintValue: numbers that are not integers up to 2 to the 53, whose text printf rounds. They are
  read, but not printed. Reference nodes and the previous-sibling link are left out, and the chain of
  children is a sequence.
- JsonParser.ParseNumberAt: the rounding of doubles and the overflow of the int that holds the exponent; the
  value is exact. The error pointer is left out.
- JsonParser.ParseText: where the source's cursor would leave the text, or more would be copied than was
  measured, the model stops and says so.
- JsonMinify.Minify: the same; what the source writes from there on is not modelled.
- JsonGrammar.TextIff: texts with a literal that is not tidy; `JsonLiteral.StringIff` says which of these
  literals are read.
- JsonSameTree.SameTree: texts with a literal that is not tidy; `IrregularText` is one for which it fails.
- MultipartSpec.RunIsExact: boundaries with an inner CR that does not begin the delimiter again, for which
  `MultipartSearch.ExactIff` shows it false.
- Multipart.Parser.constructor: an empty boundary, which no caller passes.
- Multipart.Parser.Execute: callbacks that return something else than 0.
- MultipartRoundTrip.RoundTrip: parts spread over several calls; the marks are locals of one call.
- HttpBody.HtParser.Run: request and status lines; the run ends where a message is complete. Hooks return
  0. The flags for keep-alive, close and multipart bodies are not kept, nor is the 0 the source writes behind
  the bytes in its buffer.
- Rfc7230.ReadWholeIff: chunks of 2 to the 64 bytes and more, which no buffer holds.
- LogSlots: log_flush, which takes and releases one lock, the levels and the text printed.
- ImageDb.MeantIsRendering: requests whose key is cut off; `ImageKey.KeyIdentifies` shows that such a key
  stands for other renderings too.
- ImageDb.Server.Upload: two uploads of a run with the same MD5.
- ImageDb.Server.Get: ETags and scripts, disk mode, and requests whose key is cut off. Requests are
  atomic and reading the store does not fail.
- ImageDb.Server.Convert: requests whose key is cut off.
- ImageDb.Server.Serve: runs with such requests or such uploads.
- ImageRequests.OriginalIff: how the query is taken apart and atoi reads it.
- Base64.DecodeUpload: what the query parser does to the text before.
- `src/xlist.c`, configuration and header loading, access rules and request callbacks: plumbing.
