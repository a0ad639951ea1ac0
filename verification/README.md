# A verified model of the HTTP Garden's wire code

The HTTP Garden compares HTTP implementations, so its own wire code has to be
right. This project models that code in Dafny and proves what it is for:

- **HPACK** (`tools/hpack.py`): the prefix integers, the Huffman tree that is built
  by insertion and walked bit by bit, strings, the four kinds of header field, field
  blocks, and the dynamic table.
- **HTTP/2 frames** (`tools/http2.py`): the generic frame layer and the ten typed
  frames above it.
- **The echo server** (`tools/echo_server.py`): its per-stream logs and the merge
  that makes an answer of them.
- **HTTP/1** (`tools/http1.py`, `tools/mutations.py`): the parser of request streams
  and the printer of requests and chunked bodies.
- **Two C loops**: Base64 (`images/libevent/http-garden.c`) and the decimal printer
  (`images/aws_c_http/server.c`).

`dafny verify dfyconfig.toml` checks everything. The claims are for all inputs.

## How it is put together

An iterator that a parser shares with its callers is the sequence of octets not yet
consumed. A parser is a function from that sequence to a value and the rest, and every
round trip has the form "parse(print(x) + rest) gives x and leaves rest". Loops of the
source are methods with loops, proved equal to those functions; the Huffman tree is a
graph of `Node` objects, the HPACK state and the echo connection are classes whose
methods state their whole new value; Base64 and `itoa` work in place on arrays.

| module | about |
|---|---|
| Wire, Bits, BigEndian, HttpText | octets, bits, fixed-width numbers, text patterns |
| PrefixCode, TilingCode, HuffmanTable, HuffmanTree | prefix codes in general; a linear check that a table is one; the table of RFC 7541; the tree |
| HuffmanLengths, HuffmanUnique | the code lengths of RFC 7541; they and the order of the symbols determine the code |
| HpackInt, HpackString, HpackField, HpackReprint | sections 5.1, 5.2 and 6 of RFC 7541; print then parse, and parse then print |
| StaticTable, HpackState, HpackLiveness | the tables of sections 2.3 and 4; which entries are alive |
| HpackMeaning | what a field block means, told without the code's processing |
| H2Generic, H2Frame, H2RoundTrip, H2Layout | sections 4.1 and 6 of RFC 9113; the same octet by octet, with the numbers written out |
| EchoServer, EchoRuns, EchoAnswers, EchoRounds, EchoWire | the connection; its logs and answers over a whole run; all that a run sends, and what it never answers; rounds of octets cut anywhere; the octets themselves |
| Http1, Http1Print, Http1RoundTrip, Http1Failures, Http1Meaning | parser, printer, where they agree, and where the parser fails with something other than ValueError; what header lines mean |
| Base64, Itoa | the C loops |

The string codec takes the code table as a parameter. `HpackCode(code)` asks it to be a
complete prefix code whose codeword for EOS is thirty ones, and
`HuffmanTable.HuffmanCodeFits` shows that the table of the source is one.

Round trips alone would not notice a printer and a parser that are wrong in the same way. So
each format is also tied to something that neither of them uses: the Huffman code to its
lengths and order, the static table to Appendix A entry by entry, a field block to what its
fields denote, frames to their layouts in numbers, header lines to their names in any letter
case, chunked bodies to a grammar.

## Where the code departs from its documents

Each of these is a lemma that says exactly when the code does what one would expect, most
of them with a lemma for an input at which it does not.

- A request whose END_STREAM comes on a HEADERS frame without END_HEADERS is never answered:
  the stream goes into `streams_ending`, which nothing reads, and the CONTINUATION that ends
  the header block is only logged (`EchoAnswers.AnswersExactly`,
  `EchoAnswers.SplitHeadersAreNotAnswered`, `EchoAnswers.EndingIsNeverRead`; on a new
  connection, `EchoAnswers.SplitHeadersArePossible`).
- The echo server raises instead of answering on stream 0, and when the logs of a stream do
  not fit in one DATA frame (`EchoAnswers.AnswersExactly`, `EchoAnswers.StopsExactly`;
  `EchoAnswers.StreamZeroIsNotAnswered`, `EchoAnswers.LongestFrameIsNotAnswered`).
- Every read of the socket must deliver whole frames: a frame that is cut in two reads raises
  H2Error in the first, although the two together would have been handled. Reads end wherever
  a timeout falls (`EchoRounds.RoundsGoOnExactly`, `EchoRounds.CutsMatterExactly`,
  `EchoRounds.CutFrameRaises`, `EchoRounds.CutsArePossible`).
- `parse_body` promises ValueError on failure. A chunk length from 4294967295 up to 4300
  decimal digits raises OverflowError instead, and a gzip body that does not decompress raises
  what `gzip.decompress` raises; `parse_request_stream` catches neither and returns nothing
  (`Http1Failures.ChunksCrashExactly`, `Http1Failures.StreamCrashesExactly`,
  `Http1Failures.OverflowIsPossible`).
- Padding of a Huffman string is checked only when it is at most seven bits long. Longer
  padding, and even a codeword broken off in the middle, is accepted
  (`HpackString.DecodeMeetsStandard`), where section 5.2 of RFC 7541 requires a decoding error:
  the octet FF (`HpackString.LongPaddingIsAccepted`) and eight of the ten bits of `!`
  (`HuffmanTable.BrokenExclamationMark`) decode to the empty text.
- The parser stores the decoded length of a compressed string in `length`, so printing a
  parsed string announces the wrong number of octets unless the two lengths happen to agree
  (`HpackString.ReprintOfCompressed`); a line feed does not come back
  (`HuffmanTable.LineFeedDoesNotReprint`).
- A partial field with index 0 prints a literal field's opcode, so neither it nor a block that
  holds it comes back (`HpackField.FieldRoundTripExactly`, `HpackField.BlockRoundTripExactly`;
  for every such field, `HpackField.PartialZeroIsNotPartial`).
- `check_priority` is a chained comparison and lets through a HEADERS frame with some but
  not all priority fields; printing drops them (`H2RoundTrip.HeadersSurviveExactly`,
  `H2RoundTrip.PartialPriorityIsConstructible`).
- A frame that declares more padding than it has trips the assertion of `bslice`, which
  `specialize` does not catch (`H2RoundTrip.SpecializeFailsExactly`,
  `H2RoundTrip.OverpaddedIsPossible`).
- `_randomly_chunk` may print a trailer, which `parse_body` does not accept
  (`Http1Print.ChunkedRoundTrip`, `Http1Print.TrailerIsRefused`, `Http1Print.TrailerIsPossible`).
- A size update beyond the maximum takes effect before the assertion that refuses it
  (`HpackState.HpackTable.UpdateCapacity`, `HpackState.FieldKeepsTable`,
  `HpackState.ExcessiveUpdateIsInForce`).

## Model

| member | source | states |
|---|---|---|
| PrefixCode.UniqueSplit | tools/hpack.py:497-512 | for any complete prefix code, the bit walk's symbols and residual are the one and only split of the input into codewords and a proper prefix of a codeword (if and only if) |
| PrefixCode.WalkConserves | tools/hpack.py:497-512 | for any code at all, the codewords of the output followed by the residual are the input bits: none is lost or invented |
| PrefixCode.WalkEndsInside | tools/hpack.py:497-512 | the walk never leaves the code: what is left at the end is a proper prefix of some codeword |
| TilingCode.TilingCodeIsGood | tools/hpack.py:11-272 | if the codewords, in some order, tile the numbers of a fixed width end to end, the code is prefix-free and complete |
| TilingCode.PrefixIsInterval | tools/hpack.py:11-272 | a codeword is a prefix of a bit string exactly when the string's value lies in the codeword's interval |
| TilingCode.TilingCodeIsUnique | tools/hpack.py:11-272 | a complete prefix code with the same lengths and ascending in the same order is the same code |
| HuffmanTable.CanonicalOrderTiles | tools/hpack.py:11-272 | the 257 codewords, by length and then value, tile the 30-bit numbers without gap or overlap (Kraft sum one) |
| HuffmanTable.HuffmanCodeIsGood | tools/hpack.py:11-272 | the table is prefix-free, complete and has no empty codeword |
| HuffmanTable.EosIsOnes | tools/hpack.py:270-273 | EOS is thirty ones |
| HuffmanTable.HuffmanCodeFits | tools/hpack.py:11-273 | the concrete table meets every hypothesis of the string theorems |
| HuffmanUnique.TableIsCanonicalCode | tools/hpack.py:11-272 | every symbol's codeword has the length of Appendix B, and codewords, as binary fractions, ascend with length and then with symbol |
| HuffmanUnique.CodewordsAscend | tools/hpack.py:11-272 | of two symbols with codewords of one length, the greater has the greater codeword |
| HuffmanUnique.CanonicalCodeIsUnique | tools/hpack.py:11-272 | the lengths of Appendix B and that order determine the table: which symbol has which codeword |
| HuffmanUnique.LowerAIsRead | tools/hpack.py:494-520 | the octet 1F decodes to `a` |
| HuffmanTree.Tree.Insert | tools/hpack.py:281-289 | inserting one codeword into a tree that holds exactly the first k codewords gives one that holds exactly the first k + 1; the walk down stands on a list at every step and overwrites nothing |
| HuffmanTree.Tree.LastSlotIsFree | tools/hpack.py:287-289 | prefix-freedom keeps the slot for a new symbol free |
| HuffmanTree.Tree.Step | tools/hpack.py:499-503 | in the finished tree no step of a walk reaches an empty slot; it reaches a symbol exactly when the bits so far are that symbol's codeword |
| HuffmanTree.Build | tools/hpack.py:279-292 | the insertion loop builds the tree of the whole code |
| Bits.BitsOfValueOf | tools/util.py:18-21 | bits of the value of a bit string are the bit string |
| Bits.ValueOfBitsOf | tools/util.py:18-21 | the value of the low bits of a number is the number, when it fits |
| Bits.PackUnpack | tools/hpack.py:541 | packing the bits of octets gives the octets |
| Bits.UnpackPack | tools/hpack.py:541 | unpacking packed bits gives the bits, for whole octets |
| H2Layout.BitsByMask | tools/util.py:18-21 | the bits of an octet, most significant first, are those whose masks make it up |
| HpackInt.ToBytes | tools/hpack.py:395-414 | the printer returns the octets of section 5.1 with the requested padding, or raises exactly for a preprefix that does not fit or padding on a value that fits the prefix |
| HpackInt.PrintGroups | tools/hpack.py:407-414 | the loop and the padding after it print the seven-bit groups of the value |
| HpackInt.ParseHpackInt | tools/hpack.py:364-384 | the shift loop returns the value that the groups denote recursively and leaves the octets behind them; a missing last group is an error |
| HpackInt.IntRoundTrip | tools/hpack.py:364-414 | for every value, padding, prefix length and preprefix, parsing the printed octets gives the value and consumes exactly them |
| HpackInt.ParsedIntIsPrinted | tools/hpack.py:364-414 | every accepted string is printed, by one choice of padding and preprefix |
| HpackInt.UnpaddedIsShortest | tools/hpack.py:395-414 | the unpadded form is the shortest string that parses to its value, and the only one of that length up to the preprefix |
| HpackInt.StandardExamples | tools/hpack.py:395-414 | the three examples of RFC 7541, Appendix C.1 |
| HpackString.CollectBits | tools/hpack.py:523-535 | the loops collect the codewords (or the raw bits) of the text and then ones up to the octet boundary |
| HpackString.ToBytes | tools/hpack.py:522-543 | the printer: length prefix with the compression bit, then the packed bits; an explicit length is printed as given |
| HpackString.DecodeWithTree | tools/hpack.py:494-520 | the tree walk over the octets computes `Decode`, which is defined by the table alone |
| HpackString.ParseHpackString | tools/hpack.py:480-520 | the whole parser, raw and compressed, with every error case |
| HuffmanTable.ParseString | tools/hpack.py:279-292 | the parser over the tree that the insertion loop builds from the concrete table is the parser that the theorems are about |
| HpackString.DecodeIsTheSplit | tools/hpack.py:494-520 | decoding yields a text if and only if the bits are its codewords and a residual that is a proper prefix of a codeword and is all ones or longer than seven bits |
| HpackString.EosExactly | tools/hpack.py:504-508 | the EOS error is raised if and only if EOS is a symbol of the split of the input |
| HpackString.DecodeEncoded | tools/hpack.py:494-535 | the padding never decodes to a spurious symbol: every text survives encoding |
| HpackString.TextRoundTrip | tools/hpack.py:480-543 | for all octets, compressed or not, parsing the printed string followed by anything gives the octets back and leaves exactly what follows |
| HpackString.TextRoundTripExactly | tools/hpack.py:480-543 | with an explicit `length`, that holds if and only if the length is the number of octets printed |
| HpackString.ReprintOfCompressed | tools/hpack.py:520 | a parsed compressed string prints and parses back if and only if its code is as long as its text |
| HpackString.DecodeMeetsStandard | tools/hpack.py:513-519 | the decoder agrees with section 5.2 of RFC 7541 on every input that leaves at most seven bits, and what it accepts beyond leaves more |
| HpackString.LongPaddingIsAccepted | tools/hpack.py:518 | a single octet of ones decodes to the empty text, which the standard refuses |
| HpackString.BrokenCodewordIsAccepted | tools/hpack.py:518 | a single octet that is the beginning of any codeword decodes to the empty text, whatever its bits |
| HuffmanTable.BrokenExclamationMark | tools/hpack.py:518 | in the concrete table, an octet that is not all ones decodes so |
| HpackString.LongCodewordDoesNotReprint | tools/hpack.py:520 | one character with a codeword of more than eight bits, once parsed, prints what does not parse back |
| HuffmanTable.LineFeedDoesNotReprint | tools/hpack.py:520 | in the concrete table, a line feed is such a character |
| HpackField.ParseField | tools/hpack.py:635-659 | the five opcode patterns are exhaustive, and each belongs to one kind of field and one property; only the empty iterator stops |
| HpackField.FieldExtends | tools/hpack.py:635-659 | a field is self-delimiting: octets behind it change neither its value nor what it takes |
| HpackField.FieldRoundTripExactly | tools/hpack.py:547-659 | a printable field parses back, consuming exactly its octets, if and only if it is not a partial field with index 0 |
| HpackField.PartialZeroIsNotPartial | tools/hpack.py:592-599 | a partial field with index 0 prints what can only parse as a literal field |
| HpackField.TruncatedFieldIsBad | tools/hpack.py:635-659 | a field cut anywhere inside is an error |
| HpackField.ParseFieldBlock | tools/hpack.py:662-672 | the loop returns the fields that the recursive reading of the block finds, or raises |
| HpackField.BlockThenRest | tools/hpack.py:592-672 | a printed block in front of anything: its fields, then whatever the rest is by itself |
| HpackField.BlockRoundTripExactly | tools/hpack.py:592-672 | parsing any printed list of fields gives the same list by index, name, value and property if and only if no partial field has index 0 |
| HpackField.TruncatedBlockIsAnError | tools/hpack.py:662-672 | whole fields followed by part of one: an error, no field is dropped silently |
| HpackReprint.TextIsPrintedExactly | tools/hpack.py:480-543 | the octets of an accepted string are what the printer makes of some text with its true length that parses the same, if and only if the string is raw or leaves at most seven bits |
| HpackReprint.FieldIsPrintedExactly | tools/hpack.py:547-659 | the octets of an accepted field are printed from a field that parses the same if and only if all its strings are so |
| HpackReprint.BlockIsPrintedExactly | tools/hpack.py:592-672 | an accepted block is printed from a list of fields that parses the same if and only if all its strings are so |
| HpackState.HpackTable.MaybeEvict | tools/hpack.py:684-686 | the loop drops the oldest entries until the table fits |
| HpackState.HpackTable.AddHeader | tools/hpack.py:688-690 | the new table is the one that `InsertIsStandard` relates to the standard |
| HpackState.HpackTable.GetHeader | tools/hpack.py:692-699 | static entries from index 1, then the dynamic table, newest first; nothing else |
| HpackState.HpackTable.UpdateCapacity | tools/hpack.py:704-707 | the new capacity and the eviction are in force even when the final assertion fails, and it holds exactly when the capacity asked for is at most the maximum |
| HpackState.HpackTable.Process | tools/hpack.py:715-726 | one field: a cached partial field looks its name up twice, and both times finds the same |
| HpackState.HpackTable.ProcessFieldBlock | tools/hpack.py:712-727 | the loop over the fields yields the headers and the state of the specification, also when it stops at a failed assertion |
| HpackState.EvictKeeps | tools/hpack.py:684-686 | eviction keeps an entry if and only if it and all newer entries fit |
| HpackState.InsertIsStandard | tools/hpack.py:688-690 | insert-then-evict gives the table of section 4.4's evict-then-insert, for every entry size; an entry larger than the table empties it |
| HpackState.InsertShifts | tools/hpack.py:688-702 | surviving entries move up by exactly one index, static indices never change, and the new entry is at 62 exactly when it fits |
| HpackState.PartialNameIsOld | tools/hpack.py:721-724 | a cached partial field yields, and inserts in the standard's way, the name that its index has before the insertion, at both look-ups |
| HpackMeaning.Entries1To15 | tools/hpack.py:295-310 | indices 1 to 15 name the entries of Appendix A, in every state |
| HpackMeaning.Entries16To30 | tools/hpack.py:311-325 | so do indices 16 to 30 |
| HpackMeaning.Entries31To45 | tools/hpack.py:326-340 | so do indices 31 to 45 |
| HpackMeaning.Entries46To61 | tools/hpack.py:341-356 | so do indices 46 to 61 |
| HpackMeaning.LookupIsAddress | tools/hpack.py:692-699 | index i is entry i - 1 of the static entries and the dynamic table taken as one list, and there is no other index |
| HpackMeaning.SizeOfTable | tools/hpack.py:709-710 | the size of a table is the octets of its names and values and 32 for each entry |
| HpackMeaning.FittingIsEvicted | tools/hpack.py:684-686 | eviction keeps the largest newest part that fits, and nothing else does |
| HpackMeaning.BlockMeans | tools/hpack.py:712-727 | a block yields a list of header lines and a state if and only if it decodes to them: each field in turn denotes its line in the state before it, a size update denotes none, and only cached fields add theirs |
| HpackMeaning.MethodGet | tools/hpack.py:715-716 | the block 82 yields `:method: GET` in every state |
| HpackState.FieldKeepsTable | tools/hpack.py:681-726 | after any field, also one that fails, the table is within the capacity in force; the state stays sound exactly when the field is no size update beyond the maximum |
| HpackState.ExcessiveUpdateIsInForce | tools/hpack.py:704-707 | on a new table, an update to 4097 octets fails and is in force |
| HpackState.BlockKeepsTable | tools/hpack.py:681-727 | after any block the table is within the capacity, holds at most capacity/32 entries, and is sound if the block was processed to its end |
| HpackState.BlockSplits | tools/hpack.py:712-727 | processing a block in two pieces is processing it whole |
| HpackState.WireIsTransparent | tools/hpack.py:662-727 | from any state, the re-parsed octets of a block give the headers and the table that the original fields give, for any mix of Huffman and raw strings |
| HpackState.WireSplits | tools/hpack.py:662-727 | the joined octets of two blocks decode like the first block and then the second |
| HpackLiveness.ExactLiveness | tools/hpack.py:676-707 | from any starting table that fits, over every run of insertions and size updates, the table is the newest part of the history, and an entry is in it if and only if at every moment since its insertion (or the start) it and all later entries fitted the capacity then in force |
| HpackLiveness.BlockIsARun | tools/hpack.py:712-727 | a field block does to the table what its list of insertions and size updates does |
| HpackLiveness.LivenessOverConnections | tools/hpack.py:676-727 | exact liveness after any sequence of field blocks, failed ones included, from any starting table that fits |
| H2Generic.ParseFlagsByte | tools/http2.py:182-210 | flags survive their octet |
| H2Generic.FlagsByteParse | tools/http2.py:182-210 | every octet is the octet of its flags |
| H2Layout.FlagsByMask | tools/http2.py:191-210 | the flags octet is the sum of the masks of the flags that are set |
| H2Layout.ParsedFlagsByMask | tools/http2.py:182-189 | the flags read from an octet are those whose masks make it up |
| H2Layout.BigEndianAt | tools/http2.py:303 | the octets of a number, each by its weight, most significant first |
| H2Layout.GenericLayout | tools/http2.py:302-303 | length, type, flags, the reserved bit over the stream, payload |
| H2Generic.ParseGenericFrames | tools/http2.py:787-795 | the loop returns the frames that the recursive reading finds, or raises |
| H2Generic.FrameRoundTrip | tools/http2.py:278-303 | parsing a printed frame followed by anything gives the frame and leaves exactly what follows |
| H2Generic.ParsedFrameIsPrinted | tools/http2.py:278-303 | a parsed frame's octets, followed by what was left, are the input |
| H2Generic.FramesAreABijection | tools/http2.py:278-303 | parsing succeeds with a list of frames if and only if the input is the concatenation of their octets |
| H2Generic.FramesThenRest | tools/http2.py:787-795 | parsing distributes over concatenation after whole frames |
| H2Generic.TruncatedFrameIsBad | tools/http2.py:278-297 | a frame cut anywhere raises H2Error |
| H2Generic.TruncationIsAnError | tools/http2.py:787-795 | whole frames followed by part of one are refused as a whole |
| H2RoundTrip.FrameSurvives | tools/http2.py:305-779 | each of the ten typed frames, padded, prioritised or with a settings list, is what specialising its generic form gives |
| H2RoundTrip.HeadersSurviveExactly | tools/http2.py:253-259 | a HEADERS frame survives if and only if it has all or none of its priority fields |
| H2RoundTrip.PartialPriorityIsConstructible | tools/http2.py:253-259 | a HEADERS frame with a dependency alone can be built and printed |
| H2RoundTrip.TypedRoundTrip | tools/http2.py:353-799 | `parse_frames` on the concatenated octets of any list of frames gives the same list |
| H2Layout.FrameLayout | tools/http2.py:388-779 | every typed frame prints as its section of RFC 9113 says, with the type 0 to 9 and the masks written out |
| H2Layout.TypeAndFlagsOctets | tools/http2.py:302-303 | octet 3 is the type and octet 4 the flags |
| H2Layout.LayoutsParse | tools/http2.py:798-799 | `parse_frames` reads any list of those layouts as the list of frames |
| H2Layout.SpecializesExactly | tools/http2.py:305-331 | a frame whose padding fits becomes a typed one if and only if its stream, its length and its numbers are what its type, by number, asks for |
| H2Layout.ConstructibleExactly | tools/http2.py:225-259 | the constructors refuse exactly the fields that are out of range, in numbers |
| H2RoundTrip.SpecializedIsSendable | tools/http2.py:305-331 | printing a specialised frame keeps type, stream and payload length, and it is again a frame that survives |
| H2RoundTrip.SpecializeIsIdempotent | tools/http2.py:305-331 | specialising the printed form of a specialised frame gives the same typed frame |
| H2RoundTrip.SpecializeFailsExactly | tools/http2.py:14-20 | an AssertionError gets through `specialize` if and only if the frame declares more padding than it has |
| H2RoundTrip.OverpaddedIsPossible | tools/http2.py:14-20 | a valid DATA frame of one octet makes `specialize` and `parse_frames` fail so |
| H2RoundTrip.ParseTypedFailsExactly | tools/http2.py:798-799 | on whole frames `parse_frames` fails if and only if one of them is over-padded, and never with H2Error |
| EchoServer.Connection.CollectFrame | tools/echo_server.py:35-40 | the frame goes to the end of its stream's log under the counter, which grows by one |
| EchoServer.Connection.Close | tools/echo_server.py:42-45 | the stream leaves both tables; an unknown stream raises and changes nothing |
| EchoServer.Connection.RespondAndClose | tools/echo_server.py:48-77 | sends the answer built from the two logs and closes the stream, or raises before sending |
| EchoServer.Connection.HandleFrame | tools/echo_server.py:92-118 | the dispatch changes the connection as the specification says, for every frame type and flag |
| EchoServer.Connection.HandleReceived | tools/echo_server.py:90-118 | one round: parse, then handle frame by frame until one returns or raises |
| EchoServer.Connection.HandleConnection | tools/echo_server.py:89-120 | the loop over rounds |
| EchoRounds.RoundsExactly | tools/echo_server.py:89-120 | on any rounds at all, the frames of the rounds before the first that does not parse are handled as one list; then that round raises and changes nothing |
| EchoRounds.RoundsGoOnExactly | tools/echo_server.py:89-120 | a connection goes on if and only if every round consists of whole frames and the run of all of them goes on |
| EchoRounds.BadRoundRaises | tools/echo_server.py:89-90 | a round that does not parse raises and leaves the connection as it was, whatever else would have come |
| EchoRounds.RoundsSendExactly | tools/echo_server.py:89-120 | on any rounds at all, a connection has sent exactly what was due for the whole frames before it stopped |
| EchoRounds.RoundsDoNotMatter | tools/echo_server.py:89-120 | cuts between frames make no difference |
| EchoRounds.CutsMatterExactly | tools/echo_server.py:89-120 | of octets after which the connection goes on when they come in one round, the cuts make no difference if and only if they lie between frames |
| EchoRounds.CutFrameRaises | tools/echo_server.py:89-90 | any frame cut anywhere in two rounds raises in the first |
| EchoRounds.CutsArePossible | tools/echo_server.py:108-111 | a SETTINGS frame is acknowledged when it comes whole and raises when it is cut after one octet |
| EchoRuns.ConnectionTracks | tools/echo_server.py:35-118 | after any run, each stream's log is exactly the logged frames that arrived for it since it was last closed |
| EchoRuns.SortMerges | tools/echo_server.py:50-53 | sorting two logs by counter is the order of arrival of their frames |
| EchoRuns.TriggerSurvives | tools/echo_server.py:48-77 | a call of `respond_and_close_stream` succeeds if and only if the stream is not 0 and its log fits in one DATA frame |
| EchoAnswers.AnswersExactly | tools/echo_server.py:94-103 | a frame with END_STREAM is answered if and only if it is DATA, or HEADERS that has END_HEADERS as well, the stream is not 0, and the log fits in one DATA frame; otherwise it sends nothing |
| EchoAnswers.RunSendsExactly | tools/echo_server.py:92-118 | a run that goes on has sent, in order, exactly one answer with the frames due for each such frame, one acknowledgement for each SETTINGS and PING that asks for it, and nothing else |
| EchoWire.RunSendsOctets | tools/echo_server.py:92-118 | the same octet by octet, with types and flags in numbers: an answer is a frame of type 1 with flags 04 and one of type 0 with flags 01 |
| EchoWire.AnswerReads | tools/echo_server.py:55-71 | those octets parse to the two frames, of which only the last ends the stream, and the header block decodes from any state to `:status: 200` |
| EchoWire.OctetsAreAFrame | tools/http2.py:787-795 | the octets of one frame are read as that frame |
| EchoWire.DispatchByOctets | tools/echo_server.py:92-118 | what the connection does with one frame, by the numbers in its octets 3 and 4 |
| EchoWire.PingIsAnswered | tools/echo_server.py:112-114 | octets of type 6 with bit 0 of the flags clear and a payload of eight or more are acknowledged with the first eight |
| EchoWire.TypesByNumber | tools/echo_server.py:93-118 | which types are logged, trigger a response, or close a stream |
| EchoAnswers.StopsExactly | tools/echo_server.py:92-118 | after any run, the next frame stops the connection if and only if it is GOAWAY, RST_STREAM for a stream with nothing logged, a short PING, or an END_STREAM that cannot be answered; only GOAWAY returns |
| EchoAnswers.StoppingSendsNothing | tools/echo_server.py:48-118 | the step at which a connection stops sends nothing |
| EchoAnswers.StoppedRunSends | tools/echo_server.py:92-118 | a run that stops has sent exactly what was due before the frame at which it stopped |
| EchoAnswers.StreamZeroIsNotAnswered | tools/echo_server.py:94-97 | DATA with END_STREAM on stream 0 of a new connection raises and sends nothing |
| EchoAnswers.LongestFrameIsNotAnswered | tools/echo_server.py:66-70 | nor does a DATA frame of the greatest length, whose echo takes nine octets more |
| EchoAnswers.SplitHeadersAreNotAnswered | tools/echo_server.py:102-118 | after HEADERS with END_STREAM but without END_HEADERS, and any CONTINUATION frames, nothing has been sent and the stream still waits |
| EchoAnswers.SplitHeadersArePossible | tools/echo_server.py:102-118 | such a run of two frames on a new connection |
| EchoAnswers.EndingIsNeverRead | tools/echo_server.py:81-118 | whatever `streams_ending` holds, a run sends, logs and stops the same |
| EchoRuns.AnswerEchoesArrivals | tools/echo_server.py:48-101 | the answer parses to HEADERS, complete, without padding or priority, not ending the stream, and DATA that ends it; the DATA is the concatenation of exactly the frames that arrived for the stream and for stream 0, each since its last close, in order of arrival, and parses back to those frames |
| EchoRuns.StatusBlockDecodes | tools/echo_server.py:61-65 | the answer's field block decodes, from any HPACK state, to `:status: 200` and leaves the state alone |
| EchoRuns.Acknowledges | tools/echo_server.py:108-114 | SETTINGS and PING frames that are no acknowledgements are acknowledged, a PING with its first eight octets; a shorter PING raises |
| EchoRuns.HandleKeeps | tools/echo_server.py:92-118 | every step keeps the bookkeeping consistent, also one that raises |
| EchoRuns.ReachableIsConsistent | tools/echo_server.py:35-118 | in every reachable state ending streams are collected, every frame sits under its own stream in a non-empty list, and counters increase within a list, differ across lists, and lie below `frame_counter` |
| HttpText.FromHexHex | tools/mutations.py:123 | reading the hexadecimal digits of a number gives the number |
| Http1Meaning.HexLetters | tools/http1.py:278-281 | hexadecimal digits in both letter cases |
| Http1Meaning.DecimalDigits | tools/http1.py:267 | a number and its decimal digits |
| Http1Meaning.Punctuation | tools/mutations.py:112-143 | the octets that separate the parts of a request, as text |
| Http1Meaning.WhiteSpace | tools/http1.py:205-208 | what counts as white space |
| Http1.ParseHeaders | tools/http1.py:230-253 | the loop over the lines returns what the recursive reading finds, or raises ValueError |
| Http1Meaning.FramingMeans | tools/http1.py:260-271 | the framing fails exactly if some Content-Length, in any letter case, is no number; its length is that of the last, and its codings are those of the two encoding headers in order, in lower case and without commas at their ends |
| Http1Meaning.BodyMeans | tools/http1.py:256-302 | the whole of `parse_body`, told by the headers alone, for requests and responses |
| Http1Meaning.HelloIsFive | tools/http1.py:297-299 | after `Content-Length: 5`, five octets are the body |
| Http1Meaning.BlanksAreTrimmed | tools/http1.py:249 | blanks around a value are no part of it |
| Http1Meaning.BareLineFeeds | tools/http1.py:243-248 | a bare line feed ends a header line, and two end the headers |
| Http1Meaning.LooseRequestLine | tools/http1.py:205-208 | any white space separates the words of a request line, and a bare line feed may end it |
| Http1Meaning.NoVersion | tools/http1.py:215-217 | a request line without a version is of version 0.9 |
| Http1.ReadChunks | tools/http1.py:276-296 | the chunk loop returns the joined chunks and the rest, or fails as its pattern does: ValueError for a length of more than 4300 digits, OverflowError for one that is too large to compile |
| Http1Failures.ChunksParseExactly | tools/http1.py:276-296 | the chunk loop returns a body and what follows it if and only if the input is whole chunks with that body, each under a line that announces its length, then a chunk of length zero, then what follows |
| Http1.SmallLengthsAreWritten | tools/http1.py:282-285 | no length that the pattern can count is refused for its digits |
| Http1.ParseRequestStream | tools/http1.py:186-195 | the loop terminates on every input and returns the requests before the first that does not parse, and what is left |
| Http1.RequestLeavesSuffix | tools/http1.py:198-227 | a parsed request takes a non-empty prefix of any input |
| Http1Failures.ChunksCrashExactly | tools/http1.py:276-296 | the chunk loop raises OverflowError if and only if the input is whole chunks, each under a line that announces its length, and then a line that announces a length too large for a repeat count but not for decimal digits |
| Http1Failures.BodyCrashesExactly | tools/http1.py:256-302 | a body fails with something other than ValueError if and only if it is chunked without gzip and holds such a length, or counted with gzip and does not decompress |
| Http1Failures.RequestCrashesExactly | tools/http1.py:198-227 | a request fails so if and only if its line and headers parse and its body fails so |
| Http1Failures.StreamCrashesExactly | tools/http1.py:186-195 | a stream fails so if and only if it is whole requests followed by one that does |
| Http1Failures.StreamLeavesSuffix | tools/http1.py:186-195 | on every other input the loop returns, and the leftovers are a suffix, empty or one on which parsing raises ValueError |
| Http1Failures.OverflowIsPossible | tools/http1.py:281-286 | a chunked POST whose first chunk announces ffffffff octets makes the stream parser fail |
| Http1Print.ChunkedRoundTrip | tools/mutations.py:112-127 | for every body, cut list, extension choice and following octets, the chunk loop gives back body and rest if and only if there is no trailer and no chunk too long for the pattern's repeat count |
| Http1Print.TrailerIsRefused | tools/mutations.py:125 | every chunked body with a trailer, of chunks that the pattern can count, is refused with ValueError |
| Http1Print.TrailerIsPossible | tools/mutations.py:125 | one octet in one chunk, with a trailer |
| Http1RoundTrip.RequestLineParses | tools/http1.py:205-211 | a request line of three words, followed by anything, parses to those words |
| Http1RoundTrip.HeadersParse | tools/http1.py:230-253 | printed headers parse back, and what follows the blank line is left untouched |
| Http1RoundTrip.BodyParses | tools/http1.py:256-302 | chunked, counted and empty bodies parse back, leaving exactly what follows |
| Http1RoundTrip.RequestRoundTrip | tools/mutations.py:130-143 | every well-formed request parses back from its printed form and leaves exactly what follows |
| Http1RoundTrip.RequestRoundTripExactly | tools/mutations.py:130-143 | with well-formed lines, a request comes back in front of everything that may follow if and only if its body is framed as its headers say |
| Http1RoundTrip.RequestsThenRest | tools/http1.py:186-195 | printed requests in front of anything parse first, and the rest as it would alone |
| Http1RoundTrip.StreamRoundTrip | tools/http1.py:186-195 | any list of well-formed requests, printed one after the other, parses to the same list with nothing left |
| Http1Meaning.RequestIsText | tools/mutations.py:130-143 | a printed request, as the text it is |
| Http1Meaning.PlainRequestComesBack | tools/http1.py:198-302 | a request with one Content-Length, the decimal number of its octets, or one `Transfer-Encoding: chunked`, names and coding in any letter case, or neither and no body, comes back in front of anything |
| Http1Meaning.PlainStreamComesBack | tools/http1.py:186-195 | and so does any list of such requests |
| Base64.Base64Encode | images/libevent/http-garden.c:39-69 | fills the buffer with the encoding of section 4 of RFC 4648 and a terminator, returns how much it wrote, and touches nothing behind it |
| Base64.ShiftsAreSextets | images/libevent/http-garden.c:47-52 | the shifts and masks of the loop are the base-64 digits of the 24-bit group |
| Base64.EncodedLength | images/libevent/http-garden.c:137-141 | 4*ceil(len/3) characters, which with the terminator fit what the callers allocate |
| Base64.EncodedIsText | images/libevent/http-garden.c:36-37 | only characters of the alphabet and `=` are written |
| Base64.DecodedEncoded | images/libevent/http-garden.c:39-69 | decoding recovers every input |
| Base64.Alphabet | images/libevent/http-garden.c:36-37 | the alphabet of RFC 4648 and the pad character |
| Itoa.Itoa | images/aws_c_http/server.c:228-250 | for every 64-bit number the buffer holds its decimal digits and zeros behind them, never overrun, and the terminator always remains |
| Itoa.ReverseDigits | images/aws_c_http/server.c:243-247 | the loop that recomputes `strlen` reverses the digits in place, and the length it recomputes never changes |
| Itoa.SwapEnds | images/aws_c_http/server.c:244-246 | one swap: the length computed between its two writes, from a half-swapped string, is still the same |
| HttpText.DecimalReadsBack | images/aws_c_http/server.c:238-241 | reading the digits back gives the number, and there is no leading zero |
| Itoa.FitsInBuffer | images/aws_c_http/server.c:229-230 | every 64-bit number has at most twenty digits |

## Left out

- Sockets, TLS, threads, timeouts, Docker, configuration, and the server's first SETTINGS frame: a connection is the list of what the socket delivers, and a send always succeeds.
- `frame_counter` is shared between threads; one connection is modelled, with any first value and with `collect_frame` as one step.
- The other servers under `images/`, `tools/diff.py`, `tools/grid.py`, and the remaining mutations: wrappers, flat case analysis, and list edits.
- `parse_response`, the JSON and Base64 reading of responses, and the HTTP/0.9 heuristics of `tools/http1.py`; of `parse_body` the response branch is modelled.
- `gzip.decompress` is a parameter that may fail; nothing is assumed of it.
- Regular expressions are written out as recognisers of exactly the languages and matches they have here; the engine is not modelled.
- Explicit `padding` lists of `HPACKString`, code points above 255 in its `data`, and the `set_*` helpers of frames: knobs for malformed output.
- Negative numbers: `val`, `padding_amount`, sizes, stream ids and pad lengths are natural numbers. Lengths above `sys.maxsize`, for which `itertools.islice` raises ValueError, are treated as lengths that exceed the data.
- Codewords are written as a number and a length instead of a string of digits; bitwise or of parts that do not overlap is addition.
- The tree's nested lists are `Node` objects with two slots; an entry is `None`, a symbol, or a node, as in the source.
- `HTTPRequest.__eq__`, `normalized_headers` and `is_valid`: the round trips are for identical requests, which is stronger than that equality.
- The body loop of `dump_request_cb`, which encodes pieces of 128 octets one by one, and the width of `int` for the `len` of `Base64encode`.
- HpackString.TextRoundTrip: does not cover explicit padding lists; an explicit length must be the true one, which TextRoundTripExactly shows to be necessary.
- HpackField.FieldRoundTripExactly: strings that announce a false explicit length are left out, as in the block theorems built on it: after such a string the parser reads the next field from the wrong octet.
