# Verified models of the SP2017 assignments

This project models five components of the repository in Dafny 4.11 and proves what they are there for. Each module is
named after what it models; methods with loops and fields stand for the source's loops and fields, functions say what
those methods compute, and lemmas prove properties of the functions or of every run of a protocol.

**cJSON (MP4).** `Json` defines values and their pure rendering; `JsonText` defines parsing as functions of a text and a
position. `JsonParser` is the recursive-descent parser over an offset and a depth, with every allocation recorded in a
ledger of live blocks (`Memory`, in `Heap.dfy`); any allocation may be refused. `PrintBuffer` is the printer over a
growing or preallocated buffer. `JsonRoundTrip` proves that parsing what is printed gives the value back, exactly up to
1000 nested containers; `JsonAccepted` goes the other way, from any text that is accepted. `JsonSpace` proves that the
decoding pass of a string fits in what the scanning pass computed, `JsonUnicode` and `Utf` that `\uXXXX` units become
the UTF-8 text that RFC 2781 (section 2.2) and RFC 3629 (section 3) prescribe. `JsonGrammar` gives the grammar of the
parser and proves that it accepts exactly its texts; `JsonNumber` and `JsonLiteral` do the same for numerals and say what
string literals mean; `JsonLayout` says where printed separators, tabs and line ends stand. `Minify`, `Compare`,
`Duplicate` and `ItemList` cover the in-place minifier, structural comparison, copying, and the doubly linked child
lists; `MinifyTokens` and `CompareKeys` say what is kept and which keys are the same in terms of characters, and
`MinifyTwice` on which texts a second minifying pass changes nothing.

**Boss and miners (MP3).** `Mining` is a state machine: one boss, any number of miners, FIFO pipes of whole messages,
and every interleaving. The boss never computes a digest; that it only ever accepts genuine treasures is an invariant
over pipes, levels and treasures. `Odometer` is the base-256 counter a miner runs through, one suffix length after the
other. `MiningRuns` proves that the protocol can accept every chain of genuine treasures, and what a miner is doing when.

**Thread pool and dispatcher (MP5).** `ThreadPool` interleaves workers and dispatchers, one shared access at a time;
`ThreadPoolRuns` states what follows for every run, and what `is_finished` tells its caller; `ThreadPoolCalls` what a
call of `run_task` comes to. `Server` is the main loop
with the connection flags and whole-step workers; `PooledServer` is the same with the workers of the pool, and proves
that every run of it looks like a run of `Server`. `ServerExclusion` proves exactly when one worker at a time has a
connection, `ServerCount` what number a round of counting publishes.

**Hash table and port registry (MP5).** `HashTable` is the chained table on the heap, with its iterator. `PortRegistry`
is the allocator whose reserve array and records must agree. Deleting the first node of a bucket drops the whole bucket;
that is how the code behaves, and the contracts say so.

**The version log (MP1).** `Loser` and `LoserLoops` classify files, `LoserClasses` proves what the classes mean,
`LoserLog` is the text of the record file and how it is read back, `LoserCommands` are `status`, `commit` and `log` over
any history, and `LoserResults` says what they show and record, file by file and line by line.

Modelling decisions that hold throughout:

- C strings are Dafny strings, characters standing for bytes; `NulFree` says that a text has no NUL of its own. Bytes of
  treasures and suffixes are integers from 0 to 255.
- JSON numbers are exact reals; printing is stated for integers of absolute value below 10^15, which the number format
  prints as plain decimals.
- A refused allocation is a possible outcome wherever the code asks for memory (`refusals` counts them), so contracts
  say "or memory was refused" and nothing weaker.
- Digests are an arbitrary function of the bytes (MP3) or given with each file (MP1); nothing is assumed about them but
  that they are text without blanks, parentheses and hash signs in MP1.
- Where a comment and the code differ, the model follows the code. The header asks for five bytes more than needed by
  `cJSON_PrintPreallocated` (MP4/cJSON.h:151-153); the code needs one more for a number and two more for anything else,
  and that is proved to be exact.
- `status` and `commit` start their backward scans at different offsets (MP1/main.c:94 and MP1/main.c:291-293); the
  model keeps both, and both are proved to find the same list.
- One worker per connection is not true of every run of the dispatcher. With two workers or more there are two steps
  after which it may fail: a worker handles a login, which replaces the entry of its connection and takes the flag off,
  and a new connection logs in on a descriptor that a worker still has. Both conditions can be read off the state before
  the step. They are exact: runs without such a step keep the property, and each such step can be continued, by steps of
  the other kinds alone, to a state in which two workers have one connection. With one worker it always holds.
- Minifying twice is not always the same as minifying once; the texts on which it is are characterised exactly.

## Model

| member | source | states |
|---|---|---|
| `JsonGrammar.WrittenIsAccepted` | MP4/cJSON.c:993-1070 | every text of the grammar (a value with any blanks before, behind and between its parts, perhaps a byte order mark in front) is accepted with its meaning, unless more than 1000 containers are nested |
| `JsonGrammar.AcceptedIsWritten` | MP4/cJSON.c:993-1070 | and every accepted text is a text of the grammar and means what was read |
| `JsonGrammar.TextParses` | MP4/cJSON.c:1203-1255 | the same for a value at any position, with any number of containers open |
| `JsonGrammar.StrictExact` | MP4/cJSON.c:1022-1029 | a parse with `require_null_terminated` succeeds if and only if the one without does and only blanks follow its value |
| `JsonRoundTrip.RoundTrip` | MP4/cJSON.c:993-1070 | for every printable tree and both formats, parsing the printed text with `require_null_terminated` gives the same ordered tree if and only if at most 1000 containers are nested, and is an error otherwise |
| `JsonAccepted.AcceptedRoundTrips` | MP4/cJSON.c:993-1070 | every accepted text, with either option, has at most 1000 nested containers; if its numbers are integers below 10^15, the value printed in either format is read back as the same value |
| `JsonAccepted.AcceptedExactly` | MP4/cJSON.c:993-1070 | the printable values some text stands for are exactly those with at most 1000 nested containers |
| `JsonAccepted.AcceptedValue` | MP4/cJSON.c:1336-1427 | what is accepted at any position fits in the limit together with the containers open there, and can be printed if its numbers are integers below 10^15 |
| `JsonRoundTrip.ParseRendered` | MP4/cJSON.c:1203-1255 | the same at any position inside any larger text, with any number of containers open: the parse ends exactly behind the rendering |
| `JsonRoundTrip.ParseRenderedArray` | MP4/cJSON.c:1336-1427 | a rendered array parses back in order, or hits the nesting limit |
| `JsonRoundTrip.ParseRenderedObject` | MP4/cJSON.c:1492-1598 | a rendered object parses back with its members in order, or hits the nesting limit |
| `JsonRoundTrip.ParseRenderedString` | MP4/cJSON.c:691-817 | every string without NUL is read back from its quoted and escaped form |
| `JsonRoundTrip.ScanEscaped` | MP4/cJSON.c:704-726 | the scanning pass finds the closing quote of an escaped string and not one inside it |
| `JsonRoundTrip.DecodeEscaped` | MP4/cJSON.c:737-795 | the decoding pass undoes all escapes of the printer |
| `JsonRoundTrip.StrtodInteger` | MP4/cJSON.c:259-334 | conversion uses the whole of a printed integer and gives its value |
| `JsonNumber.StrtodExact` | MP4/cJSON.c:259-334 | a numeral with sign, fraction and exponent is used whole, whatever follows it, and its value is all its digits times ten to the exponent less the number of fraction digits |
| `JsonNumber.NumeralOf` | MP4/cJSON.c:259-334 | a text that is used whole is such a numeral, and its value is that number |
| `JsonRoundTrip.RenderNulFree` | MP4/cJSON.c:820-939 | printed text contains no NUL, so it is a C string of its full length |
| `Decimal.DigitsValue` | MP4/cJSON.c:466-530 | a decimal numeral denotes the number it was printed from |
| `JsonLayout.NoLeadingZero` | MP4/cJSON.c:466-530 | printed integers have no superfluous zero in front |
| `JsonLayout.ArrayLayout` | MP4/cJSON.c:1430-1489 | an array is its elements between brackets with a comma between two of them, and a space behind it when formatted |
| `JsonLayout.ObjectLayout` | MP4/cJSON.c:1601-1712 | a formatted object has one member on a line behind one tab for each open container, a tab behind the colon, and its closing brace on a line of its own; unformatted there are only commas and colons |
| `Decimal.SpanExactly` | MP4/cJSON.c:259-334 | a maximal run of digits is found whole |
| `JsonParser.ParseWithOpts` | MP4/cJSON.c:993-1070 | succeeds with exactly the value and end the parse functions give; fails with their error position or after a refused allocation, and then leaves the live blocks as they were |
| `JsonParser.Parser.ParseDocument` | MP4/cJSON.c:993-1070 | byte order mark, blanks, value and, if asked for, nothing but blanks behind it; `depth` starts at 0 |
| `JsonParser.Parser.ParseValueItem` | MP4/cJSON.c:1203-1255 | a success advances, stays in front of the terminator, restores `depth` and owns exactly its new blocks; a failure keeps only what the caller can release |
| `JsonParser.Parser.ParseArrayItem` | MP4/cJSON.c:1336-1427 | the same for arrays; a failed array has released every element already read |
| `JsonParser.Parser.ParseObjectItem` | MP4/cJSON.c:1492-1598 | the same for objects; a failed object has released every key and value already read |
| `JsonParser.Parser.NextElement` | MP4/cJSON.c:1371-1403 | one turn of the element loop appends exactly one node, complete or marked for release |
| `JsonParser.Parser.NextMember` | MP4/cJSON.c:1525-1575 | one turn of the member loop appends one node with its key |
| `JsonParser.Parser.ParseStringItem` | MP4/cJSON.c:691-817 | reads the string the two passes define, in one new block; a failure releases that block |
| `JsonParser.Parser.ScanPass` | MP4/cJSON.c:704-726 | finds the closing quote and counts the escapes up to it, without leaving the text |
| `JsonParser.Parser.DecodePass` | MP4/cJSON.c:737-795 | writes the decoded text inside a block of the computed size, whatever the input |
| `JsonParser.Parser.LiteralToUtf8` | MP4/cJSON.c:570-688 | one `\u` literal becomes the UTF-8 form of its code point, or nothing is written |
| `JsonParser.Parser.EncodeUtf8` | MP4/cJSON.c:633-682 | the byte loop writes the UTF-8 form, last byte first, and touches no byte before it |
| `JsonParser.Parser.ParseNumberItem` | MP4/cJSON.c:259-334 | reads the longest convertible run of at most 63 number characters |
| `JsonParser.Parser.SkipBlanks` | MP4/cJSON.c:956-974 | stops on the first character above blank, or on the terminator, and never leaves the text |
| `JsonText.ParseValue` | MP4/cJSON.c:1203-1255 | terminates on every terminated text; a success moves forward and ends before the terminator |
| `JsonText.ParseElements` | MP4/cJSON.c:1370-1408 | the same for the element list |
| `JsonText.ParseMembers` | MP4/cJSON.c:1524-1580 | the same for the member list |
| `JsonText.Utf16Literal` | MP4/cJSON.c:570-631 | a literal has 6 or 12 characters inside the string and denotes a Unicode scalar value |
| `JsonText.ParseHex4` | MP4/cJSON.c:533-566 | a value below 0x10000, 0 when any digit is malformed |
| `JsonUnicode.HexReads` | MP4/cJSON.c:533-566 | four digits that spell a number, each in either case and the most significant first, are read as that number |
| `JsonUnicode.HexSpells` | MP4/cJSON.c:533-566 | four hexadecimal digits always spell the number that is read |
| `JsonSpace.DecodedFits` | MP4/cJSON.c:704-795 | from any point of the decoding pass, what is still written fits in the characters left less the escapes the scan counted among them, malformed `\u` digits included |
| `JsonSpace.AllocationSuffices` | MP4/cJSON.c:728-735 | the allocated block holds the decoded text and its terminator |
| `JsonSpace.SkippedStep` | MP4/cJSON.c:708-722 | the scan counts no two adjacent characters as escapes, wherever the decoder believes escapes to start |
| `JsonUnicode.DecodeUnits` | MP4/cJSON.c:737-795 | for every sequence of units, decoding succeeds exactly when RFC 2781 gives them code points, and writes their RFC 3629 form |
| `JsonUnicode.UnicodeLiteral` | MP4/cJSON.c:691-817 | a lone surrogate rejects the string; otherwise decoding the written bytes gives the code points back |
| `JsonUnicode.LiteralOfUnits` | MP4/cJSON.c:570-688 | a unit uses 6 characters, a surrogate pair 12, any other surrogate is an error |
| `JsonUnicode.SpelledLiteral` | MP4/cJSON.c:691-817 | a literal that spells the UTF-16 form of some code points is read as their UTF-8 form up to the first NUL; one that spells units which are the form of no code points is rejected |
| `JsonLiteral.LiteralMeans` | MP4/cJSON.c:691-817 | a literal made of plain characters, two-character escapes and `\uXXXX` escapes in any mixture is read as what these mean, one after the other, up to the first NUL |
| `JsonLiteral.UnescapeTable` | MP4/cJSON.c:754-789 | the two-character escapes are these eight, with these character codes, and no others |
| `JsonLiteral.UnknownEscape` | MP4/cJSON.c:787-788 | any other escape is an error, found at its backslash |
| `JsonLiteral.LoneSurrogate` | MP4/cJSON.c:589-612 | so is a surrogate that is not the first of a pair |
| `JsonLiteral.ShortEscape` | MP4/cJSON.c:580-584 | and a `\u` with fewer than four characters before the closing quote |
| `JsonLiteral.EscapeTable` | MP4/cJSON.c:890-934 | how each character is printed: seven short escapes, other control characters as `\u00` and two small digits, everything else as it is |
| `Utf.Utf16RoundTrip` | MP4/cJSON.c:589-625 | UTF-16 decoding undoes encoding for every sequence of scalar values |
| `Utf.Utf16Exact` | MP4/cJSON.c:589-625 | units that can be decoded are the UTF-16 form of what they are decoded to |
| `Utf.Utf8RoundTrip` | MP4/cJSON.c:633-682 | UTF-8 decoding undoes encoding for every sequence of scalar values |
| `Memory.Delete` | MP4/cJSON.c:207-228 | releases every block of a list of items exactly once, and nothing else |
| `Memory.Heap.Allocate` | MP4/cJSON.c:122-140 | a block that is not live, or a refusal |
| `PrintBuffer.Print` | MP4/cJSON.c:1080-1140 | the result is the pure rendering followed by NUL; there is none only when memory was refused or the size exceeds INT_MAX |
| `PrintBuffer.PrintBuffered` | MP4/cJSON.c:1153-1181 | the same from any first guess of the size |
| `PrintBuffer.PrintPreallocated` | MP4/cJSON.c:1183-1200 | succeeds if and only if the length is the rendering's plus 2 (plus 1 for a number) or more; nothing behind the given length is written |
| `PrintBuffer.PrintBuffer.Ensure` | MP4/cJSON.c:366-450 | what is written stays; afterwards there is room for what was asked for and a terminator; a preallocated buffer is never replaced |
| `PrintBuffer.PrintBuffer.UpdateOffset` | MP4/cJSON.c:454-464 | always finds a terminator, and the offset ends behind the text just printed |
| `PrintBuffer.PrintBuffer.PrintValue` | MP4/cJSON.c:1258-1333 | the rendering of the value stands behind what was written, NUL-terminated; in a preallocated buffer success is decided by its length alone |
| `PrintBuffer.PrintBuffer.PrintArray` | MP4/cJSON.c:1430-1489 | the same for arrays, with `depth` restored on success |
| `PrintBuffer.PrintBuffer.PrintObject` | MP4/cJSON.c:1601-1712 | the same for objects, indentation included |
| `PrintBuffer.PrintBuffer.PrintStringPtr` | MP4/cJSON.c:820-939 | the quoted, escaped string and its terminator, in exactly the space reserved |
| `PrintBuffer.PrintBuffer.PrintNumber` | MP4/cJSON.c:467-530 | the decimal numeral of an integer |
| `PrintBuffer.CountEscapes` | MP4/cJSON.c:847-871 | the number counted is exactly what escaping adds to the length |
| `PrintBuffer.CopyEscaped` | MP4/cJSON.c:890-934 | writes the escaped form and at most one character behind it |
| `PrintBuffer.NothingToEscape` | MP4/cJSON.c:879-888 | when nothing is added the string may be copied unchanged |
| `Minify.MinifyInPlace` | MP4/cJSON.c:2451-2519 | on every text with closed comments and strings: the front of the array becomes the minified text and NUL, what lies behind is unchanged |
| `MinifyTokens.MinifyExact` | MP4/cJSON.c:2451-2519 | a text can be minified if and only if it is made of blanks, closed comments, closed literals and other characters, and then the literals and the other characters are what is left |
| `MinifyTokens.TokensMinify` | MP4/cJSON.c:2451-2519 | the same from any position on, in any larger text |
| `Minify.MinifyFormatted` | MP4/cJSON.c:1143-1151 | minifying the formatted print gives the unformatted print byte for byte, whatever the strings contain |
| `Minify.RenderMinifies` | MP4/cJSON.c:1258-1333 | the same inside any larger text and at any depth |
| `Minify.StringMinifies` | MP4/cJSON.c:2496-2509 | string literals with escaped quotes, `//` and `/*` pass through unchanged |
| `MinifyTwice.MinifyTwiceExact` | MP4/cJSON.c:2451-2519 | a second pass changes nothing if and only if the first one brought no slash next to another slash or a star from which only blanks and comments kept it apart |
| `MinifyTwice.SlashesApart` | MP4/cJSON.c:2451-2519 | `/ /` becomes `//`, and that becomes the empty text |
| `Compare.EqualIffCanonical` | MP4/cJSON.c:2621-2744 | on trees with unique keys, comparison holds exactly when arrays agree in order and objects agree as maps from (folded) keys |
| `Compare.EqualIsEquivalence` | MP4/cJSON.c:2621-2744 | on such trees comparison is reflexive, symmetric and transitive |
| `Compare.FindIsMapLookup` | MP4/cJSON.c:1767-1793 | the linear search for a key is a lookup in that map |
| `CompareKeys.FindFirst` | MP4/cJSON.c:1767-1793 | the lookup gives the first member whose key has the same characters, or, when case does not matter, characters that are equal or the two cases of one ASCII letter; and nothing exactly when there is none |
| `CompareKeys.ObjectsExact` | MP4/cJSON.c:2704-2738 | two objects compare equal if and only if every member of either has in the other a first member with the same key in that sense, of equal value |
| `CompareKeys.OneMemberEach` | MP4/cJSON.c:2704-2738 | objects with one member each compare equal if and only if their keys are the same in that sense and their values are equal |
| `CompareKeys.UniqueExact` | MP4/cJSON.c:2704-2738 | what unique keys means, said of the characters |
| `Compare.CompareValues` | MP4/cJSON.c:2621-2744 | the comparison, its shortcut for identical nodes included, decides that relation on trees with unique keys, and without shared nodes on all trees |
| `Compare.CompareItems` | MP4/cJSON.c:2679-2701 | the same for the array loop |
| `Compare.CompareMembers` | MP4/cJSON.c:2704-2738 | the same for one of the two object loops |
| `Compare.GetObjectItem` | MP4/cJSON.c:1767-1793 | the first member with the key |
| `Duplicate.Duplicate` | MP4/cJSON.c:2372-2449 | a copy is equal to the original but for addresses (children only when asked for) and owns new blocks; a failure leaves the live blocks as they were |
| `Duplicate.NoSharing` | MP4/cJSON.c:2372-2449 | no block belongs to both the copy and the original |
| `Duplicate.EraseExact` | MP4/cJSON.c:2372-2449 | equal up to addresses means: keys, strings, numbers and types agree node by node, children in order |
| `Duplicate.CopyComparesEqual` | MP4/cJSON.c:2372-2449 | a recursive copy stands for the same value and compares equal to the original |
| `ItemList.LinkedUnique` | MP4/cJSON.c:1811-1815 | a chain with mutually inverse links ends, and determines its list of nodes |
| `ItemList.GetArrayItem` | MP4/cJSON.c:1738-1755 | the node at an index, NULL behind the end |
| `ItemList.AddItemToArray` | MP4/cJSON.c:1840-1865 | appends, and the links stay mutually inverse |
| `ItemList.InsertItemInArray` | MP4/cJSON.c:1996-2023 | inserts before an index, appends from the length on, changes nothing for a negative index |
| `ItemList.DetachItemViaPointer` | MP4/cJSON.c:1926-1954 | takes one node out; the rest stays well linked and the node ends up without neighbours |
| `ItemList.DetachItemFromArray` | MP4/cJSON.c:1956-1964 | the same by index, NULL when there is no such node |
| `ItemList.ReplaceItemViaPointer` | MP4/cJSON.c:2025-2058 | puts another node in the place of one; replacing a node by itself changes nothing |
| `ItemList.ReplaceItemInArray` | MP4/cJSON.c:2060-2068 | the same by index |
| `ItemList.Run` | MP4/cJSON.c:1840-2068 | after any sequence of edits with detached nodes, the heap list is the sequence the edits describe |
| `Odometer.Turn` | MP3/client/miner.c:158-185 | adds the step to the counter in place, or reports the carry out of digit 0 exactly when the sum reaches 256^L |
| `Odometer.Search` | MP3/client/miner.c:125-214 | the loop over one suffix length: tries the suffixes start, start + N, start + 2N and so on in increasing order, until one passes or all have been tried |
| `Odometer.SearchLengths` | MP3/client/miner.c:111-214 | the loop over the lengths 1, 2, 3 and so on: what is tried are the suffixes of all these lengths in turn, or those up to the first that passes |
| `Odometer.EverySuffixTried` | MP3/client/miner.c:111-214 | with N miners, every non-empty suffix is tried by exactly one miner, exactly once, and all shorter suffixes of that miner before it |
| `Odometer.EverySuffixOnce` | MP3/server/boss.c:202-211 | with N up to 256 miners started at 0 to N-1, every suffix of a length is visited by exactly one miner, exactly once |
| `Odometer.VisitsAt` | MP3/client/miner.c:160-181 | the k-th visit is the numeral of start + kN, for as long as that is below 256^L |
| `Odometer.ValueDigits` | MP3/client/miner.c:120 | suffixes of length L and numbers below 256^L correspond one to one |
| `Mining.OnlyGenuineTreasures` | MP3/server/boss.c:214-258 | in every run: after k acceptances the level is k + 1, and for every j up to k the digest of the mine with the first j suffixes has exactly j leading zeros |
| `MiningRuns.AcceptedExactly` | MP3/server/boss.c:214-258 | with one miner or more, the chains of suffixes that runs accept are exactly those in which the digest of the mine with the first j suffixes has exactly j leading zeros, for every j |
| `MiningRuns.ChainIsAccepted` | MP3/server/boss.c:195-258 | such a chain is accepted whichever miner is to find each suffix, and afterwards all miners work on the boss's treasure |
| `MiningRuns.ModeFollows` | MP3/client/miner.c:88-228 | in every run, what a miner is doing follows from its last message other than a status: behind a job it works, and offers what it finds; behind anything else it waits |
| `MiningRuns.WaitsAtFirst` | MP3/client/miner.c:88-92 | before it is told anything a miner waits |
| `MiningRuns.PassesTest` | MP3/client/miner.c:134-146 | the two tests of the search accept a digest if and only if its number of leading zeros is the one asked for |
| `Mining.BlockingReadIsServed` | MP3/server/boss.c:229 | in every run: the blocked boss reads exactly the suffix of the find it answered; no suffix is ever read as a header |
| `Mining.EqualLevelsEqualTreasures` | MP3/client/miner.c:92-112 | in every run: a miner's treasure followed by its unread jobs is the boss's treasure, so equal levels mean equal treasures |
| `Mining.StepKeepsInv` | MP3/server/boss.c:499-551 | every step of the boss or a miner keeps the invariant behind these |
| `Mining.RunKeepsInv` | MP3/server/boss.c:195-258 | it holds in every state of every run |
| `Mining.AcceptStep` | MP3/server/boss.c:229-251 | accepting the awaited suffix keeps it: winner and losers all learn of the new level |
| `Mining.FindKeeps` | MP3/client/miner.c:131-157 | a miner's find, stale or not, keeps it |
| `Mining.AnswerStep` | MP3/client/miner.c:8-30 | whatever a miner reads after a find, whether or not the boss waits for this miner, keeps it |
| `Mining.HandleFoundIsTwoSteps` | MP3/server/boss.c:214-258 | the two steps of the state machine do together what `handle_found` does in one call |
| `Mining.BossProcess.HandleFound` | MP3/server/boss.c:214-258 | the find is accepted if and only if its level is the boss's; the new treasure, level, digest and every pipe are given exactly |
| `Mining.BossProcess.AssignEach` | MP3/server/boss.c:195-213 | each pipe gets one job, with its own start and the common step |
| `Mining.BossProcess.NotifyEach` | MP3/server/boss.c:240-247 | every pipe but the winner's gets the notice |
| `ThreadPoolRuns.ExactlyOnce` | MP5/src/thread.c:54-68 | at most once, in every interleaving: a task begins only if accepted, at the worker it was given to, and once; a refused task never runs; what has begun has ended once or is running there |
| `ThreadPoolRuns.ExecutedAtRest` | MP5/src/thread.c:94-119 | at least once: whenever the dispatch lock is free and no worker can move, every accepted task has ended at the worker it was given to |
| `ThreadPoolCalls.CallAlone` | MP5/src/thread.c:94-119 | an uninterrupted call gives the task to the first worker that is not busy, flags and releases it, and refuses the task if and only if there is none |
| `ThreadPoolCalls.RefusedOnlyWhenBusy` | MP5/src/thread.c:94-119 | in every interleaving: before a task is refused, each worker has been found busy during this call, one after the other; so has every worker before the one that is given the task |
| `ThreadPoolRuns.NoLostWakeUp` | MP5/src/thread.c:94-119 | in every interleaving: an accepted task that has not begun is being handed over, or stands at its worker, which is able to move |
| `ThreadPoolRuns.LaunchIsSafe` | MP5/src/thread.c:48-52 | an argument is stored only while its worker waits, only a held control lock is released, and a running task's argument is not overwritten |
| `ThreadPoolRuns.IsFinished` | MP5/src/thread.c:121-127 | reads one flag after the other while the pool goes on; if the result is 1, every task accepted before the call has ended |
| `ThreadPool.StepKeepsInv` | MP5/src/thread.c:23-119 | every atomic access of a worker or a dispatcher keeps the invariant behind these |
| `ThreadPool.RunKeepsInv` | MP5/src/thread.c:23-119 | it holds in every state of every run, for any numbers of workers and dispatchers |
| `ServerCount.RoundExact` | MP5/src/csiebox_server.c:154-167 | in every run, over every round of the count: each of the descriptors 2 to 1023 is read once for the read set and then once for the count, in order; the read set is exactly those with an entry and no flag when they were read, and the published number is that of those flagged when they were read again |
| `ServerCount.SteadyRound` | MP5/src/csiebox_server.c:154-167 | while no flag changes, the published number is that of the flagged connections, and the read set holds all the others |
| `Server.ActiveWithinPool` | MP5/src/csiebox_server.c:154-167 | in every run: each flagged connection but the one being dispatched is in the hands of a worker; there are at most as many as workers that have one, plus one during a dispatch; the published count never exceeds the pool size |
| `Server.FlaggedBound` | MP5/src/csiebox_server.c:159-166 | from any descriptor on, at most as many connections are flagged as workers have one, plus the one being dispatched |
| `Server.StepKeepsInv` | MP5/src/csiebox_server.c:322-363 | every step of the main loop or a worker keeps the invariant behind the count |
| `PooledServer.StepSimulates` | MP5/src/csiebox_server.c:322-363 | every step of the dispatcher on the pool, with each access to a flag, lock or argument a step of its own, is a step of `Server` or not seen by it |
| `PooledServer.RunSimulates` | MP5/src/csiebox_server.c:322-363 | so every run of it looks like a run of `Server` |
| `PooledServer.FlagsAreBusyWorkers` | MP5/src/thread.c:23-68 | in every such run: each flagged connection but the one being dispatched belongs to a busy worker that has a task for it, and the published count never exceeds the pool size |
| `ServerExclusion.OneWorkerAtATime` | MP5/src/csiebox_server.c:322-363 | in every run of a pool of one, and in every run without a login by a worker and without a login on a descriptor that a worker has: one worker at most has a connection; in the latter the main loop dispatches only connections that no worker has |
| `ServerExclusion.StepExact` | MP5/src/csiebox_server.c:322-363 | after any such run and one more step: steps of the allowed kinds cannot lead to two workers with one connection if and only if that step is of an allowed kind, or there is at most one worker |
| `ServerExclusion.RunExact` | MP5/src/csiebox_server.c:322-363 | a run stays clear of such continuations throughout if and only if it is such a run, or there is at most one worker |
| `ServerExclusion.UncleanShares` | MP5/src/csiebox_server.c:322-363 | with two workers or more, every step of the two other kinds has a continuation to two workers with one connection |
| `ServerExclusion.ExposedIsShared` | MP5/src/csiebox_server.c:322-344 | from every state in which a worker has an unflagged connection, the main loop can finish its round, flag the connection again and give it to a second worker |
| `ServerExclusion.StepKeepsClean` | MP5/src/csiebox_server.c:322-363 | every step of such a run keeps the invariant behind that |
| `ServerExclusion.SecondLoginSharesConnection` | MP5/src/csiebox_server.c:424-429 | a run in which a login handled by a worker lets two workers have one connection |
| `ServerExclusion.EarlyReuseSharesConnection` | MP5/src/csiebox_server.c:442-446 | a run in which reuse of a closed descriptor lets two workers have one connection |
| `HashTable.PositionIsModulus` | MP5/src/hash.c:21-24 | the bucket is the mathematical code modulo n, for negative codes too |
| `HashTable.Hash.Init` | MP5/src/hash.c:6-17 | makes n empty buckets, once, for positive n |
| `HashTable.Hash.Put` | MP5/src/hash.c:19-56 | inserts if and only if the code is absent and memory is granted, at the end of its bucket; as a map the table gains exactly this entry |
| `HashTable.Hash.Get` | MP5/src/hash.c:58-75 | the lookup in that map |
| `HashTable.Hash.Del` | MP5/src/hash.c:101-126 | removes the code and nothing of any other bucket; the rest of its own bucket goes exactly when its node was the first; links of other nodes stay |
| `HashTable.Hash.Unlink` | MP5/src/hash.c:114-118 | the effect on the chain, and that the table stays well linked and well placed |
| `HashTable.StoresNode` | MP5/src/hash.c:19-56 | a node appended to its bucket keeps codes unique and in place, and is one more map entry |
| `HashTable.DeletesNode` | MP5/src/hash.c:101-126 | what deletion means for the map, first node or not |
| `HashTable.FlattenExact` | MP5/src/hash.c:162-199 | going through all buckets meets every stored code exactly once |
| `HashTable.Iterator.Init` | MP5/src/hash.c:162-177 | starts with all nodes still to be visited |
| `HashTable.Iterator.Add` | MP5/src/hash.c:179-199 | takes exactly one node off what is left, and stays at the end |
| `HashTable.Visit` | MP5/src/hash.c:162-199 | an iteration from start to end visits every node once, in bucket order, and stops |
| `PortRegistry.PortsStayDistinct` | MP5/src/port_register.c:109-155 | in every run: recorded ports are distinct, in 2501..3012 and reserved; no booking returns a port that a record holds |
| `PortRegistry.RunKeepsInv` | MP5/src/port_register.c:109-273 | the invariant holds over bookings, lookups and cleaning passes |
| `PortRegistry.CleanedExact` | MP5/src/port_register.c:252-271 | a record survives a pass if and only if its own port and that of the first record of its bucket are in use |
| `PortRegistry.BookingExact` | MP5/src/port_register.c:109-136 | a booking fails exactly when all ports are reserved or there is no room for a new record; otherwise its port was free, is the only one reserved by it, and is what a lookup finds afterwards, a renewed record included; other names are found as before |
| `PortRegistry.WebIsStable` | MP5/src/port_register.c:149-155 | asking for a port again gives the same port and changes nothing |
| `PortRegistry.ShareBucket` | MP5/src/hash.c:19-24 | two names share a bucket, and so the fate of its first record, exactly when their codes differ by a multiple of 100 |
| `PortRegistry.Registry.constructor` | MP5/src/port_register.c:44-57 | starts with no record and the ports in use reserved |
| `PortRegistry.Registry.GetNextPort` | MP5/src/port_register.c:165-174 | reserves the lowest free port, or there is none |
| `PortRegistry.Registry.BookPort` | MP5/src/port_register.c:109-136 | a step of the registry: heap table and array still agree; a recorded code gets a new port and its old one stays reserved |
| `PortRegistry.Registry.GetPort` | MP5/src/port_register.c:138-147 | the recorded port, -1 when there is none |
| `PortRegistry.Registry.WebPort` | MP5/src/port_register.c:149-155 | a lookup, and a booking only if that fails |
| `PortRegistry.Registry.CheckReserve` | MP5/src/port_register.c:222-243 | afterwards exactly the ports in use are reserved |
| `PortRegistry.Registry.Drop` | MP5/src/port_register.c:261-265 | deleting during the walk finds nothing once the bucket is gone, and the walk can go on along nodes that left the table |
| `PortRegistry.Registry.CleanBucket` | MP5/src/port_register.c:252-271 | the walk over one bucket, heap links included, leaves exactly the surviving records |
| `PortRegistry.Registry.CleanPortReserve` | MP5/src/port_register.c:245-273 | after a pass the reserved ports are the ports in use, and every record left has a port in use |
| `LoserClasses.ReportsItsClass` | MP1/main.c:335-367 | with unique old names each file is in exactly one of unchanged, modified, copied from the first match, new, and the loop reports exactly that |
| `LoserClasses.ClassExists` | MP1/main.c:335-367 | there is always such a class |
| `LoserClasses.ClassifyExact` | MP1/main.c:335-367 | with unique old names the three lists are complete and in the order of the files: every new file, every modified file, every copy with the first old file of its digest, and nothing else |
| `LoserClasses.ListsUnique` | MP1/main.c:335-367 | this settles the three lists |
| `LoserClasses.NothingExact` | MP1/main.c:368 | nothing is reported if and only if every file is unchanged |
| `LoserResults.StatusLists` | MP1/main.c:91-167 | on the record of any history, what `status` reports are these lists against the last commit |
| `LoserResults.ShowStatus` | MP1/main.c:161-166 | its output, line by line |
| `LoserResults.CommitLists` | MP1/main.c:189-388 | the first commit lists every file as new; a later one changes nothing if and only if every file is unchanged, and otherwise appends one entry with these lists |
| `LoserResults.HistoryLayout` | MP1/main.c:368-388 | the record, line by line: its entries in order, with an empty line between two of them |
| `LoserResults.EntryLayout` | MP1/main.c:368-388 | the text of an entry, line by line: number, the three lists under their headings, and the digests |
| `LoserLoops.MarkOld` | MP1/main.c:321-334 | marks exactly the files whose name occurs in the last commit |
| `LoserLoops.JudgeFile` | MP1/main.c:337-366 | the inner loop, with its early exit and its single copy, for any list of old files |
| `LoserLoops.ClassifyFiles` | MP1/main.c:335-367 | the loops of `commit` and `status` collect the reports in the order of the files |
| `LoserLog.ReadsLastFiles` | MP1/main.c:291-305 | the backward scan for a parenthesis finds the list of the last commit, which is read back whole, from either starting offset |
| `LoserLog.LastNumberCounts` | MP1/main.c:306-319 | the backward scan for a hash sign reads the number of commits so far |
| `LoserLog.ReadsList` | MP1/main.c:108-111 | reading pairs of words gives back exactly the names and digests written |
| `LoserCommands.CommitAppends` | MP1/main.c:173-393 | for every history, committing on its text gives the text of the extended history, or leaves it alone when there is nothing to report |
| `LoserCommands.NumbersRun` | MP1/main.c:368-371 | over any run of commits the entries are numbered 1, 2, 3 and so on |
| `LoserCommands.StatusAfterCommit` | MP1/main.c:91-167 | `status` right after `commit` reports nothing |
| `LoserCommands.LogPrintsNewest` | MP1/main.c:421-453 | `log k` prints the newest min(k, n) entries whole, newest first, with empty lines between them |
| `LoserCommands.ShowsEntry` | MP1/main.c:438-452 | from its hash sign on, exactly one entry is printed, whatever follows it in the file |
| `LoserCommands.SeekBack` | MP1/main.c:292-302 | the last occurrence at or before a position |
| `LoserCommands.ReadOld` | MP1/main.c:305 | the pairs of words up to the end of the file |
| `LoserCommands.Status` | MP1/main.c:91-167 | on the record of any history, the changes against its last commit |
| `LoserCommands.Commit` | MP1/main.c:189-388 | on the record of any history, the new text of the record |
| `LoserCommands.LogLoser` | MP1/main.c:421-453 | on the record of any history, what is printed |

## Left out

- Floating point beyond what the two entries on numbers below say, and locale decimal points.
- Raw items, reference items, constant keys and NULL strings in trees, and the trivial constructors and type tests.
- Custom allocation hooks and the manual path of `ensure` that copies by hand; the model grows by `realloc` only.
- Unterminated comments and strings in `cJSON_Minify`, where the code runs past the terminator.
- Where in a rejected text the error is reported is said by the parse functions and, for string literals, by
  `JsonLiteral`; the grammar says only which texts are rejected.
- `JsonParser.Parser.ParseNumberItem`: the value is the exact decimal; the rounding of `strtod` to a double and the
  saturation of `valueint` are not modelled.
- `PrintBuffer.PrintBuffer.PrintNumber`: integers of absolute value below 10^15 only, where `%1.15g` prints the plain
  decimal; fractions, exponents, NaN and infinity are not modelled.
- `PortRegistry.Registry.WebPort`: the result is the port number before `htonl`.
- `Odometer.SearchLengths`: a message of the boss ends the search at any time; it appears only as the bound on the
  lengths searched.
- `JsonParser.Parser.ParseArrayItem`: the `next` and `prev` wiring while parsing is modelled as a list of nodes with
  block addresses; the links themselves are the subject of `ItemList`. The same holds for objects, for `cJSON_Delete`
  and for `cJSON_Duplicate`.
- `Compare.CompareMembers`: keys are compared by ASCII case folding, and items without a key are not modelled.
- The C call stack: recursion over very deep trees is assumed to have room.
- `Mining.OnlyGenuineTreasures`: one session with whole messages on reliable pipes; configuration, the name handshake,
  dump, printing, quit and restart are not modelled. A miner may offer any suffix that passes; which ones it tries is
  the subject of `Odometer`.
- The inner workings of MD5, and its collision resistance, which no claim needs.
- Real mutex ownership (a control lock is released by another thread than the one that took it), signals, `select`
  timing and errors, daemonising.
- `ServerExclusion.OneWorkerAtATime`: reading or replacing a connection's entry is one atomic step. Reading a NULL entry
  in `choose_thread` would end the run; it is shown not to happen in runs without the two kinds of steps, other runs end
  there without a further state.
- The file synchronisation bodies of client and server in MP2 and MP5, and the MP2 copies of the table and registry.
- `get_from_hash_by_path`, `clean_hash` and `destroy_hash`.
- `PortRegistry.Registry.BookPort`: a name is represented by its hash code, so names with equal codes are one record;
  `get_hash_code`, `htonl` and the socket protocol are not modelled.
- `PortRegistry.Registry.CleanPortReserve`: the set of ports in use is fixed during one pass.
- `LoserCommands.Commit`: records are those the program writes itself, all files are readable, and names have no
  blanks, parentheses closing, or hash signs, as the backward scans need. C arrays sized by the current directory are
  unbounded sequences, the directory listing arrives sorted, and 32-bit overflow of the commit number is not modelled.
- Aliases in `.loser_config` and the parsing of command-line numbers.
