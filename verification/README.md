# Reading journals through the data plane gateway: a verified model

The gateway exposes Gazette journals over REST and gRPC. This project models three parts of it and
proves what they are for.

**The journal read pipeline of the TypeScript client.** `JournalClient.read` turns an HTTP body into
read responses: streaming UTF-8 decode, `splitStream("\n")`, `JSON.parse` per line, `.result`.
`parseJournalDocuments` turns read responses into documents: base64 `content`, bytes, text,
`splitStream("\n")`, `JSON.parse` per line. The reader may start at any byte offset and the chunks
may be cut anywhere. The main result, `JournalWindow.WindowTheorem`, says what comes out, for every
journal of JSON objects, every byte window and every chunking: exactly one document for each record
that lies wholly inside the window, in order, and nothing else. Each is parsed from the record's line
as the cuts damage it, which `DecodeDamage.Damaged` spells out, and has the shape of that record's own
document: at most characters outside ASCII in its strings and keys differ. What comes out is
exactly the documents of those records **if and only if** no chunk that starts strictly inside one of
them starts with a continuation byte (a scalar was split) or with the bytes EF BB BF (a fresh
`TextDecoder` takes them for a byte order mark). Cuts in the record the window starts in, or in the
one it ends in, do no harm. Here documents are compared as parsed, all members in order. JavaScript
merges members of the same name; in that coarser view the condition is still exact for documents
that do not repeat a key, which the theorem states too, and
`JournalExamples.RepeatedKeyHidesDamage` shows why a repeated key must be excepted.
`JournalWindow.DamageIsLocal` sharpens the theorem: each record is judged on its own.
`JournalReads.EndToEnd` and `JournalReads.ReadDocuments` put both pipelines and the collector in a
row, starting from the chunks of any HTTP body, and cover bodies that fail and frames that throw.

The argument has these layers:

| file | content |
|---|---|
| `Units.dfy` | bytes, scalar values, UTF-16 code units; the ASCII skeleton and the damage weight of a text |
| `Utf8.dfy`, `Utf8Replacement.dfy` | UTF-8 (RFC 3629, section 3) and the WHATWG decoder with replacement and byte order mark; which bytes a replacement character stands for |
| `ChunkedDecode.dfy`, `DecodeDamage.dfy`, `Blur.dfy` | a fresh decoder per chunk as one reader with cuts; which cuts do damage, that damage only ever adds U+FFFD or removes U+FEFF, and that it stays outside ASCII |
| `Base64.dfy` | base64 (RFC 4648, section 4) and `atob` |
| `Json.dfy`, `JsonGrammar.dfy`, `JsonPrint.dfy` | `JSON.parse` as a parser; that it accepts exactly the grammar of RFC 8259, sections 2 to 7, given as concrete syntax trees; and its inverse on compact prints |
| `JsonScan.dfy`, `JsonResync.dfy` | a scanner of strings, escapes and depth; an object text cut at its front never parses; damage outside ASCII always shows in the parsed value |
| `JsonDamage.dfy`, `JsonMerge.dfy` | a text damaged outside ASCII still parses, to a value of the same shape; when the damage shows to JavaScript, which merges repeated keys |
| `SplitStream.dfy`, `Streams.dfy` | the transform streams as classes and methods, and `readStreamToEnd` |
| `JournalClient.dfy`, `JournalWindow.dfy`, `JournalReads.dfy`, `JournalExamples.dfy` | the pipelines, their theorems, and inputs on which they disappoint |
| `Runs.dfy`, `Relay.dfy`, `AppendRelay.dfy` | runs of step machines, and the gRPC relays of the Go gateway as such |
| `Labels.dfy`, `LabelOrder.dfy`, `Selector.dfy` | `sortBy`, selectors, and the order of label sets |

**The gRPC stream relays of the Go gateway.** `List`, `Read` and `Append` of `JournalProxy` are step
machines whose environment may end or fail either stream at any point; safety holds in every state
of every run, and the loops are proved to follow the machines and to return what the two streams
determine.

**Canonical label sets.** `sortBy` is a total preorder on records whose listed fields are ordered, and
`toLabelSet`, which sorts with it, gives the one sorted permutation of the labels pushed so far.

Text is a sequence of UTF-16 code units, as in JavaScript, so `\u` escapes and surrogate pairs are
what they are there. Each transform stream is a sequential transducer from input chunks to enqueued
chunks; an exception in it ends its stream as failed, after what it had enqueued. In the relays the
environment is universally quantified: a stream that is received from is a list of messages and the
error it then reports, a stream that is sent to is a function from the number of a send to its
outcome.

Where the code and its documentation differ, the model follows the code:

- `flush` of `splitStream` is documented to try once more to split lines (client/src/streams.ts:18-25).
  It can never enqueue anything: `SplitStream.Splitter.Flush`.
- A label set must hold unique labels (client/src/gen/broker/protocol/broker.ts:435), but `toLabelSet`
  keeps repeated ones: `Labels.ContractMet` gives the exact condition, `Labels.RepeatedLabel` an input.
- It must be sorted over name and value, too. Go orders strings by bytes, `toLabelSet` by code units:
  `LabelOrder.SortedBytewise` gives the exact condition, `LabelOrder.NotBytewise` a label set.
- `readStreamToEnd` is documented to read a stream fully (client/src/streams.ts:73), but stops at the first
  falsy value: `Streams.CollectedPrefix` gives the exact condition, `JournalExamples.NullStopsCollector`
  an input.
- `parseJournalDocuments` alters documents whose text a response cuts inside a scalar:
  `JournalExamples.SplitScalarAltersDocument` is an input and what it turns into,
  `JournalWindow.WindowTheorem` the exact condition.

## Model

| member | source | states |
|---|---|---|
| JournalWindow.WindowTheorem | client/src/journal_client.ts:69-76 | for every journal of object records, byte window and sequence of read responses that carries it, the documents delivered are those of the damaged lines of the records inside the window, one each and in order; each is blurred at most outside ASCII in strings and keys; they are exactly those records' documents if and only if no chunk that starts strictly inside one of them splits a scalar or starts with EF BB BF; the same holds of documents as JavaScript sees them, unless one repeats a key; the stream fails if and only if a response throws or the responses fail |
| JournalWindow.CarriedWindow | client/src/journal_client.ts:69-76 | the same for responses as a broker sends them: objects whose last member named "content" is the padded base64 of a chunk, whatever their other members, or that have no such member |
| JournalWindow.WindowFails | client/src/streams.ts:52-71 | the stream of documents fails if and only if the responses do or one of them is `undefined`, `null` or has content that is not base64 |
| JournalWindow.DamageIsLocal | client/src/journal_client.ts:69-76 | the output is the concatenation of one contribution per record: for a record inside the window the one document of its damaged line, its own exactly if it is cut cleanly and else one of the same shape, and nothing for any other record |
| JournalWindow.TruncatedRecord | client/src/streams.ts:35-37 | the line that is left of a record cut at its front gives no document, whatever cuts damage it further |
| JournalWindow.WholeRecord | client/src/streams.ts:29-41 | a record inside the window comes out as its damaged line, which always parses, to its document but for characters outside ASCII, and to exactly its document if and only if no cut inside it is dirty |
| JournalReads.EndToEnd | client/test/journal_client_test.ts:117-124 | any HTTP body, read and then parsed for documents: the window theorem holds across both pipelines for the window that the frames before the first throwing one carry; the stream then fails if there is one or if the body fails |
| JournalReads.ReadDocuments | client/test/journal_client_test.ts:117-124 | read, parse and collect, as methods, for every chunking of any HTTP body: an exception if and only if a frame throws or the body fails, and else the documents of the damaged lines of the records inside the window, their own if and only if it is cut cleanly |
| JournalReads.FramesCarry | client/src/streams.ts:44-63 | parsing, unwrapping and decoding a stream of frames is the one-frame composition applied frame by frame, up to the first that throws in any stage |
| JournalReads.BodyResults | client/src/journal_client.ts:53-57 | for a body of any bytes, the read pipeline delivers the `result` of each newline-terminated frame that parses, in order, up to a frame that throws; a byte order mark at the front is dropped, and an unfinished tail, even inside a scalar, gives nothing |
| JournalReads.BodyFails | client/src/journal_client.ts:53-57 | the stream of results fails if and only if the body does or a complete frame is `null` |
| JournalReads.PrintedResults | client/src/streams.ts:42-50 | a body of frames {"result": v}, one a line and in any chunks, is read as those values |
| JournalReads.ReadWindow | client/test/journal_client_test.ts:117-124 | a body of such frames, whose results have the chunks of a journal window as their content, read and then parsed for documents: the window theorem for those chunks |
| JournalReads.BodyIsLines | client/src/journal_client.ts:53-57 | every body is such frames and an unfinished tail |
| JournalReads.WholeJournal | client/src/journal_client.ts:69-76 | a journal of printed objects read whole gives back as many objects, and exactly its objects if and only if it is cut cleanly |
| JournalExamples.SplitScalarAltersDocument | client/src/streams.ts:61-67 | a concrete journal, cut inside a scalar, and the altered document that comes out: two replacement characters in place of the scalar |
| JournalExamples.RepeatedKeyHidesDamage | client/src/streams.ts:33 | a concrete journal whose document is damaged where a later member of the same name overrides it: altered as parsed, the same to JavaScript |
| JournalExamples.NullStopsCollector | client/src/streams.ts:74-92 | read responses that carry the lines `null` and `{}` deliver both documents, of which the collector returns none |
| JournalReads.PrintedLines | client/src/streams.ts:29-41 | printed values, one a line, come back from splitting and parsing as those values |
| JournalReads.InsideAreObjects | client/src/streams.ts:84 | the documents inside a window are objects, hence truthy to the collector |
| JournalClient.Read | client/src/journal_client.ts:53-57 | the stages run in a row deliver the same results for every chunking of the HTTP body, and those of its complete lines if it fails |
| JournalClient.ParseJournalDocuments | client/src/journal_client.ts:69-76 | the stages run in a row equal the composition of their specifications |
| JournalClient.DocumentsCons | client/src/streams.ts:4-8 | a first line gives its document, if it is one, before those of the rest of the text |
| JsonResync.CutObjectNeverParses | client/src/streams.ts:29-41 | a text that agrees in ASCII with an object text cut after its opening brace never parses, whatever stands between the ASCII characters |
| JsonResync.ProperSuffixNeverParses | client/src/streams.ts:33-38 | no proper suffix of an object text parses, nor one with replacement characters in place of what was cut |
| JsonResync.DamageShows | client/src/streams.ts:32-33 | two texts equal in ASCII that both parse give values whose string weights differ exactly as the texts do |
| JsonDamage.BlurredParses | client/src/streams.ts:32-38 | a text that parses still parses when each character outside ASCII is replaced by any number of others outside ASCII, to a value of the same shape and the same ASCII characters |
| JsonMerge.DamageIsVisible | client/src/streams.ts:33 | a blurred value that looks like the original to JavaScript, with repeated keys merged and key order ignored, has gained no damage, if the original repeats no key |
| JsonMerge.AlikeReads | client/src/streams.ts:47 | two parsed objects are alike in that view if and only if every property read finds alike values, or nothing, in both |
| JsonScan.ScanValue | client/src/streams.ts:33 | every value the parser accepts scans back to the mode and depth it started at and adds exactly the weight of its strings |
| JsonGrammar.ParseComplete | client/src/streams.ts:33 | every text of the JSON grammar, with any white space and any escapes, parses to the value its syntax tree means; the grammar names its characters, its eight one-letter escapes, its hexadecimal digits and its numbers itself |
| JsonGrammar.ParseSound | client/src/streams.ts:33 | whatever parses is a text of the grammar, and the value is what its syntax tree means |
| Json.LookupMeans | client/src/streams.ts:47 | a property read finds the member at the last index that has the name, or nothing exactly if none has it |
| JsonGrammar.NumberGrammar | client/src/streams.ts:33 | the lexemes that the parser reads whole are exactly minus, integer without leading zero, fraction and exponent |
| JsonPrint.ParsePrint | client/src/streams.ts:33 | `JSON.parse` of the compact print of any value is that value |
| JsonPrint.PrintLine | client/src/streams.ts:33 | a print holds no newline, no other control character and no surrogate |
| DecodeDamage.PerChunkIsWhole | client/src/streams.ts:56-67 | decoding well-formed text chunk by chunk equals decoding it whole if and only if no chunk after the first byte starts inside a scalar or with U+FEFF; otherwise the text is heavier, and longer if it holds no U+FEFF |
| DecodeDamage.RunDamaged | client/src/streams.ts:54-69 | what the chunked reader makes of a text, exactly: a scalar cut inside becomes one replacement character for the bytes before its first cut and one for each byte behind, a U+FEFF that opens a chunk is dropped, and all else stays |
| DecodeDamage.PerChunkDamaged | client/src/streams.ts:54-69 | that is what a well-formed text comes out as when it is decoded chunk by chunk |
| DecodeDamage.DamagedText | client/src/streams.ts:66 | a damaged text is the text itself if no cut inside it is dirty, and strictly heavier otherwise |
| DecodeDamage.DamagedBlurs | client/src/streams.ts:66 | whatever the cuts, a damaged text has its ASCII characters in place and anything else replaced by characters outside ASCII |
| ChunkedDecode.RunIsPerChunk | client/src/streams.ts:54-69 | a fresh decoder per chunk is one reader over all bytes that is flushed and replaced at each cut |
| ChunkedDecode.RunAscii | client/src/streams.ts:66 | for any bytes and any cuts, ASCII bytes come out as themselves and nothing else comes out as ASCII |
| Utf8.FeedEncode | client/src/streams.ts:66 | the decoder inverts UTF-8 encoding and ends in its start state |
| Utf8.DecodeEncode | client/src/streams.ts:66 | decoding inverts encoding exactly on texts that do not open with U+FEFF |
| Utf8Replacement.DecodeMark | client/src/streams.ts:66 | decoding drops a leading EF BB BF and nothing else |
| Utf8Replacement.ScalarDecoded | client/src/streams.ts:66 | a scalar at the start of any bytes is decoded, whatever follows it |
| Utf8Replacement.SubpartReplaced | client/src/streams.ts:66 | where no scalar starts, one replacement character stands for the longest prefix that could have started one, or for a single byte, and decoding goes on behind it |
| Utf8.FeedConcat | client/src/journal_client.ts:54 | feeding a decoder two chunks is feeding it their concatenation |
| Base64.AtobEncode | client/src/streams.ts:61 | `atob` inverts padded base64 |
| Base64.AtobMeans | client/src/streams.ts:61 | `atob` returns exactly the bytes whose bits are those of the digits of the alphabet, for a text that is digits with all or none of its padding once white space is removed, and throws on every other text |
| Streams.ContentRoundTrip | client/src/streams.ts:54-68 | in any response whose last member named "content" is the base64 of the UTF-8 of a non-empty text, `decodeContent` emits that text exactly if it does not open with U+FEFF |
| Streams.ContentMeans | client/src/streams.ts:54-61 | what a response carries, by its last member named "content"; `undefined` and `null` throw |
| Streams.NoContent | client/src/streams.ts:56 | a response without such a member carries nothing |
| Streams.CopyUnits | client/src/streams.ts:62-65 | the byte-copy loop loses nothing on what `atob` returns |
| Streams.DecodeContentTransform | client/src/streams.ts:54-69 | enqueues the decoded text of the last member named "content", skips an absent, `null` or empty one, throws on content that is not base64 and on a response that is `undefined` or `null` |
| Streams.RunTextDecoder | client/src/journal_client.ts:54 | incremental decoding gives the text of the whole input for every chunking, cuts inside scalars included; a stream that fails is not flushed |
| Streams.ParseJsonTransform | client/src/streams.ts:31-39 | enqueues a parsed value and skips a chunk that does not parse |
| Streams.UnwrapResultTransform | client/src/streams.ts:44-48 | enqueues the value of the last member named "result", `undefined` for what has none, and throws on `null` |
| Streams.EmittedFails | client/src/streams.ts:42-50 | a stage fails if and only if one of its chunks throws, and has then delivered what the chunks before the first such one give |
| Streams.ReadStreamToEnd | client/src/streams.ts:74-92 | the collecting loop computes `Collected` of the stream |
| Streams.CollectedPrefix | client/src/streams.ts:74-92 | that is the longest prefix without a falsy value, so everything if and only if no value is falsy and the stream does not fail; it throws if and only if the stream fails without a falsy value before |
| Streams.FalsyValues | client/src/streams.ts:84 | the falsy values are `null`, `false`, the empty string and numbers that denote zero |
| SplitStream.SplitAppend | client/src/streams.ts:4-16 | splitting the buffer together with the next chunk continues the split of everything received, for every non-empty delimiter |
| SplitStream.Conservation | client/src/streams.ts:4-8 | parts with their delimiters and the rest make up the input, and neither parts nor rest hold the delimiter |
| SplitStream.SplitUnique | client/src/streams.ts:5 | any such cut of a text at first occurrences is the one that is made |
| SplitStream.Splitter.Transform | client/src/streams.ts:13-16 | enqueues exactly the lines that the chunk completes and keeps the unterminated end of everything received |
| SplitStream.Splitter.Flush | client/src/streams.ts:21-25 | enqueues nothing and leaves the buffer alone |
| SplitStream.RunSplitter | client/src/streams.ts:1-27 | for every chunking of an input, the lines of the whole input |
| Relay.CopySafety | journal_server.go:37-46 | in every state of every run, what was delivered is a prefix of what was produced, at most one behind; nil is returned exactly when the upstream ended with EOF, with everything delivered |
| Relay.CopyMonotone | journal_server.go:61-70 | nothing produced or delivered is ever taken back |
| Relay.Copy | journal_server.go:53-71 | the loop follows the machine; what it delivers and returns is settled by the first failing send and the end of the upstream |
| AppendRelay.Safety | journal_server.go:76-102 | in every state of every run, what was forwarded is a prefix of what was received, at most one request behind, and once anything is forwarded the claims allow appending and hold one label, "name" with the journal of the first request |
| AppendRelay.Monotone | journal_server.go:81-102 | the claims, once made, never change, and no trace is taken back |
| AppendRelay.Completion | journal_server.go:103-108 | an answer is only attempted after the client ended its stream, with every request forwarded once, the upstream closed once, and it is the upstream's response; nil is only returned after that |
| AppendRelay.RunLength | journal_server.go:94-102 | a run in which the client sends n requests has at most 2n + 5 states |
| AppendRelay.Forward | journal_server.go:94-102 | the forwarding loop follows the machine and ends with the first failing send, else as the client's stream ends |
| AppendRelay.Append | journal_server.go:73-109 | the method follows the machine, leaves the two streams as the last state of a run says, opens the upstream with claims that name the first request's journal even if it is then refused, and returns the first error that occurs, else how the answer went |
| AppendRelay.AppendOutcome | journal_server.go:73-109 | what a caller gets: nil means answered, and answered means all requests upstream, claims that name the first one's journal, one close and the upstream's response |
| Labels.SortBy | client/src/util.ts:72-89 | the comparator loop is the comparison of the tuples of the listed fields, for any type of records, fields and values and any `<` |
| Labels.TuplesLexicographic | client/src/util.ts:72-89 | on ordered values, that comparison is negative exactly if the first field whose values differ has the smaller one, and zero exactly on equal tuples |
| Labels.TuplesPreorder | client/src/util.ts:72-89 | on ordered values, that comparison is zero exactly on equal tuples, antisymmetric in sign and transitive |
| Labels.CompareMeans | client/src/util.ts:77-80 | `<` on strings: a proper prefix comes first, and else the first code unit that differs decides |
| Labels.ComparatorMeans | client/src/selector.ts:12 | the comparator puts a label first exactly if its name comes first or, on equal names, its value |
| Labels.SortLabels | client/src/selector.ts:11-14 | sorting with the comparator gives a permutation of the labels in which no label stands before one whose name, or on equal names value, comes first |
| Labels.SortedUnique | client/src/selector.ts:11-14 | two sorted permutations of the same labels are equal |
| Labels.Canonical | client/src/selector.ts:11-14 | two lists of labels give equal label sets if and only if they hold the same labels equally often |
| Labels.ContractMet | client/src/gen/broker/protocol/broker.ts:435 | the label set is strictly sorted if and only if the pushed labels are distinct |
| Labels.RepeatedLabel | client/src/gen/broker/protocol/broker.ts:435 | a label pushed twice breaks the broker's contract |
| LabelOrder.ByteOrder | client/src/util.ts:77-80 | the byte order of UTF-8 encodings is code-point order, for all texts |
| LabelOrder.UnitOrder | client/src/util.ts:77-80 | the code-unit order of the comparator is code-point order, and its opposite on two texts that first differ in a supplementary scalar against one from U+E000 to U+FFFF, so they agree if and only if the texts do not |
| LabelOrder.OrdersDisagree | client/src/util.ts:77-80 | U+FFFF and U+10000 are ordered differently |
| LabelOrder.SortedBytewise | client/src/selector.ts:11-14 | a label set of well-formed strings is sorted byte-wise over its encoded names and values if and only if no two of its labels first differ in such a pair |
| LabelOrder.WellFormedTexts | client/src/util.ts:77-80 | the strings that count as well-formed are exactly those that hold a sequence of scalar values |
| LabelOrder.NotBytewise | client/src/gen/broker/protocol/broker.ts:435 | a label set without repeated labels that is sorted by code units and not byte-wise |
| Selector.LabelSelector.ToLabelSet | client/src/selector.ts:11-14 | returns a sorted permutation of the stored labels, made with the comparator, and leaves the stored labels alone |
| Selector.LabelSelector.Prefix | client/src/selector.ts:29-36 | a fresh selector with one prefix label that ends in a slash, added only if it was missing |
| Selector.Script | client/src/selector.ts:4-49 | for any interleaving of builder and `toLabelSet` calls, on a new selector or one that `prefix` or earlier calls filled, each set is the sorted form of the labels stored by then and the stored labels keep push order |
| Selector.SameLabelsSameSet | client/src/selector.ts:4-49 | two label sets returned in any two such interleavings are equal if and only if the same labels were stored by then, equally often |

## Left out

- HTTP: `doFetch`, status handling, `ResponseError`, and the `list` and `stat` clients, which add no streaming behaviour.
- The gateway's wiring in `main.go`, TLS, CORS and signal handling, and the unary calls that only delegate.
- `PassThroughAuthorizer` and the dispatch defaults of a call's context: the model keeps only the claims that `Append` adds to it.
- A panic of `MustLabelSet`, with which `Append` builds the claims: the model assumes that it returns the one label.
- Authorization rules and label matching, which are implemented in Gazette and Flow and are not part of this model.
- Back-pressure, promise scheduling and cancellation of Web Streams; chunks that a failing stream had enqueued count as delivered.
- The numeric value of JSON numbers: lexemes are kept. Parsed objects keep all members in order; a property read takes the last, and `JsonMerge.Alike` compares values as JavaScript merges them.
- The recursion limit of `JSON.parse`: the model parses any depth.
- An empty delimiter of `splitStream`, on which `String.prototype.split` behaves differently; the only callers pass a newline.
- Fields of a read response other than `content`, and a `content` that is an array or an object, which its type excludes: the model skips it, where `atob` may be given its string form.
- Labels with a surrogate that lacks its partner, in the byte order of label sets: such a string has no UTF-8 form.
- Comparing records with undefined fields by `sortBy`; the labels that selectors build always have both fields.
- The two selector classes of the source are one class here, since they differ only in which builders they offer; the builders return nothing instead of the selector itself.
- `trimUrl` and `Result`, which are single branches.
