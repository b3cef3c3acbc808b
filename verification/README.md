# webserv, modelled and verified in Dafny

webserv is a small HTTP/1.1 server: a `select` loop over several listening sockets, one
state machine per connection, and hand-written index-based parsers.  This project models that
engine and proves what it does on every input and over every run.  A second part does the same
for the inline data structures of the PHP 7.4 headers that are checked in under
`www/cgi-bin/php/include`.

## What is modelled

| file | subject |
|---|---|
| `Text.dfy` | `std::string` search, slices, trimming, decimal numbers, `atoi` |
| `Headers.dfy`, `Request.dfy`, `Chunked.dfy` | `Request::parse`: request line, header block, chunked decoding |
| `Response.dfy`, `Streaming.dfy`, `Cgi.dfy` | printing responses, streaming a file behind a head, CGI output |
| `Sockets.dfy`, `Connection.dfy` | one client: the IDLE / WRITING_RESPONSE machine, over any sequence of reads and writes |
| `Framing.dfy`, `Fragmentation.dfy` | what the completion test waits for; where `recv` cuts a request makes no difference |
| `ChunkedStream.dfy`, `CutStream.dfy` | chunked requests: exactly when that holds for them, and what happens to every delivery when it does not |
| `Server.dfy`, `ServerGroup.dfy` | the client table of a server, the loop over all servers, the descriptor sets |
| `Config.dfy`, `ConfigParser.dfy`, `ConfigRoundTrip.dfy`, `ConfigLines.dfy` | the configuration language, its line-cursor parser, print and parse, and lines that no printed configuration has |
| `Routing.dfy` | choosing a location |
| `Upload.dfy` | percent decoding, multipart bodies, storing an upload |
| `Arena.dfy`, `Bitset.dfy`, `HashChain.dfy`, `Search.dfy`, `Decimal.dfy` | the arena allocator, word-array bitset, collision chains, substring search and decimal printer of the Zend headers |

Bytes are characters with codes below 256.  `npos` is -1, and a `size_t` that wrapped below
zero is kept as that negative number, which is past the end of every string; where an addition
can wrap upwards, as in the chunk bound check and in the completion test, the wrap is written
out.  Sockets are nondeterministic: a run is any sequence of received pieces, accepted byte
counts, refusals and errors.  `Connection.dfy` says what one event does to one client; the
classes of `Server.dfy` and `ServerGroup.dfy` do it in place and are proved to do exactly that.
Words of the bitset are `bv64`, and a shift by a variable amount is that many shifts by one.

## Where the code does something else than its documentation, or fails

* A chunked request is taken for complete when the bytes CRLF `0` CRLF CRLF are seen anywhere, and
  also, when it carries a Content-Length as well, with that number of bytes.
  `ChunkedStreams.ChunkedStream` says for every chunked request, with a Content-Length or without,
  exactly when that is its end; `ChunkedStreams.AsksForAllExactly` spells out which lengths do no
  harm.  Otherwise, once it looks complete, where a piece ends decides (`CutStreams.PrefixOutcome`): a
  piece that ends inside a size line or a chunk is rejected, a piece that ends between two chunks
  is dispatched with the chunks that are whole by then, and a head that ends in a line `0`, or
  announces a length of 0, is dispatched without a body (`CutStreams.HeadAlone`,
  `CutStreams.ExampleLength`).  Rejections are silent; what they leave in the buffer goes out in
  place of the reply to the request that is dispatched later (`CutStreams.StaleRejection`).
  `CutStreams.ExampleCut` is one such request.
* The completion test reads the request line as a header line when it contains ": ", the parser
  does not.  `Fragmentation.CompletionUnaffected` says for every head exactly when that makes no
  difference, and `Fragmentation.OddLineDelays` gives a request line, `Content-Length: 5 x`, where
  it does: the request waits for five bytes that are then dropped.  With such a request line and
  header lines that give no header, every piece that completes the request is rejected
  (`Fragmentation.HeaderlessBlockRejected`).  With such a request line alone, the parser takes the
  bytes behind the blank line for the header block (`Fragmentation.LoneLine`): `GET /a: HTTP/1.1`
  and a blank line are rejected, and with `Host: a` behind them in the same piece they are
  dispatched with that header (`Fragmentation.LoneLineExample`).
* `atoi` cuts a Content-Length to an int.  A body behind its printed length is complete with its
  last byte if and only if the length is below 2^31 (`Fragmentation.PrintedLengthExactly`).
* A request whose lines give no header at all is never dispatched
  (`Fragmentation.NoHeadersNeverDispatched`); for a request without a body,
  `Fragmentation.BodylessExactly` says exactly which are.
* Reading the configuration loops for ever on a top-level `cgi {` line before the first mention of
  `server`, and only then (`Configs.StuckExactly`, `Configs.StuckForever`).
* Location patterns are literal suffixes.  `location ~ \.(php|py)$ {`, as in `config/default.conf`,
  gives the path `~` alone, which matches nothing (`Routing.SpacedPatternNeverMatches`); without the
  space it would ask for paths that end in `\.(php|py)` as written
  (`Routing.TightPatternExactly`, `Routing.PhpPatternMatchesNoScript`).
* A boundary may not hold `Content-Disposition:` with `filename="` behind it, and a field name may
  not end in `filename=`: for a boundary without line ends and a field name without quotes, every
  part is read back if and only if neither is the case (`Uploads.MultipartExactly`).
  `Uploads.BreakingDelimiter` is such a boundary, and under every other boundary the name
  `filename=` makes the parser read " filename" for any file name (`Uploads.BreakingName`).
* A second cookie can overwrite a header that is named like its key (`Streaming.CookieLost`), and
  only such a header (`Streaming.CookieKeptExactly`, `Streaming.CookiesNeverLost`).
* `error_page` takes its second word for the page: `error_page 500 502 503 504 /errors/50x.html`, as in
  `config/default.conf`, gives code 500 the page `502` (`ConfigLines.SeveralCodes`).  In a location, space
  in front of a semicolon stays on the value (`ConfigLines.SpaceBeforeSemicolon`).
* The repository's README shows a `methods` directive; the code knows only `allowed_methods`, and
  the model follows the code.
* A streamed file is exact if and only if no send fell short (`Streaming.EndedExactly`): bytes
  that a send did not take are not offered again.  A transfer that was given up or fell short ends
  like any other, with the client IDLE and, with keep-alive, the connection open
  (`Connections.FileLeavesExactly`).
* CGI output is taken apart by the first read of 8192 bytes that shows a block end, and positions in
  that read are taken for positions in the file (`Cgi.ScanExactly`).  Behind a head
  that CRLFCRLF ends, body and length are right exactly when it ends within the first read
  (`Cgi.HeadFoundExactly`); a later head is found in the wrong place (`Cgi.LateHeadMisplaced`) or,
  when it straddles two reads, not at all (`Cgi.StraddlingHeadLost`).  Behind a head that two line
  feeds end, the first read must moreover not show CRLFCRLF, which is preferred
  (`Cgi.LineFeedHeadFoundExactly`, `Cgi.LineFeedHeadMisplaced`).
* The predecessor walk in the hash deletion macro is never entered on tables built by appends and
  reverse deletion alone, because the bucket to delete is then the head of its chain
  (`HashChains.HashTable.Unlink`); it is proved right for chains in any order.

## Model

| member | source | states |
|---|---|---|
| Text.FindStable | srcs/server/Server.cpp:94 | the first occurrence does not move when bytes are appended |
| Text.FindInPrefix | srcs/server/Server.cpp:94 | a prefix shows the same first occurrence, once it fits, and none before |
| Text.AtoiOfDec | srcs/utils/Utils.cpp:31-35 | `atoi` undoes decimal printing on every int |
| Text.AtoiExactly | srcs/utils/Utils.cpp:31-35 | `atoi` skips leading space, takes one sign, reads digits up to the first other character, and cuts the value to an int |
| Text.TrimPadded | srcs/http/Request.cpp:145-152 | trimming takes off exactly the blanks around a text |
| Headers.EntriesAppend | srcs/http/Request.cpp:110-143 | a block read line by line: the headers of its parts, cut at any line feed |
| Headers.EntriesSkip | srcs/http/Request.cpp:110-143 | text without ": " contributes no header, however many lines it is |
| Headers.PrintRoundTrip | srcs/http/Request.cpp:110-143 | reading a printed list of headers gives the list back, in order |
| Headers.PaddedEntry | srcs/http/Request.cpp:126-137 | blanks around a name and around its value are not part of them; a line without a name gives nothing |
| Headers.PrintHasNoBlankLine | srcs/http/Response.cpp:60-76 | the first blank line of a printed head is its end |
| Requests.Request.ReadLine | srcs/http/Request.cpp:118-139 | one line gives no header or one trimmed name and value |
| Requests.Request.ParseHeaders | srcs/http/Request.cpp:110-143 | stores every header of the block over those already there; true iff there was one |
| Requests.Request.ParseRequestLine | srcs/http/Request.cpp:85-108 | method, path, query and version around the first and last space; fails without two spaces |
| Requests.Request.Parse | srcs/http/Request.cpp:42-83 | the request that the bytes denote, with the headers of its block, or failure exactly where one of the parts fails |
| Requests.SplitsExactly | srcs/http/Request.cpp:85-93 | a request line splits iff it has two spaces |
| Requests.SplitPlainLine | srcs/http/Request.cpp:85-108 | method before the first space, version behind the last, everything between is the path |
| Requests.SplitQueryLine | srcs/http/Request.cpp:95-104 | path and query are parted at the first question mark |
| Requests.ParsedCarries | srcs/http/Request.cpp:42-83 | every request that parses keeps every header of its block, except that a body taken replaces Content-Length by its own length and a decoded one removes Transfer-Encoding |
| Chunked.UnchunkData | srcs/http/Request.cpp:201-240 | terminates, and returns the decoded data or fails, also where the 64-bit bound check wraps around |
| Chunked.ReadSize | srcs/http/Request.cpp:214-225 | the announced size: the leading hex digits in 64-bit arithmetic |
| Chunked.SizeLineRoundTrip | srcs/http/Request.cpp:213-225 | a size line denotes its hexadecimal value in either case, with or without an extension |
| Chunked.PrintedSizeRead | srcs/http/Request.cpp:213-225 | every 64-bit size printed with hexadecimal digits of either case, with or without an extension, is read back |
| Chunked.DecodedIsSlices | srcs/http/Request.cpp:201-240 | on every input that decodes: disjoint slices at increasing positions, with 5 bytes of framing per chunk |
| Chunked.ChunkRoundTrip | srcs/http/Request.cpp:201-240 | decoding undoes chunked framing, whatever follows the last chunk |
| Chunked.SpellingIrrelevant | srcs/http/Request.cpp:213-225 | letter case and chunk extensions do not change what is decoded |
| Responses.HeadEntriesDistinct | srcs/http/Response.cpp:60-77 | Content-Length is printed first and once, every other header once |
| Responses.ResponseRoundTrip | srcs/http/Response.cpp:60-77 | parsing a printed response gives its header map with Content-Length set to the body length, and its body |
| Responses.GoodPhrases | srcs/http/Response.cpp:81-89 | the phrases of 200 to 304, letter by letter |
| Responses.RefusalPhrases | srcs/http/Response.cpp:92-98 | the phrases of 400 to 415 |
| Responses.FailurePhrases | srcs/http/Response.cpp:101-104 | the phrases of 500 to 503 |
| Responses.PhrasesDiffer | srcs/http/Response.cpp:79-108 | no other code shares a listed code's phrase; all others are "Unknown" |
| Responses.TextStatus | srcs/http/Response.cpp:60-63 | every printed response starts with the version, its code as `atoi` reads it between the first two spaces, and the phrase up to the first line end |
| Responses.StreamStatus | srcs/http/Response.cpp:260-261 | so does every head in front of a file |
| Streaming.Response.ToString | srcs/http/Response.cpp:60-77 | both passes over the header map print exactly the specified text, behind the status line of the code |
| Streaming.CookieKeptExactly | srcs/http/Response.cpp:45-54 | a cookie header takes an entry of its own iff its numbered key is not there yet, as it never is while keys are numbered |
| Streaming.CookiesNeverLost | srcs/http/Response.cpp:45-54 | over any sequence of added headers, none named like a cookie key, no cookie is overwritten |
| Streaming.CookieLost | srcs/http/Response.cpp:45-54 | a header named like the next cookie key is overwritten by that cookie |
| Streaming.SecondPassEmpty | srcs/http/Response.cpp:71-73 | addHeader never stores Set-Cookie itself, so the second pass of toString prints nothing |
| Streaming.AddedHeader | srcs/http/Response.cpp:45-54 | a header with a name is stored as it is, one whose name is empty or holds a line end is not |
| Streaming.NamesStayClean | srcs/http/Response.cpp:45-54 | over any sequence of added headers no stored name is empty or holds a line end |
| Cgi.StatusStaysValid | srcs/http/Response.cpp:35-38 | whatever a script prints, the status stays between 100 and 599 |
| Responses.BodyAnnounced | srcs/http/Response.cpp:40-58 | after setBody the header map is read back as it is, and the length it announces is the length of the body that follows |
| Streaming.Response.PrintStreamHead | srcs/http/Response.cpp:260-273 | the status line of the code, all headers, then the cookies, then the blank line |
| Streaming.StreamHeadRoundTrip | srcs/http/Response.cpp:260-273 | read back, in front of any file: the head ends at its first blank line and gives every header and then every cookie in order |
| Streaming.Response.WriteNextChunk | srcs/http/Response.cpp:200-241 | one call is one step of the stream machine: what goes on the wire, the new position, whether to go on |
| Streaming.ExactIffLossless | srcs/http/Response.cpp:200-241 | a finished transfer delivered exactly head and file iff no send fell short |
| Streaming.EndedExactly | srcs/http/Response.cpp:200-241 | of the transfers that ended, finished or given up, exactly the finished lossless ones delivered everything |
| Streaming.TakenTransferFinishes | srcs/http/Response.cpp:200-241 | with sends that take everything the loop ends, after the number of pieces and one |
| Streaming.EndsExactly | srcs/http/Response.cpp:200-241 | a call answers false iff nothing is being streamed, the head or the piece is refused, or the file has no byte left |
| Streaming.BlockedHeadRepeats | srcs/http/Response.cpp:209-213 | a call whose head would block makes no difference to the transfer |
| Streaming.BlockedTransferFinishes | srcs/http/Response.cpp:200-241 | after any number of those, sends that take everything deliver exactly head and file |
| Cgi.ApplyHeaders | srcs/handlers/CGIHandler.cpp:202-228 | the lines of the block set status and headers one by one |
| Cgi.ParseCgiOutput | srcs/handlers/CGIHandler.cpp:180-240 | status, headers, declared length and file position, or failure when no block end is found |
| Cgi.BodyFound | srcs/handlers/CGIHandler.cpp:190-237 | a head that ends in the first read: Content-Length is the length of the body, and the file stands at its start |
| Cgi.ScanExactly | srcs/handlers/CGIHandler.cpp:188-237 | the answer comes from the first read that shows a block end, with positions in that read; without one there is none |
| Cgi.HeadFoundExactly | srcs/handlers/CGIHandler.cpp:188-237 | behind a head ended by CRLFCRLF, position and length are those of the body iff it ends within the first read |
| Cgi.LineFeedHeadFoundExactly | srcs/handlers/CGIHandler.cpp:192-202 | behind a head ended by two line feeds, iff it ends within the first read and that read shows no CRLFCRLF |
| Cgi.LineFeedHeadMisplaced | srcs/handlers/CGIHandler.cpp:192-202 | an output whose head ends at byte 6 and whose body is taken to start at 11 |
| Cgi.LateHeadMisplaced | srcs/handlers/CGIHandler.cpp:188-237 | a head of 8192 bytes: its headers are lost and the body is taken to start at byte 4 |
| Cgi.StraddlingHeadLost | srcs/handlers/CGIHandler.cpp:188-237 | a head of 8190 bytes: its blank line straddles two reads and is never found |
| Cgi.ScriptHeadRoundTrip | srcs/handlers/CGIHandler.cpp:202-228 | a printed script head is read as its status and, in order, its headers |
| Cgi.StatusLineExactly | srcs/handlers/CGIHandler.cpp:211-218 | a status line sets the status iff its number is 100 to 599, and nothing otherwise |
| Cgi.PaddedHeaderRead | srcs/handlers/CGIHandler.cpp:208-225 | a header's value starts behind the colon and any blanks, and ends before a final CR |
| Cgi.NoColonIgnored | srcs/handlers/CGIHandler.cpp:219-220 | a line without a colon changes nothing |
| Cgi.EmptyHead | srcs/handlers/CGIHandler.cpp:180-240 | a head that says nothing is a 200 with the Server header alone |
| Cgi.CgiStream | srcs/handlers/CGIHandler.cpp:180-240 | any output in which a block end is found, parsed and streamed: the wire has the printed head and exactly the bytes behind the position found, as many as announced, iff no send fell short |
| Cgi.CgiBodyStream | srcs/handlers/CGIHandler.cpp:180-240 | behind a head that ends in the first read those bytes are the body |
| Connections.StepKeepsClientInv | srcs/server/Server.cpp:80-162 | WRITING_RESPONSE implies an empty request buffer, IDLE implies nothing written, never more written than there is |
| Connections.WireConservation | srcs/server/Server.cpp:192-225 | over every run the wire holds the responses that ended, buffered or streamed, and the accepted part of the current one, nothing lost, repeated or reordered |
| Connections.IdleOnlyAfterWhole | srcs/server/Server.cpp:211-220 | a client with a buffer returns to IDLE exactly when the whole buffer has been accepted |
| Connections.FileLeavesExactly | srcs/server/Server.cpp:199-205 | a client with a file leaves when writeNextChunk answers false; what it sent is complete iff no send fell short, and keep-alive keeps the connection open either way |
| Connections.BlockedHeadWaits | srcs/server/Server.cpp:199-205 | a write whose head would block leaves the client in WRITING_RESPONSE, with nothing sent |
| Connections.ReadClosesExactly | srcs/server/Server.cpp:80-128 | a read ends the connection iff the client is idle and the peer closed, the read failed, or the handler throws on the request it completes |
| Connections.ReadOutcome | srcs/server/Server.cpp:86-162 | every other read: appended, answered with the 400 page, or handed over with the keep-alive its Connection header asks for |
| Connections.WriteClosesExactly | srcs/server/Server.cpp:192-230 | a write ends the connection iff a buffer's send fails or the response ends without keep-alive; else it makes the client idle iff the response ends |
| Connections.ClockExactly | srcs/server/Server.cpp:89-225 | an entry's clock is that of its last received bytes or its last write under way |
| Connections.ResponsesAnswerRequests | srcs/server/Server.cpp:130-230 | with no request rejected, the responses that ended are the replies to the dispatched requests, buffered or streamed, one each and in order |
| Framings.ArrivesExactly | srcs/server/Server.cpp:101-119 | what the completion test waits for after a head: nothing, a number of bytes, or the end marker |
| Framings.FramingDecides | srcs/server/Server.cpp:101-119 | two header maps make it agree on every continuation iff they wait for the same |
| Fragmentation.DetectorAgreesWithParser | srcs/server/Server.cpp:94-99 | the completion test and the parser read the same headers iff the request line has none in it |
| Fragmentation.FramingHeadersAlike | srcs/server/Server.cpp:94-99 | they read the same Content-Length and Transfer-Encoding iff the request line gives neither that the block lacks |
| Fragmentation.CompletionUnaffected | srcs/server/Server.cpp:94-119 | for every head: the request line leaves completion alone on every continuation iff it does not change the framing, or, where no header follows, has none itself |
| Fragmentation.OtherNamesHarmless | srcs/server/Server.cpp:94-119 | it does when a header block follows and the line gives neither framing header that the block lacks |
| Fragmentation.HeaderlessBlockRejected | srcs/server/Server.cpp:94-137 | a request line with a header and lines without: complete as the line's own framing says, and never parsed |
| Fragmentation.LoneLine | srcs/http/Request.cpp:42-70 | a request line alone: complete as its own framing says, and parsed with the bytes after the blank line as header block and as body |
| Fragmentation.LoneLineExample | srcs/http/Request.cpp:42-70 | one such line that is rejected alone and dispatched with a header behind the blank line |
| Fragmentation.OddLineDelays | srcs/server/Server.cpp:94-119 | the request line "Content-Length: 5 x" delays a request without a body by five bytes, which are dropped |
| Fragmentation.PrintedHead | srcs/server/Server.cpp:94-99 | every request line without ": " in front of printed headers is a head the theorems below speak about |
| Fragmentation.ParsedFromHead | srcs/http/Request.cpp:42-83 | whatever follows a head, what is parsed has the fields of its line, the headers of its block, and the body that these ask for |
| Fragmentation.UntilDispatched | srcs/server/Server.cpp:80-137 | for any bytes: until a piece completes a request that parses, the client is idle and silent, whatever was rejected |
| Fragmentation.DispatchedByPiece | srcs/server/Server.cpp:80-150 | that piece dispatches it once; an earlier rejection leaves its page in the buffer |
| Fragmentation.ReplyOrStalePage | srcs/server/Server.cpp:207-225 | what then goes out is the rendered reply, or after a rejection the 400 page and not a byte of the reply |
| Fragmentation.StaysIdle | srcs/server/Server.cpp:80-122 | before the last byte the client is idle, with all received bytes in its buffer and nothing sent |
| Fragmentation.DispatchedOnce | srcs/server/Server.cpp:80-150 | every cutting of one request dispatches it once, by the piece with the last byte, as if it had come whole |
| Fragmentation.ContentLengthStream | srcs/server/Server.cpp:109-115 | a request with Content-Length is complete exactly with its last byte, and its body is those bytes |
| Fragmentation.ContentLengthExactly | srcs/server/Server.cpp:109-115 | whatever the Content-Length of a request that is not chunked is: it is one request iff as many bytes follow the head as the length arithmetic asks for |
| Fragmentation.PrintedLengthExactly | srcs/server/Server.cpp:110-111 | a body behind its printed length is one request iff the length fits an int |
| Fragmentation.ContentLengthDispatchedOnce | srcs/server/Server.cpp:80-150 | every cutting of it dispatches it once, on the last piece, with that body, the fields of its line and the headers of its block |
| Fragmentation.BodylessExactly | srcs/server/Server.cpp:94-119 | a head alone is one request iff its line and block parse and nothing is waited for; its body is empty |
| Fragmentation.BodylessStream | srcs/server/Server.cpp:105-108 | a request without a body is complete exactly with the blank line |
| Fragmentation.NoHeadersNeverDispatched | srcs/server/Server.cpp:97 | without a header in any line, of whatever form the lines are, the request is never complete |
| ChunkedStreams.ChunkedComplete | srcs/server/Server.cpp:94-119 | which prefixes of a head and its chunks are taken for complete |
| ChunkedStreams.ChunkedFirstComplete | srcs/server/Server.cpp:101-119 | for any chunked request: with the blank line, with the end marker, or with its Content-Length, whichever comes first |
| ChunkedStreams.MarkerEndsStream | srcs/server/Server.cpp:116 | where the first CRLF 0 CRLF CRLF of a chunked request is, and exactly when it is the end |
| ChunkedStreams.ChunkedStream | srcs/server/Server.cpp:94-119 | for any chunked request the completion test agrees with the decoder iff no data looks like the last chunk, the head does not end in a line "0", and a Content-Length asks for no fewer bytes |
| ChunkedStreams.AsksForAllExactly | srcs/server/Server.cpp:109-115 | no Content-Length, or one of at least the size of the framing, or one so negative that the sum wraps around |
| ChunkedStreams.ChunkedDispatchedOnce | srcs/server/Server.cpp:80-150 | every cutting of such a chunked request dispatches it once, on the last byte, decoded, with the headers of its block but Transfer-Encoding and the length of the data |
| CutStreams.CutDecodes | srcs/http/Request.cpp:201-240 | decoding every prefix of the framing: the whole chunks between chunks, failure inside one |
| CutStreams.EndsBetweenExactly | srcs/http/Request.cpp:201-240 | between chunks means: where the framing of some first chunks ends, or three bytes into the last chunk |
| CutStreams.PrefixOutcome | srcs/server/Server.cpp:94-137 | a prefix that looks complete is rejected iff it ends inside a size line or chunk, else dispatched with the data of its whole chunks |
| CutStreams.RejectionsAreSilent | srcs/server/Server.cpp:232-237 | over any delivery, rejected pieces send nothing and leave the client idle with the 400 page in its buffer |
| CutStreams.StaleRejection | srcs/server/Server.cpp:80-237 | over any delivery, the first piece that is dispatched gives the whole chunks so far; after a rejection only the 400 page goes out |
| CutStreams.EveryDeliveryDispatches | srcs/server/Server.cpp:80-150 | every delivery of the whole stream comes to such a piece |
| CutStreams.BodyWholeExactly | srcs/http/Request.cpp:201-240 | the dispatched body is the whole data iff all chunks with data were there |
| CutStreams.HeadAlone | srcs/server/Server.cpp:109-119 | a chunked head that ends in a line "0", or has a Content-Length of 0, is dispatched with the blank line, without a body |
| CutStreams.ExampleLength | srcs/server/Server.cpp:109-115 | one head with both headers, truncated like that whatever its chunks are |
| CutStreams.ExampleCut | srcs/server/Server.cpp:116 | one head and two chunks: a cut that is rejected and a cut that is dispatched truncated |
| Servers.HandledIsSteps | srcs/server/Server.cpp:311-318 | a round of the loop is steps of the connection machine |
| Servers.RoundReached | srcs/server/Server.cpp:290-320 | after a round every table entry is again the client of some run of that machine |
| Servers.ReaderStaysExactly | srcs/server/Server.cpp:290-318 | an entry not due a write survives a round iff it was active within a minute and its read does not end the connection |
| Servers.WriterStaysExactly | srcs/server/Server.cpp:290-318 | an entry with a response under way survives iff it was active within a minute and its write does not end the connection |
| Servers.ClosedPeerGone | srcs/server/Server.cpp:122-128 | a peer that closed, or whose read fails, is out of the table after the round that reports it |
| Servers.AcceptExactly | srcs/server/Server.cpp:164-190 | below the limit exactly the accepted descriptor is new, as an empty idle client; at the limit exactly those quiet for a minute go |
| Servers.Server.Initialize | srcs/server/Server.cpp:271-288 | a server without clients, given its socket, satisfies every invariant of the client table |
| Servers.Server.UpdateMaxFileDescriptor | srcs/server/Server.cpp:336-341 | the largest selectable descriptor of the table, or the socket |
| Servers.Server.CloseConnection | srcs/server/Server.cpp:239-255 | removes exactly that entry and keeps the bound exact |
| Servers.Server.HandleNewConnection | srcs/server/Server.cpp:164-190 | adds at most one entry, never beyond MAX_CLIENTS; a full table loses its idle clients |
| Servers.Server.CheckIdleConnections | srcs/server/Server.cpp:322-330 | removes exactly the idle clients |
| Servers.Server.HandleClientData | srcs/server/Server.cpp:80-128 | one read changes one entry as the connection machine says, and closes exactly when it says; the entry of a closed or failed peer is gone |
| Servers.Server.RequestComplete | srcs/server/Server.cpp:94-119 | the completion test, including the wrap of its length arithmetic |
| Servers.Server.ProcessCompleteRequests | srcs/server/Server.cpp:130-162 | parse, hand over to the handler, and change to WRITING_RESPONSE; 400 page or close otherwise |
| Responses.BadRequestReadsBack | srcs/server/Server.cpp:232-237 | the page left in the buffer reads back as a 400 response with its three headers and its body |
| Servers.Server.HandleClientWrite | srcs/server/Server.cpp:192-230 | one write changes one entry as the connection machine says |
| Servers.Server.HandleExistingConnections | srcs/server/Server.cpp:290-320 | expired clients are gone, every other client had its read and its write, no entry was added |
| Servers.Server.ServeActive | srcs/server/Server.cpp:306-318 | the snapshot is served exactly once each, whatever the order |
| ServerGroups.ServerGroup.InitializeServers | srcs/server/ServerGroup.cpp:133-147 | every server listens on its socket, and the sets cover exactly the listeners |
| ServerGroups.ServerGroup.UpdateMaxFd | srcs/server/ServerGroup.cpp:109-114 | the largest bound of all servers, or 0 |
| ServerGroups.ServerGroup.BoundIsLargest | srcs/server/ServerGroup.cpp:109-131 | at a select the bound is the largest descriptor watched |
| ServerGroups.ServerGroup.AcceptAll | srcs/server/ServerGroup.cpp:41-46 | the tables of the servers with a waiting connection, and no others, had their accept |
| ServerGroups.ServerGroup.ServeAll | srcs/server/ServerGroup.cpp:48-51 | every server's table is served, each client once |
| ServerGroups.ServerGroup.HandleEvents | srcs/server/ServerGroup.cpp:40-74 | every table had its whole round, and both sets are then exactly right |
| ServerGroups.ServerGroup.RebuildSets | srcs/server/ServerGroup.cpp:53-72 | all listeners and clients for reading, exactly the clients in WRITING_RESPONSE for writing |
| ServerGroups.ServerGroup.SetsExactly | srcs/server/ServerGroup.cpp:53-72 | descriptor by descriptor: watched for reading iff some server listens on it or has it as client, for writing iff that client has a response under way |
| ServerGroups.ServerGroup.HandleSelect | srcs/server/ServerGroup.cpp:116-131 | one select: a round over what it reported, or nothing; the sets stay exactly right, and entries stay clients of runs |
| ServerGroups.ServerGroup.Run | srcs/server/ServerGroup.cpp:76-95 | at every select of every run the sets are exactly right, the bound is attained, no table exceeds MAX_CLIENTS, and every entry is the client of some run of the connection machine |
| Configs.StuckExactly | srcs/config/ConfigParser.cpp:29-60 | parsing terminates iff no "cgi {" line comes before the first mention of "server" |
| Configs.StuckForever | srcs/config/ConfigParser.cpp:46-50 | there every pass leaves the cursor where it is and adds an error |
| Configs.NeverStuckAfterServer | srcs/config/ConfigParser.cpp:29-60 | once a server was read, parsing always terminates |
| ConfigParsers.ConfigParser.ReadConfigFile | srcs/config/ConfigParser.cpp:62-83 | the lines without comments and surrounding space, empty ones dropped |
| ConfigParsers.ConfigParser.Parse | srcs/config/ConfigParser.cpp:29-60 | servers, final cursor and errors are what the lines denote, or the loop that never ends |
| ConfigParsers.ConfigParser.ParseServer | srcs/config/ConfigParser.cpp:85-124 | a server block: its configuration, the cursor behind it, its errors |
| ConfigParsers.ConfigParser.ParseLocation | srcs/config/ConfigParser.cpp:149-207 | a location block, from its path to its closing brace |
| ConfigParsers.ConfigParser.ParseCGI | srcs/config/ConfigParser.cpp:209-232 | a cgi block: extensions with a dot, handlers without a semicolon |
| ConfigParsers.ConfigParser.ParseDirective | srcs/config/ConfigParser.cpp:234-257 | one server directive, with the error it may add |
| ConfigParsers.ConfigParser.ReadSize | srcs/config/ConfigParser.cpp:439-464 | the two scanning loops and the unit give the size the text denotes, or 0 and an error |
| ConfigRoundTrips.SizeWithUnit | srcs/config/ConfigParser.cpp:439-464 | a whole number with a unit in either letter case is that many units; every other unit is an error |
| ConfigRoundTrips.WordsOfJoin | srcs/config/ConfigParser.cpp:398-402 | the tokens of joined words are the words |
| ConfigRoundTrips.DirectiveRead | srcs/config/ConfigParser.cpp:234-257 | a printed server directive is read as what it means |
| ConfigRoundTrips.LocDirectiveRead | srcs/config/ConfigParser.cpp:171-206 | a printed location directive is read as what it means |
| ConfigRoundTrips.MethodsExactly | srcs/config/ConfigParser.cpp:419-437 | of any list of words exactly GET, POST, DELETE, PUT and HEAD are kept, in order; without one of them it is GET |
| ConfigLines.ErrorPageExactly | srcs/config/ConfigParser.cpp:404-417 | of any list of words, the second is the page of the first, iff that is 400 to 599; every other list is an error with its line |
| ConfigLines.SeveralCodes | srcs/config/ConfigParser.cpp:404-417 | the shipped line with four codes and a page gives the first code the second for a page |
| ConfigLines.RedirectExactly | srcs/config/ConfigParser.cpp:193-202 | a redirect takes the second word behind 301 or 302, and nothing else sets one |
| ConfigLines.FractionRoundsDown | srcs/config/ConfigParser.cpp:439-464 | a size with decimal places is the exact product with its unit, rounded down |
| ConfigLines.BadSize | srcs/config/ConfigParser.cpp:458-461 | a size with any other unit is 0 and an error with its line |
| ConfigLines.EntryGetsDot | srcs/config/ConfigParser.cpp:222-226 | an extension without a dot gets one |
| ConfigLines.UnknownServerDirective | srcs/config/ConfigParser.cpp:234-257 | any other directive changes nothing and is no error |
| ConfigLines.UnknownLocationDirective | srcs/config/ConfigParser.cpp:171-206 | the same in a location |
| ConfigLines.TimeoutExactly | srcs/config/ConfigParser.cpp:251-252 | a negative timeout wraps around at 2^32 |
| ConfigLines.WordThenSpace | srcs/config/ConfigParser.cpp:398-402 | words are parted by any run of space |
| ConfigLines.DirectiveSplit | srcs/config/ConfigParser.cpp:259-273 | a directive is its first word and everything behind it without the space around |
| ConfigLines.SpaceBeforeSemicolon | srcs/config/ConfigParser.cpp:171-237 | space in front of the semicolon is dropped from a server directive and stays on the value of a location directive |
| ConfigLines.PathExactly | srcs/config/ConfigParser.cpp:149-155 | the path of a location is the second word of its line, or the first when there is no second |
| ConfigLines.CommentDropped | srcs/config/ConfigParser.cpp:70-79 | what follows a number sign is not read, nor the space around the rest |
| ConfigLines.CommentLinesDropped | srcs/config/ConfigParser.cpp:70-79 | lines of comment or space between others make no difference |
| ConfigLines.BraceBelowServer | srcs/config/ConfigParser.cpp:85-102 | a server block may have its brace on the next line |
| ConfigLines.BraceBelowLocation | srcs/config/ConfigParser.cpp:149-163 | so may a location |
| ConfigLines.CgiLineExactly | srcs/config/ConfigParser.cpp:116-119 | in a server block, any line that starts with cgi and has a brace opens a cgi block |
| ConfigLines.EmptyBlocks | srcs/config/ConfigParser.cpp:29-124 | blocks without a directive are the default server and location |
| ConfigLines.CgiBehindServer | srcs/config/ConfigParser.cpp:46-48 | a cgi block behind a server belongs to the last server |
| ConfigLines.StrayLine | srcs/config/ConfigParser.cpp:51-56 | any other line outside of a server is an error with its number |
| ConfigRoundTrips.SizeOfDec | srcs/config/ConfigParser.cpp:439-464 | a printed whole size is read back |
| ConfigRoundTrips.ErrorPageRead | srcs/config/ConfigParser.cpp:404-417 | a printed error page is read back without an error |
| ConfigRoundTrips.PrintParseRoundTrip | srcs/config/ConfigParser.cpp:29-124 | any list of directives, repeats included, parses to its meaning, without error and with the cursor at the end |
| ConfigRoundTrips.EvalItemsOf | srcs/config/ConfigParser.cpp:234-257 | the directives of a configuration mean that configuration |
| ConfigRoundTrips.ConfigurationRoundTrip | srcs/config/ConfigParser.cpp:29-83 | a list of configurations printed in any map order, read from the file and parsed, is the same list |
| Routing.GetLocation | srcs/handlers/RequestHandler.cpp:62-108 | the first suffix pattern that matches, else the first longest prefix; the early exit agrees with the full scan |
| Routing.ChosenUnique | srcs/handlers/RequestHandler.cpp:62-108 | that specification admits one answer |
| Routing.CandidateExactly | srcs/handlers/RequestHandler.cpp:94-104 | a location without "~" serves the paths that continue its own; the empty one only the empty path |
| Routing.PatternSuffix | srcs/handlers/RequestHandler.cpp:66-78 | behind the tilde blanks are skipped, and the pattern ends at the next blank or before a final "$" |
| Routing.ValidateLocations | srcs/config/ConfigParser.cpp:371-386 | accepts exactly the lists without a repeated path |
| Routing.OrderIrrelevant | srcs/handlers/RequestHandler.cpp:88-107 | in such lists, permuting the locations that are not patterns changes no choice |
| Routing.SpacedPatternNeverMatches | srcs/config/ConfigParser.cpp:149-155 | a pattern after a space is lost, and the location matches nothing |
| Routing.TightPatternExactly | srcs/handlers/RequestHandler.cpp:64-86 | a pattern without a space matches exactly the paths that end in it as written, but for a final "$" |
| Routing.PhpPatternMatchesNoScript | srcs/handlers/RequestHandler.cpp:64-86 | the pattern of the shipped configuration, without the space, only matches paths that end in a parenthesis |
| Uploads.UrlDecode | srcs/handlers/FileHandler.cpp:153-172 | the loop computes the decoding |
| Uploads.DecodeEncoded | srcs/handlers/FileHandler.cpp:153-172 | decoding undoes every percent encoding, whichever bytes are encoded and in whichever case, blanks as + or not |
| Uploads.PercentRoundTrip | srcs/handlers/FileHandler.cpp:153-172 | decoding undoes the canonical encoder on every byte string |
| Uploads.DecodePlain | srcs/handlers/FileHandler.cpp:153-172 | the identity without % and + |
| Uploads.PercentKept | srcs/handlers/FileHandler.cpp:153-172 | a percent sign that no number follows stands for itself |
| Uploads.Decode | srcs/handlers/FileHandler.cpp:153-172 | decoding never lengthens |
| Uploads.SanitizeFilename | srcs/handlers/FileHandler.cpp:174-182 | the loop keeps exactly the safe characters, in order |
| Uploads.SafeOnlyKeeps | srcs/handlers/FileHandler.cpp:174-182 | a name is unchanged iff all its characters are safe |
| Uploads.SafeOne | srcs/handlers/FileHandler.cpp:174-182 | by its ASCII code, each character is kept or dropped |
| Uploads.SafeAppend | srcs/handlers/FileHandler.cpp:174-182 | a name is made safe piece by piece |
| Uploads.NoSeparatorKept | srcs/handlers/FileHandler.cpp:174-182 | no path separator and no control character is left |
| Uploads.BoundaryExtracted | srcs/handlers/FileHandler.cpp:88-91 | the delimiter is "--" and the announced boundary |
| Uploads.PartFoundExactly | srcs/handlers/FileHandler.cpp:93-99 | a part is found iff the delimiter, the disposition and the key occur in that order |
| Uploads.PartPositions | srcs/handlers/FileHandler.cpp:93-111 | for the delimiters and names that MultipartExactly singles out, every search of the parser lands where the part body puts its mark |
| Uploads.MultipartRoundTrip | srcs/handlers/FileHandler.cpp:93-111 | for them, a one-part body gives back exactly its content and the sanitized file name |
| Uploads.KeyEarlyExactly | srcs/handlers/FileHandler.cpp:93-99 | the file name parameter is found before its place iff the delimiter holds one behind a disposition or the field name ends in "filename=" |
| Uploads.MultipartExactly | srcs/handlers/FileHandler.cpp:93-111 | for a boundary without line ends and a name without quotes, every part is read back iff neither is the case |
| Uploads.BreakingName | srcs/handlers/FileHandler.cpp:97-103 | under every boundary that is not broken itself, the field name "filename=" makes the parser read " filename", whatever the file is called |
| Uploads.BreakingDelimiter | srcs/handlers/FileHandler.cpp:93-98 | a delimiter for which it is not |
| Uploads.SaveUploadedFile | srcs/handlers/FileHandler.cpp:113-135 | whatever the writes take, what is stored is what they took, in order; all of it iff it reports success |
| Uploads.ProgressStores | srcs/handlers/FileHandler.cpp:120-131 | as many writes that make progress as there are bytes store everything |
| Arenas.Create | www/cgi-bin/php/include/php/Zend/zend_arena.h:34-42 | a new arena satisfies the invariant |
| Arenas.AllocKeepsInv | www/cgi-bin/php/include/php/Zend/zend_arena.h:53-77 | a new allocation is aligned, inside its chunk and apart from every live one, also in a freshly sized chunk |
| Arenas.AllocGives | www/cgi-bin/php/include/php/Zend/zend_arena.h:53-77 | the bytes asked for, rounded up to eight, behind what is in use when they fit there, else at the start of a chunk as large as the last or just large enough; nothing else changes |
| Arenas.ContainsExactly | www/cgi-bin/php/include/php/Zend/zend_arena.h:113-122 | contains answers for the addresses behind the start of a chunk and up to the end of what is in use there |
| Arenas.SaveKeepsInv | www/cgi-bin/php/include/php/Zend/zend_arena.h:94-97 | a checkpoint separates older allocations from newer ones |
| Arenas.PopToMark | www/cgi-bin/php/include/php/Zend/zend_arena.h:99-111 | release stops at the checkpoint's chunk, also when the checkpoint is that chunk's end and another chunk starts there |
| Arenas.ReleaseEffect | www/cgi-bin/php/include/php/Zend/zend_arena.h:99-111 | exactly the newer chunks are freed, and every older allocation is as it was |
| Arenas.ReleaseKeepsInv | www/cgi-bin/php/include/php/Zend/zend_arena.h:99-111 | what is left after a release satisfies the invariant |
| Arenas.EveryRunIsSafe | www/cgi-bin/php/include/php/Zend/zend_arena.h:34-122 | in every state of every run live allocations are aligned, inside, disjoint and contained |
| Arenas.Arena.Alloc | www/cgi-bin/php/include/php/Zend/zend_arena.h:53-77 | the pointer code does what the model says, and returns the new allocation's address |
| Arenas.Arena.Checkpoint | www/cgi-bin/php/include/php/Zend/zend_arena.h:94-97 | hands out the top of the newest chunk and changes nothing |
| Arenas.Arena.Release | www/cgi-bin/php/include/php/Zend/zend_arena.h:99-111 | terminates with the checkpoint's chunk on top |
| Arenas.Arena.ContainsAddress | www/cgi-bin/php/include/php/Zend/zend_arena.h:113-122 | walks all chunks and answers as specified |
| Bitsets.Ntz | www/cgi-bin/php/include/php/Zend/zend_bitset.h:41-76 | the binary search counts the trailing zeros of every 64-bit word |
| Bitsets.Contains | www/cgi-bin/php/include/php/Zend/zend_bitset.h:85-88 | membership |
| Bitsets.Incl | www/cgi-bin/php/include/php/Zend/zend_bitset.h:90-93 | adds one member |
| Bitsets.Excl | www/cgi-bin/php/include/php/Zend/zend_bitset.h:95-98 | removes one member |
| Bitsets.BitsOfCombine | www/cgi-bin/php/include/php/Zend/zend_bitset.h:131-156 | the word operations work bit by bit |
| Bitsets.CombineInto | www/cgi-bin/php/include/php/Zend/zend_bitset.h:131-156 | the loops are union, intersection and difference of sets, also of a set with itself |
| Bitsets.Subset | www/cgi-bin/php/include/php/Zend/zend_bitset.h:176-186 | answers inclusion, both ways |
| Bitsets.First | www/cgi-bin/php/include/php/Zend/zend_bitset.h:188-198 | the least member, or -1 exactly for the empty set |
| Bitsets.Last | www/cgi-bin/php/include/php/Zend/zend_bitset.h:200-217 | the greatest member, or -1 exactly for the empty set |
| Bitsets.PopFirst | www/cgi-bin/php/include/php/Zend/zend_bitset.h:246-252 | takes out the least member |
| Bitsets.PopAll | www/cgi-bin/php/include/php/Zend/zend_bitset.h:246-252 | repeated, it lists exactly the members in increasing order and empties the set |
| Bitsets.ForEach | www/cgi-bin/php/include/php/Zend/zend_bitset.h:219-244 | lists exactly the members in increasing order |
| Bitsets.EnumerationUnique | www/cgi-bin/php/include/php/Zend/zend_bitset.h:219-252 | so both yield the same sequence |
| HashChains.MaskSelectsSlot | www/cgi-bin/php/include/php/Zend/zend_types.h:317-318 | or-ing a hash with the table mask selects the slot of its low bits |
| HashChains.ChainUnique | www/cgi-bin/php/include/php/Zend/zend_types.h:312-315 | following the links from a slot visits one sequence of buckets |
| HashChains.AppendKeepsInv | www/cgi-bin/php/include/php/Zend/zend_hash.h:1120-1139 | after an append every slot's links visit exactly its live buckets, once each, newest first |
| HashChains.UnlinkKeepsInv | www/cgi-bin/php/include/php/Zend/zend_hash.h:943-960 | linking around the last used bucket keeps that, wherever it stands on its chain |
| HashChains.OnItsChain | www/cgi-bin/php/include/php/Zend/zend_hash.h:945-949 | the bucket to delete is on its slot's chain, and in front when chains are newest first |
| HashChains.HashTable.Append | www/cgi-bin/php/include/php/Zend/zend_hash.h:1120-1139 | one more live entry at the end, invariant and order kept |
| HashChains.HashTable.Unlink | www/cgi-bin/php/include/php/Zend/zend_hash.h:943-960 | the predecessor walk ends by finding its bucket, and is not entered on newest-first chains |
| HashChains.HashTable.DeleteFromEnd | www/cgi-bin/php/include/php/Zend/zend_hash.h:926-962 | the reverse loop leaves exactly the entries before the break |
| HashChains.RunAll | www/cgi-bin/php/include/php/Zend/zend_hash.h:926-1139 | over every run within capacity the table is a stack of its entries, invariant kept |
| Searches.MemNStr | www/cgi-bin/php/include/php/Zend/zend_operators.h:147-187 | the first occurrence, or NULL exactly when there is none |
| Searches.MemRChr | www/cgi-bin/php/include/php/Zend/zend_operators.h:189-202 | the last occurrence of a character |
| Searches.MemNRStr | www/cgi-bin/php/include/php/Zend/zend_operators.h:205-241 | the last occurrence, or NULL exactly when there is none |
| Searches.OccursByEnds | www/cgi-bin/php/include/php/Zend/zend_operators.h:170-174 | first character, last character and middle decide an occurrence |
| Searches.LastIsFirstReversed | www/cgi-bin/php/include/php/Zend/zend_operators.h:205-241 | searching backwards is searching forwards in the reversed strings |
| Decimals.NegatedIsMagnitude | www/cgi-bin/php/include/php/Zend/zend_operators.h:957-961 | complement and increment give the magnitude of every negative value, the minimum included |
| Decimals.WordLength | www/cgi-bin/php/include/php/Zend/zend_smart_str.h:135-145 | a 64-bit value has at most 20 digits |
| Decimals.PrintedValue | www/cgi-bin/php/include/php/Zend/zend_operators.h:957-965 | the printed text denotes the value |
| Decimals.DecOfValue | www/cgi-bin/php/include/php/Zend/zend_operators.h:947-954 | no other digit string without a leading zero denotes it |
| Decimals.PrintUlongToBuf | www/cgi-bin/php/include/php/Zend/zend_operators.h:947-954 | the digits written backwards are the decimal notation, and nothing else in the buffer changes |
| Decimals.PrintLongToBuf | www/cgi-bin/php/include/php/Zend/zend_operators.h:957-965 | the same with a sign |
| Decimals.SmartStr.AppendLong | www/cgi-bin/php/include/php/Zend/zend_smart_str.h:135-139 | appends the notation; every write is inside the 32-byte buffer |
| Decimals.SmartStr.AppendUnsigned | www/cgi-bin/php/include/php/Zend/zend_smart_str.h:141-145 | the same for unsigned values |

## Left out

- Real sockets, files, `fork`/`exec`, pipes, `stat`, `mkdir`, randomness and the CGI child's polling
  loop; what the kernel answers is an argument of the model.
- Signals and the reload of the configuration, which can interrupt a round at any point.
- The clock: one time value per round.  Client tables are walked in any order, where `std::map`
  walks in ascending order; header maps likewise.
- `ClientState::tempFile` and `contentLength`, which no code sets, and the write to
  `lastActivity` after a connection was closed.
- Exceptions from `setNonBlocking`, and from `select` beyond ending the run.
- Client descriptors at or above `FD_SETSIZE`, which are never reported ready here, as if `FD_ISSET`
  said no; listeners are below it.
- Pipelined bytes after a request: the dispatch theorems are about one request per stream.  Last
  chunks spelled other than `0`, and trailers.
- Session and request cookies, the raw 100 Continue response, error pages, MIME types, directory
  listings, the logger, and the request handlers behind the routing.
- A read error on a streamed file or on the CGI output.
- `validatePaths`, `validatePorts`, `validateCGI`.
- The `_ex` search fallbacks, inline assembly and builtin variants, the tracked arena, the bitset
  operations that clear, fill, copy, compare or combine three or four sets, the reverse bitset walk,
  and hash functions that are only declared.
- Configs.ParseSize: exact rational arithmetic instead of `double`; they agree on whole sizes below 2^53.
- Bitsets.First: the `int` result of a set with members from 2^31 on, where the conversion is implementation-defined.
- Bitsets.Last: the same, and the overflow of its `int` counter there.
- Bitsets.PopFirst: the same as for `Bitsets.First`; `Bitsets.PopAll` and `Bitsets.ForEach` count without a bound.
- Arenas.Aligned: no wrap-around of the size near 2^64.
- Uploads.HexPair: the reading of two characters by `>> std::hex >> int` follows the C++ library's rules, which are not part of the repository.
- Decimals.SmartStr.AppendLong: the growth of the string's allocation is not modelled.
- HashChains.Slot: the remainder by the number of slots; `HashChains.MaskSelectsSlot` relates the mask to the low bits of the hash.
