# Verification model of the spx HTTP server

A Dafny 4.11 model of the streaming data path of the server, with proofs of what it promises on
every input, every split of the input into reads, and every interleaving of reads and writes.
`dafny verify dfyconfig.toml` checks the whole project.

The server receives bytes into a queue of heap segments, cuts the request line and the header
fields out of it, resolves the URI against the configuration, decodes the body (of known length or
chunked, section 4.1 of RFC 7230) into further queues, and drains those into an uploaded file or
into the pipe of a CGI process. All of this is resumable code: every routine stops at any byte and
goes on when the next read has arrived.

## What is modelled, file by file

| file | what it holds |
|---|---|
| `Bytes.dfy` | bytes, searching, the character classes, hexadecimal numbers |
| `Memory.dfy` | the free store (`Heap.live` is what has been allocated and not deleted), `struct iovec`, `writev` |
| `Lines.dfy` | what line extraction means on flat bytes, and when it depends on the segments |
| `Buffer.dfy` | `SpxBuffer`: a class over heap segments, each method proved against flat `Content()` |
| `ReadBuffer.dfy` | `SpxReadBuffer`: the pool of segments for `readv` and their hand-over |
| `ChunkSize.dfy` | the chunk-size line scanner |
| `Chunked.dfy` | the decoder and the skipper as a machine of single steps; runs, calls, dispatches |
| `ChunkedLimits.dfy` | the body limit, and what the 32-bit chunk counter breaks |
| `ChunkedRoundTrip.dfy` | decoding undoes chunked coding |
| `ChunkedSkip.dfy`, `CutBodies.dfy` | the hand-over from decoder to skipper, for every wire and for bodies properly coded |
| `ChunkedCarry.dfy` | limits so large that the 64-bit total of the announced sizes wraps |
| `Transfer.dfy` | chunked upload and CGI bodies: receiving, delivering and answering in any order |
| `KnownLength.dfy`, `Unframed.dfy` | the same for a body of known length, and for an upload whose header tells neither length nor coding |
| `Closing.dfy` | exactly when a transfer is closed early |
| `Clients.dfy` | `Client` on real queues, proved against `Chunked` and `Transfer`, and driven by sequences of events |
| `StartLine.dfy`, `Heads.dfy` | the request line, the header fields, and the whole head of a request |
| `Requests.dfy` | a whole request on one wire: head, chunked body, and what follows |
| `Paths.dfy` | `path_resolve_`: percent-decoding and slash collapsing |
| `Servers.dfy`, `Resolver.dfy`, `UriParts.dfy` | locations and servers; the URI machine `get_uri_location_t_`; what the parts of a URI are |
| `Config.dfy` | `listen`, the end of a server block, the table of listening ports |

Classes (`SpxBuffer`, `SpxReadBuffer`, `Client`, `HeadReader`, `Heap`, `Descriptor`, `Parser`) have
the fields their originals update in place. Algorithms with loops are methods, proved against
functions of the flat contents; the properties over all runs are lemmas about those functions.

## Main results

* **Segments do not show.** Every operation of `SpxBuffer` keeps its layout and does to the flat
  content what it is for, for every segmentation. Moving between two queues neither loses nor
  duplicates nor leaks a block: afterwards every live block that either queue held is held by
  exactly one of them, and what was in neither stays so.
* **Splits do not show.** A call of the chunked decoder on `a`, then one on `b`, does what one
  call on `a + b` does, from every reachable state and for malformed wires too, if and only if the
  body limit is below 2^32 - 1 (`FragmentationIff`). Across the hand-over to the skipper only the
  concatenation of the reads matters (`PollsSettle`). The same holds for the head of a request.
* **Decoding undoes coding**, in every split, and leaves exactly the next request
  (`RoundTrip`, `HeadRoundTrip`, `EndToEnd`). A request with a chunked body comes back whole, head and
  body, with the next request behind it on the same wire (`WholeRequest`, `NextRequest`).
* **Conservation.** Under every interleaving of reads, partial writes and the end of the response,
  what was delivered is a prefix of what was decoded, deliveries do not disturb decoding, and a
  transfer is closed only when all of it has been delivered, or, for the pipe of a CGI request, when
  its body was cut at the limit and the rest skipped (`Conservation`, `LengthConservation`).
* **The queues refine the machine.** Any sequence of events on a `Client` with real segments (reads,
  writes that take some bytes or fail, parts of the response, its end) is, event by event, the run of
  the abstract transfer that these events are, so everything proved about runs holds of it
  (`Client.Handle`, `Client.Serve`, `Client.Upload`, and for the file `Client.Uploaded`,
  `Client.UploadedLength`, `Client.UploadedNothing`). When all of a body has been read, writes that add
  up to the rest of it close the file, and it holds exactly the body (`Client.UploadCompletes`).
* **The limit of a chunked body holds** on every run. A chunked body over its limit is skipped to
  exactly the end of its coding, in any split and with the response written at any moment
  (`LimitSafety`, `LimitKeepsPlace`, `SkipRoundTrip`). A body of known length is compared with the
  limit when an upload is set up; for a CGI request it never is (`KnownLength.CgiLengthUnlimited`).
* **The URI machine** stops on every URI. On a valid one it loses nothing, and script, path
  information, query, fragment, location and CGI are given by independent definitions
  (`GetUriLocation`, `UriParts`, `NameComesBack`, `PathComesBack`, `FileBeginsWithRoot`, `FileClimbsIff`).
* **The configuration** gives each port exactly one default server, and lookup stays on the port.

Where the code does not do what its design promises, the exact condition is proved:

| what fails | exactly when it holds |
|---|---|
| the bound of `find_pos_` is ignored inside the front segment | segments of at most `max + 1` bytes (`Lines.FrontIrrelevantIff`) |
| a chunk of 2^32 - 2 bytes wraps the counter to 0 and its data is read as a size line | body limit below 2^32 - 2 (`ChunkedLimits.ExactIff`) |
| a chunk of 2^32 - 1 bytes, or any larger one, wraps it to 1; then a call returns early and the result depends on the split | body limit below 2^32 - 1 (`ChunkedLimits.FragmentationIff`) |
| a chunk size carries the 64-bit total past 2^64, so the limit is passed and an upload is closed early | body limit at most 2^64 - 2^32 (`ChunkedCarry.LimitSafetyIff`, `Closing.UploadCloseIff`) |
| a chunked CGI request that also has a Content-Length is closed after that many bytes | that length is absent or above the limit, and the limit at most 2^64 - 2^32 (`Closing.EarlyCloseIff`) |
| after a chunked CGI body went over its limit, the skipper goes on adding to a total that wraps at once; the pipe is closed when as many bytes as that total have been delivered; a Content-Length closes it too | what follows the chunk over the limit is empty or more than one byte longer than what preceded it, and the Content-Length is above what passes, or no less than the body (`Closing.CutIff`); over all bodies, limit at least 2^64 - 3 and Content-Length at least 2^64 - 2 (`Closing.CutLimitIff`) |
| bytes moved for a body of known length are counted in an `int` | Content-Length below 2^31, or pieces below 2^31 (`KnownLength.LengthIff`): a read brings less, but more can wait behind the header |
| an upload whose header tells neither a length nor a coding is decoded into one queue and written from the other: nothing arrives, and it is taken for done | when the announced total is 0 (`Unframed.NothingDelivered`, `Unframed.PrintedUnframed`) |
| the limit is not applied to a CGI body of known length | Content-Length at most the limit (`KnownLength.CgiLengthUnlimited` gives the run above it) |
| resolving leaves components `..`, so the file may lie elsewhere than below the root | the root followed by the decoded script has no such component (`Resolver.FileClimbsIff`) |
| `listen` keeps the length of its argument in eight bits | `Config.ListenIff` |

A limit that the configuration sets lies between 1 and 2^31 - 1 (spx_parse_config.cpp:851); the limit
of a location without one is 2^64 - 1 (spx_port_info.cpp:479).

## Notes on the source

* The chunk-size state `chunked_almost_done` falls through to the error case, so a size line with
  extensions is always rejected; it may have stored extensions and a size before that. A number
  that does not fit 32 bits is extracted as 2^32 - 1.
* The decoder drops two bytes at the end of a chunk without looking at them; the skipper wants
  CR LF. Trailer fields are not supported.
* `header_field_parser_` takes the answer -1 for a line: a bare LF ends the header block and stays
  in the buffer. `request_line_parser_` never gets past a bare LF (`Heads.BareLfBlocks`).
* In the URI state of the request-line machine the cases for `%`, `#` and `?` come after a class
  that contains these characters and are never reached.
* A location whose `cgi_pass` has no dot makes `get_uri_location_t_` throw; the model returns that.
* `state_req_body_` subtracts unsigned numbers and adds an `int`; both conversions are written out.
* Dereferencing a string iterator at its end is modelled as reading 0.
* After a 413 to a CGI request the response is written from the output of the CGI program
  (spx_client.cpp:469-483), so its end, the event `Responded`, comes only when that output supplies as
  many bytes as the error page has.
* `IOV_MAX` is 1024. The default bound of a line is 8192 bytes, a read segment at most that and one.

## Model

| member | source | states |
|---|---|---|
| Lines.FrontIrrelevantIff | source/spx_buffer.cpp:208-229 | the first segment has no influence on a search, for any content and byte, iff it is at most one byte longer than the bound |
| Lines.LineStays | source/spx_buffer.cpp:306-326 | a line that can be extracted stays the first line whatever arrives behind it |
| Lines.ScanPrinted | source/spx_buffer.cpp:306-326 | a short line without LF, followed by CR LF and anything, is found with its exact length |
| Lines.LineFoundIff | source/spx_buffer.cpp:306-326 | a line ending in CR LF is found iff it has less than 8192 bytes; one ending in LF alone is malformed; without LF there is none |
| Buffer.FindFromIs | source/spx_buffer.cpp:217-229 | searching segment by segment finds the first occurrence in the flat bytes iff it lies within the bound |
| Buffer.CutView | source/spx_buffer.cpp:43-93 | cutting the segments where `n` bytes end leaves a valid layout that shows the bytes behind the first `n` |
| Buffer.SpxBuffer.constructor | source/spx_buffer.cpp:4-8 | a new queue is empty and valid |
| Buffer.SpxBuffer.Clear | source/spx_buffer.cpp:158-166 | all blocks of the queue, and only those, are freed; the queue is empty |
| Buffer.SpxBuffer.DeleteSize | source/spx_buffer.cpp:42-66 | drops the first min(n, size) bytes and frees exactly the blocks that are no longer in the queue, each once |
| Buffer.SpxBuffer.DeleteSizeForMove | source/spx_buffer.cpp:68-93 | drops the same bytes, frees nothing, and gives up exactly the blocks that were filled |
| Buffer.SpxBuffer.MovePartial | source/spx_buffer.cpp:95-120 | the first n bytes of a queue with an offset front end up behind the other queue; ownership as for Move |
| Buffer.SpxBuffer.MoveNonpartial | source/spx_buffer.cpp:122-142 | the same for a queue without an offset, whole blocks changing hands |
| Buffer.SpxBuffer.Move | source/spx_buffer.cpp:144-156 | exactly min(n, size) bytes go from the front of one queue to the end of the other; afterwards no block is in both, and no block outside them became live, dead or unowned |
| Buffer.SpxBuffer.FindPos | source/spx_buffer.cpp:208-229 | the first position of the byte in the flat content, iff it is in the front segment or within the bound |
| Buffer.SpxBuffer.PosVal | source/spx_buffer.cpp:231-248 | indexes the flat content, and gives 0 behind its end |
| Buffer.SpxBuffer.GetStrCpy | source/spx_buffer.cpp:279-304 | appends the first min(n, size) bytes and changes nothing |
| Buffer.SpxBuffer.GetStr | source/spx_buffer.cpp:250-277 | appends and drops the same prefix |
| Buffer.SpxBuffer.GetCrlfLine | source/spx_buffer.cpp:306-326 | 1 iff the LF found follows CR, then the line is exactly the bytes before CR LF and the content those behind it; otherwise 0 or -1 and nothing is consumed |
| Buffer.SpxBuffer.GetCrlfCpyLine | source/spx_buffer.cpp:328-347 | the same line, which stays in the queue |
| Buffer.SpxBuffer.GetLfLine | source/spx_buffer.cpp:349-370 | a line ending in LF alone or in CR LF, without its ending |
| Buffer.SpxBuffer.AddStr | source/spx_buffer.cpp:197-206 | appends a string in a fresh block of its own |
| Buffer.SpxBuffer.Offer | source/spx_buffer.cpp:32-40 | around the system call the front pointer is moved and restored on every outcome; what the descriptor got is a prefix of the content |
| Buffer.SpxBuffer.Write | source/spx_buffer.cpp:168-181 | for every answer of `writev`, failures included, bytes received by the descriptor followed by the remaining content are what they were before |
| ReadBuffer.SpxReadBuffer.Make | source/spx_buffer.cpp:391-398 | refuses a zero size in either dimension |
| ReadBuffer.SpxReadBuffer.SetEmptyBuf | source/spx_buffer.cpp:407-416 | refills the pool to its full number of full-length segments without touching the others |
| ReadBuffer.SpxReadBuffer.Read | source/spx_buffer.cpp:418-438 | appends exactly the bytes read, in order; the pool keeps full-length segments only, and no block is in the pool and in the queue |
| ReadBuffer.HandedData | source/spx_buffer.cpp:426-437 | the whole segments by division and the part by remainder hold exactly the bytes read |
| ChunkSize.StartLine | source/spx_syntax_checker.cpp:283-556 | stops on every line without reading past it; accepts exactly the non-empty lines of bytes in `0123456789ABCDEFabcdef`, with the number they are a numeral for, or 2^32 - 1 if that is larger; size and extensions are known for refused lines too |
| ChunkSize.Extensions | source/spx_syntax_checker.cpp:362-552 | the extension states stop, reject every line, store what `Stored` says and never overwrite a stored extension |
| ChunkSize.RefusedButStored | source/spx_syntax_checker.cpp:362-552 | a size with printed extensions behind it is refused, and the extensions are stored under their names, the first value of a name |
| ChunkSize.SizeOfNumeral | source/spx_syntax_checker.cpp:322-333 | a numeral in base 16, each digit in either case, gives its number, cut to 32 bits |
| ChunkSize.SizeAfterNumeral | source/spx_syntax_checker.cpp:335-360 | a numeral before `;`, a tab or a space sets the size although the line is refused |
| ChunkSize.SizeAfterKeeps | source/spx_syntax_checker.cpp:322-345 | any other refused line leaves the size as it was |
| Bytes.HexTable | source/spx_syntax_checker.cpp:331-356 | the sixteen digits in their two spellings have their values, and no other byte is a digit |
| ChunkSize.ScanUndoesPrint | source/spx_syntax_checker.cpp:322-353 | scanning gives back every 32-bit number from its hexadecimal spelling |
| Chunked.CallThenRun | source/spx_cgi_chunked.cpp:70-129 | one call takes steps of the machine, and all of them unless the counter wraps at 1 |
| Chunked.StepFeed | source/spx_cgi_chunked.cpp:24-43 | what one step does is not changed by bytes that arrive later |
| Chunked.Fragmentation | source/spx_cgi_chunked.cpp:70-129 | running on `a` and then on `b` ends where running on `a + b` ends, from every state, for every wire |
| Chunked.CallsAreRun | source/spx_cgi_chunked.cpp:70-129 | any split into reads with one call each ends where the machine ends on the concatenation, if no terminator is taken with the counter at 1 |
| Chunked.PollsSettle | source/spx_client.cpp:269-296 | with decoder and skipper dispatched by state and the response written between any two reads, only the concatenation of the reads decides where the machine ends |
| Chunked.FinishCommutes | source/spx_cgi_chunked.cpp:45-68 | the time at which the response is written has no influence on where skipping ends |
| Chunked.PollsAreCalls | source/spx_client.cpp:269-296 | without a hand-over, dispatching is decoding |
| ChunkedLimits.StepSafe | source/spx_cgi_chunked.cpp:70-119 | every step keeps decoded plus owed bytes within the announced total, and that within the limit |
| ChunkedLimits.LimitSafety | source/spx_cgi_chunked.cpp:93-119 | for a limit up to 2^64 - 2^32, on every run of an upload or a CGI request, decoded bytes and those the accepted chunk still owes never exceed the body limit, the run that reports 413 included |
| ChunkedLimits.ExactIff | source/spx_cgi_chunked.cpp:26-103 | on every run of an upload or a CGI request decoded plus owed bytes are exactly the announced total, iff the limit is below 2^32 - 2 |
| ChunkedLimits.WrapLosesCount | source/spx_cgi_chunked.cpp:93-103 | the size line `fffffffe` announces a chunk and nothing is owed |
| ChunkedLimits.FragmentationIff | source/spx_cgi_chunked.cpp:70-129 | between any two calls, for uploads and CGI requests, a split of the bytes is irrelevant, malformed wires included, iff the limit is below 2^32 - 1 |
| ChunkedLimits.WrapSplits | source/spx_cgi_chunked.cpp:26-43 | the size line `ffffffff` and `xyz`, cut before `z`, decode differently from the same bytes at once |
| ChunkedLimits.LimitPreventsWrap | source/spx_cgi_chunked.cpp:93-103 | a limit below 2^32 - 1 keeps the counter away from 1 on every run |
| ChunkedCarry.CarryRun | source/spx_cgi_chunked.cpp:93-103 | for a larger limit a run of three calls completes a body whose announced length is less than the bytes decoded |
| ChunkedCarry.LimitSafetyIff | source/spx_cgi_chunked.cpp:93-119 | on every run of an upload or a CGI request decoded and owed bytes stay within the announced total and the limit, iff the limit is at most 2^64 - 2^32 |
| ChunkedRoundTrip.DecodeAll | source/spx_cgi_chunked.cpp:70-111 | any list of non-empty chunks and a last chunk, each size spelled by any numeral with digits in either case, decodes to the concatenated data and leaves exactly the suffix |
| ChunkedRoundTrip.BadLineStops | source/spx_cgi_chunked.cpp:93-128 | behind any chunks a line that is no size ends decoding with 400; what was decoded stays and what follows the line is not read |
| ChunkedRoundTrip.RoundTrip | source/spx_cgi_chunked.cpp:24-111 | printed chunks and a pipelined suffix, in any split into calls, decode to exactly the body, set the length, and leave exactly the suffix |
| ChunkedSkip.LockStep | source/spx_cgi_chunked.cpp:45-68 | skipper and decoder from one place: the skipper fails iff the decoder fails or a terminator is not CR LF, otherwise they end at the same place; it outputs nothing, and its total is that of the decoder modulo 2^64 |
| ChunkedSkip.LimitKeepsPlace | source/spx_cgi_chunked.cpp:99-165 | a body over its limit, its rest skipped, ends at the wire position where decoding under a sufficient limit ends; bad request exactly when decoding fails or a skipped terminator is not CR LF |
| CutBodies.SkipRoundTrip | source/spx_cgi_chunked.cpp:70-175 | a printed body over its limit and a pipelined suffix, in any split, with the response written at any moment: the chunks before the limit are decoded, the request is over, and exactly the suffix is left; until the response is written the skipper waits |
| Transfer.ReceiveInv | source/spx_cgi_chunked.cpp:70-175 | receiving keeps the invariant of a chunked transfer and takes nothing back, before and after the hand-over |
| Transfer.DeliverInv | source/spx_client.cpp:377-429 | delivering keeps it, and closes only a completed transfer or the pipe of a body that was cut |
| Transfer.Conservation | source/spx_client.cpp:269-500 | limit up to 2^64 - 2^32, Content-Length absent or above it: under every interleaving of reads, deliveries and the end of the response, delivered bytes are a prefix of the decoded ones, decoding is that of the received pieces alone, and closing happens only with everything delivered after the last chunk, or for the pipe of a body that was cut and skipped |
| Transfer.DoneWhenDrained | source/spx_client.cpp:377-395 | the delivery that empties the queue of a decoded body closes the transfer, no other does |
| KnownLength.LengthReceive | source/spx_client.cpp:206-215 | a body takes exactly its bytes from the wire, in any split, and leaves the rest, when an `int` can count the body or what is received at once |
| KnownLength.LengthDeliver | source/spx_client.cpp:396-410 | the delivery of the last byte, and only that, closes the transfer |
| KnownLength.LengthConservation | source/spx_client.cpp:206-429 | Content-Length or every piece below 2^31: under every interleaving exactly the first bytes received, up to that length, are the body, the rest waits, and closing happens only with everything delivered |
| KnownLength.LengthIff | source/spx_client.cpp:206-429 | the counts are right on every run with pieces of at most `m` bytes, iff the Content-Length or `m` is below 2^31; the run that fails is 2^31 bytes waiting behind the header |
| KnownLength.CgiLengthUnlimited | source/spx_client.cpp:191-199 | a CGI body of known length above the limit is received and delivered in full |
| KnownLength.LengthCompleteIff | source/spx_client.cpp:206-215 | a body received at once completes iff an `int` can count it |
| KnownLength.LengthCompletes | source/spx_client.cpp:396-429 | when all bytes of the body have been received, deliveries that add up to what is left close the transfer with all of them delivered |
| Closing.EndToEnd | source/spx_client.cpp:269-429 | a printed body within its limit and shorter than a Content-Length told besides, received and delivered in any interleaving, arrives exactly, the suffix stays on the wire, and a closed transfer has delivered all |
| Closing.Completes | source/spx_client.cpp:377-429 | when all of a printed body has been received, deliveries that add up to what is left close the transfer with all of it delivered |
| Closing.CutNeverCloses | source/spx_cgi_chunked.cpp:111-119 | an upload over its limit is never closed as done; nor is a CGI request unless the wrapped total can be a count of delivered bytes |
| Closing.ConfusedCloses | source/spx_client.cpp:412-429 | when it can, a run closes the pipe of a CGI request after that many bytes, fewer than the body has |
| Closing.CutIff | source/spx_cgi_chunked.cpp:131-175 | a printed body sent to a CGI process, with any limit and Content-Length: no run closes the pipe before all of it is delivered, iff neither the Content-Length nor the wrapped total can be a count of delivered bytes before that |
| Closing.EarlyCutCloses | source/spx_client.cpp:412-429 | a Content-Length that what passes the limit reaches has a run that closes the pipe there |
| Closing.CutLimitIff | source/spx_cgi_chunked.cpp:131-175 | that holds of all printed bodies iff the limit is at least 2^64 - 3 and the Content-Length at least 2^64 - 2 |
| Closing.CarryCloses | source/spx_cgi_chunked.cpp:93-103 | a limit above 2^64 - 2^32 has a run that closes the transfer with decoded bytes undelivered |
| Closing.EarlyCloses | source/spx_client.cpp:412-429 | a Content-Length up to the limit has a run that closes the pipe of a chunked CGI request before the last chunk |
| Closing.UploadCloseIff | source/spx_client.cpp:377-395 | no run closes a chunked upload before all of the body is delivered, iff the limit is at most 2^64 - 2^32 |
| Closing.EarlyCloseIff | source/spx_client.cpp:412-429 | no run closes the pipe of a chunked CGI request whose body was not cut before all of it is delivered, iff the limit is at most 2^64 - 2^32 and the Content-Length absent or above it |
| Unframed.NothingDelivered | source/spx_req_res_field.cpp:117-121 | an upload with neither header: on no run is a byte delivered, and a write event finds it done iff what has been received ends a body of no bytes |
| Unframed.PrintedUnframed | source/spx_client.cpp:396-408 | a printed body sent that way is decoded exactly, never delivered, and taken for done iff it is empty |
| Clients.TakeMany | source/spx_cgi_chunked.cpp:26-31 | moving a whole stretch of data is taking it byte by byte |
| Clients.Client.constructor | source/spx_req_res_field.cpp:28-43 | a new connection is the start state of the machine, with disjoint empty queues |
| Clients.Client.CanParseChnkd | source/spx_cgi_chunked.cpp:24-43 | consumes a stretch of one call of the decoder, or ends the call |
| Clients.Client.TakeSizeLine | source/spx_cgi_chunked.cpp:93-128 | a size line does what the machine does with it, the errors 400 and 413 included; an accepted one leaves the header alone |
| Clients.Client.ChunkedBody | source/spx_cgi_chunked.cpp:70-129 | on the segmented queues one call does exactly what `Chunked.Call` does on flat bytes, and answers true iff the body is complete |
| Clients.Client.CrlfFirst | source/spx_cgi_chunked.cpp:53-56 | two searches without bound recognise CR LF in front exactly |
| Clients.Client.CanParseChnkdSkip | source/spx_cgi_chunked.cpp:45-68 | the same for the skipper, which waits for the response and demands CR LF |
| Clients.Client.SkipChunkedBody | source/spx_cgi_chunked.cpp:131-175 | one call of the skipper is `Chunked.Call` on flat bytes |
| Clients.Client.StateReqBody | source/spx_client.cpp:206-215 | moves a known-length body between the queues as `Transfer.LengthPoll` says, conversions included |
| Clients.Client.BodyController | source/spx_client.cpp:269-314 | the dispatch by body state on real queues is that of the transfer, keeps which queue holds what, and leaves the blocks of others alone |
| Clients.Client.ReadToClientBuffer | source/spx_client.cpp:337-348 | a read event is `Transfer.Receive` of the bytes read; a failed read changes nothing; pool and queues are ready for the next event |
| Clients.Client.WriteChunked | source/spx_client.cpp:381-395 | a write event of a chunked upload is `Transfer.Deliver`; a failed one changes nothing |
| Clients.Client.WritePlain | source/spx_client.cpp:396-410 | the queue of the file loses exactly the bytes the file gets, and the transfer is closed iff that queue is empty and the count has reached the length; this is `Transfer.Deliver` |
| Clients.Client.WriteToCgi | source/spx_client.cpp:412-429 | the same for the CGI pipe |
| Clients.Client.ResponseWritten | source/spx_client.cpp:432-500 | the end of the response while a body is skipped is `Chunked.Answer`: the flag and one dispatch |
| Clients.Client.PartWritten | source/spx_kqueue_module.cpp:163-169 | a part of the response dispatches the bytes that wait, unless the request is on hold |
| Clients.Client.Handle | source/spx_kqueue_module.cpp:134-179 | one event of the loop is exactly the event of the transfer that it stands for, none for a failed read or write; a write on an open file or pipe moves exactly the bytes taken from the front of its queue to it; the connection is ready for the next |
| Clients.Client.Serve | source/spx_kqueue_module.cpp:134-179 | any sequence of reads, writes, failures, parts of the response and its end is the run of the transfer with these events one by one, up to the end of the request or the first that the kernel cannot answer |
| Clients.Client.Upload | source/spx_req_res_field.cpp:102-135 | an upload from its header on, chunked, of known length or with neither header: the run from that start with the bytes behind the header and then the events one by one |
| Clients.Client.Uploaded | source/spx_client.cpp:377-395 | a chunked upload with a limit up to 2^64 - 2^32 that is closed holds exactly the decoded body |
| Clients.Client.UploadedLength | source/spx_client.cpp:396-410 | a closed upload of known length holds exactly the first bytes read, up to that length |
| Clients.Client.UploadedNothing | source/spx_client.cpp:396-410 | an upload with neither header holds nothing |
| Clients.Client.UploadCompletes | source/spx_client.cpp:377-395 | a printed body within its limit, read in any pieces with any writes in between, and then writes that add up to the rest: the file is closed and holds exactly the body |
| Clients.Client.UploadLengthCompletes | source/spx_client.cpp:396-410 | the same for a body of known length |
| Clients.EventsBring | source/spx_client.cpp:337-348 | the bytes that the run receives are the bytes read, in order |
| Clients.Client.ErrorKeepAlive | source/spx_client.cpp:165-177 | an error reply to POST or PUT consumes nothing, changes state, reply and `_body_size` only, and selects how the rest of the body is skipped |
| Clients.Client.ResForPostPut | source/spx_req_res_field.cpp:102-135 | sets up the body by header and limit and starts the right transfer; without a file, or over the limit, the whole state it leaves is given |
| StartLine.Check | source/spx_syntax_checker.cpp:29-183 | accepts exactly METHOD SP URI SP HTTP/1.1 of at most 8192 bytes, URI beginning with a slash and visible |
| StartLine.RequestLineCheck | source/spx_client.cpp:35-49 | accepts exactly `GET`, `PUT`, `POST`, `HEAD` or `DELETE`, a space, a URI of visible bytes beginning with a slash, and ` HTTP/1.1`, in at most 8192 bytes, and gives that method and that URI |
| StartLine.PrintedAs | source/spx_syntax_checker.cpp:76-83 | the five methods and the version letter by letter |
| StartLine.SpacesOf | source/spx_client.cpp:38-41 | first and last space of a printed line delimit exactly the URI |
| StartLine.PrintInjective | source/spx_client.cpp:35-43 | a request line is printed from one method and one URI only |
| Heads.HeadReader.RequestLineParser | source/spx_client.cpp:51-67 | skips empty lines, takes one request line, and waits without consuming when there is none |
| Heads.HeadReader.HeaderFieldParser | source/spx_client.cpp:69-118 | on the segmented queue reads the fields `Heads.Parse` reads on flat bytes, names and Transfer-Encoding in small letters |
| Heads.HeadReader.HeadController | source/spx_client.cpp:217-235 | the two parsers in sequence are one `Parse` |
| Heads.StorePrinted | source/spx_client.cpp:83-95 | a field printed with its name in any case and any white space before the value is stored under the name in small letters, without the white space |
| Heads.StoreIgnores | source/spx_client.cpp:82-95 | a line without a colon is ignored |
| Heads.LowerTable | source/spx_client.cpp:83-87 | the letters A to Z become a to z, one by one, and all other bytes stay |
| Heads.Fragmentation | source/spx_client.cpp:51-101 | reading a head on `a` and then on `b` is reading it on `a + b`, malformed heads included |
| Heads.ArriveAtOnce | source/spx_client.cpp:51-101 | one call per piece is one call on the concatenation |
| Heads.BareLfBlocks | source/spx_client.cpp:55-62 | a request line ending in LF alone is never consumed, whatever follows |
| Heads.EmptyLinesSkipped | source/spx_client.cpp:55-62 | an empty line before the request line makes no difference |
| Heads.RequestLineDecides | source/spx_client.cpp:35-49 | a line that is no request line is taken and refused and nothing behind it is read; any other selects its method and URI |
| Heads.FieldsEnd | source/spx_client.cpp:74-101 | the fields end behind an empty line or before a line ending in LF alone, nowhere else |
| Heads.HeadRoundTrip | source/spx_client.cpp:35-118 | a printed request line and field list, names in any case, in any split, come back, up to the case of a Transfer-Encoding value, and the body stays on the wire |
| Heads.FieldComesBack | source/spx_client.cpp:83-111 | the last field of a name, in any case, is found under the name in small letters with its value; only the value of Transfer-Encoding has its letters made small |
| Heads.NothingElse | source/spx_client.cpp:83-95 | no field is there that was not sent |
| Requests.WholeRequest | source/spx_client.cpp:217-314 | a printed request line, fields that ask for chunked coding, a printed body and a suffix on one wire, in any split and interleaving: the head comes back, the body is decoded exactly, the suffix stays, and closing happens only with all of the body delivered |
| Requests.CodedIff | source/spx_client.cpp:106-114 | the fields ask for chunked coding iff `chunked` lies in the last Transfer-Encoding field, name and value in any case |
| Requests.NotCoded | source/spx_client.cpp:106-114 | without such a field they do not |
| Requests.PlainHead | source/spx_client.cpp:217-235 | a printed head without such a field, in any split and interleaving, comes back, and all that follows stays on the wire |
| Requests.NextRequest | source/spx_client.cpp:219-235 | a request printed in that suffix is read next |
| Paths.PathResolve | source/spx_port_info.cpp:337-366 | the result is exactly what the path stands for |
| Paths.ResolveIff | source/spx_port_info.cpp:337-366 | the result is exactly: for a percent sign and two digits, each in either case, the byte they spell; for a run of slashes one slash; for any other byte itself |
| Paths.EncodeEncodes | source/spx_port_info.cpp:337-366 | resolving undoes percent-encoding of every byte string, with any bytes but `%` and `/` left plain and the digits of each byte in upper or lower case |
| Paths.ResolvePlain | source/spx_port_info.cpp:342-347 | without percent signs resolving is collapsing runs of slashes |
| Paths.ResolveIdempotent | source/spx_port_info.cpp:337-366 | without percent signs the result has no double slash and resolving again changes nothing |
| Paths.ResolveCollapsed | source/spx_port_info.cpp:342-347 | collapsing slashes first makes no difference |
| Resolver.MainState | source/spx_port_info.cpp:125-166 | selects the location of the first segment, or that of the root; throws iff its CGI program has no extension |
| Resolver.DepthState | source/spx_port_info.cpp:200-223 | a further segment is stored in script or path information and nothing is lost |
| Resolver.CgiState | source/spx_port_info.cpp:225-253 | an extension selects a CGI iff none was found, and nothing is lost |
| Resolver.Delimit | source/spx_port_info.cpp:168-198 | the delimiter decides the part of the URI that follows |
| Resolver.QueryState | source/spx_port_info.cpp:255-262 | the query is what lies between the first `?` and the next `#` |
| Resolver.FragmentState | source/spx_port_info.cpp:264-271 | the fragment is what follows the first `#` |
| Resolver.SegmentSkips | source/spx_port_info.cpp:200-253 | a component selects a CGI by its last extension alone |
| Resolver.Decompose | source/spx_port_info.cpp:120-271 | stops on every URI by (remaining bytes, rank of state); on a valid one the matched key, script and path information are the path up to collapsing, split behind the first component with a CGI extension; the CGI flag holds exactly when the CGI pointer is set |
| Resolver.ChooseLocation | source/spx_port_info.cpp:273-285 | no location iff nothing matched a URI with further segments, and then no CGI; a CGI flag comes with a CGI location |
| Resolver.GetUriLocation | source/spx_port_info.cpp:77-335 | the result, field by field: index file for GET and HEAD, upload directory for POST and PUT, on a matched URI without extension and CGI; the CGI program and its interpreter; the CGI of an extension; NULL is never CGI; every dereferenced CGI pointer is set |
| Resolver.NameComesBack | source/spx_port_info.cpp:286-287 | the script name without an index is what the path up to its end resolves to, percent signs and all |
| UriParts.PartsComeBack | source/spx_port_info.cpp:168-271 | path, query and fragment of a URI put together from them |
| UriParts.FirstSegmentSelects | source/spx_port_info.cpp:125-141 | which location a URI put together from slashes, a segment and more belongs to |
| UriParts.ExtensionSelects | source/spx_port_info.cpp:230-241 | a component selects the CGI of what follows its last dot |
| UriParts.NoDotSelectsNothing | source/spx_port_info.cpp:230-231 | a component without a dot selects none |
| UriParts.ComponentDecides | source/spx_port_info.cpp:200-253 | the first component that selects one decides and ends the script |
| Resolver.PathComesBack | source/spx_port_info.cpp:286-318 | without percent signs the resolved script name is the path up to the end of the script, and with the path information the whole path, up to slash collapsing |
| Resolver.FileBeginsWithRoot | source/spx_port_info.cpp:286-318 | for a location root without percent signs: whatever the URI encodes, the path of the file opened and the translated path begin with the collapsed root of the selected location |
| Resolver.FileClimbsIff | source/spx_port_info.cpp:286-300 | the path of the file opened has a component `..` iff the root followed by the decoded script has one, or with an index the name decoded twice |
| Paths.ResolveClimbs | source/spx_port_info.cpp:337-366 | resolving neither makes nor removes a component `..` of the decoded path |
| Paths.ClimbsIff | source/spx_port_info.cpp:337-366 | what a component `..` is, by its place |
| Config.ParseListen | source/spx_parse_config.cpp:405-464 | an argument of less than 256 bytes is accepted iff it is a decimal numeral of one to five digits for 1 to 65535, with or without `localhost:` or `127.0.0.1:` before it |
| Config.ListenIff | source/spx_parse_config.cpp:411-446 | of the arguments of one length exactly those that spell a port from 1 to 65535 are accepted, iff the eight-bit counter does not take that length for a shorter valid one |
| Config.Parser.CommitServer | source/spx_parse_config.cpp:144-195 | accepts a block iff its root location, directory, name and default flag allow it; keeps one default per port and keys that agree with names and ports; a refused block changes nothing |
| Config.DefaultUnique | source/spx_parse_config.cpp:160-164 | the default server of a port is unique |
| Config.FindDefault | source/spx_port_info.cpp:563-570 | finds a default server iff there is one |
| Config.BuildPortInfo | source/spx_port_info.cpp:554-624 | with increasing descriptors, entry `i` carries descriptor `i` iff `i` is a listener, and belongs to its port |
| Config.SearchServerConfig | source/spx_port_info.cpp:545-552 | the server of that name or the default; when the entry is well formed, a server of its port |
| Config.LookupStaysOnPort | source/spx_port_info.cpp:545-552 | every host name is served by a server of the port it came in on: its own, or the one default |

## Left out

- `kqueue` itself (the events of a connection with a body come as any sequence, to `Clients.Client.Serve`), sockets, `accept`, `fork`, `execve`, signals and `kevent` registrations: foreign calls; the answers of `readv`, `writev`, `open`, `opendir` and of opening a file are parameters of the methods.
- Response building, MIME and status tables, error pages, autoindex, cookies and sessions, the CGI environment and the parsing of CGI output: string assembly.
- `make_response_header_` may change the state of the connection when it closes one; the model keeps the state the transfer gave it.
- `REQ_SKIP_BODY`: `_skip_size` is not set on every path that enters this state, so nothing about the position on the wire holds there; the model enters the state and stops.
- `set_uri_info_and_cookie_`: the choice of the server by the Host field is `Config.SearchServerConfig`; the rest of it is string plumbing.
- The state that an error reply gives a connection whose request line or fields were refused, and GET, HEAD and DELETE requests with a body.
- The configuration tokens other than `listen` and the end of a server block. That a server has a location for `/` is a precondition of the resolver, because the parser does not guarantee it.
- `spx_http_syntax_header_line` and `spx_chunked_syntax_data_line`: no live caller.
- The conversion of the Content-Length text by `strtoul`: its result is a parameter, the field `cntLen`.
- The widths of `size_t` counters other than `_body_size`, `_chnkd_size` and those of a body of known length, which wrap as in the source: `_cgi_read` and `_body_read` of a chunked body count delivered bytes and are unbounded here. 2^64 - 1 stands for "not set".
- `ReqField`, `ChunkedField` and `CgiField` are folded into `Client`; `bodyBuf` is `_body_buf` of an upload and `_to_cgi` of a CGI request; one `Descriptor` stands for either end.
- `uri_resolved_t` is returned as a value, and the parse state of the URI machine is a value that the loop replaces.
- Lowercase conversion covers ASCII letters, as in the C locale.
- Clients.Client.WritePlain: the equation with `Transfer.Deliver` is stated for bodies whose bytes all wait in the one queue that their kind uses; `Kinds` is kept by every event.
- Clients.Client.Serve: stops where the request is over. The end of a response whose body is not being skipped resets the connection (spx_client.cpp:462-464), which is not modelled; heads are read by `HeadReader`, and the two are put together in `Requests` on flat bytes.
- Clients.Client.ErrorKeepAlive: the methods POST and PUT, for which bodies are transferred.
- Config.ParseListen: `atoi` beyond the range of `int` is undefined in C; the model takes the mathematical value, which is refused.
