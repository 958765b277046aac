# A verified model of a small threaded HTTP server

A Dafny model of a multithreaded HTTP/1.1 file server written in C (`GET`, `HEAD` and `PUT`),
and of the script that analyses its performance log.

- `Types`, `Helpers`, `StrView`: bytes (as `char`), views, the delimiter scanner, trimming,
  comparison, and decimal printing and parsing in 64-bit words.
- `Parser`: a one-shot reading of a request header from the whole byte stream. It knows nothing of
  buffers and suspensions; it is the specification of the header stages.
- `Response`: the bytes of a response and of a log line, and what a client reads out of them.
- `Kernel`: the operating system as one request sees it. The byte stream, the answers to path
  look-ups, and the outcome of every read and write (some bytes, EAGAIN, end, error) are arbitrary
  constants, so a statement about an `Os` covers every client, file system and schedule.
- `Server`: the request state machine, as a class whose methods update the fields of a request
  record as the C functions do. `EndToEnd` says what a whole request comes to, and `Requests` says it
  byte for byte: these bytes in, these bytes out, this file kept.
- `Queue`: the ring buffer against a sequence. `Pool` and `PoolLiveness`: acceptor and workers as
  an interleaving of atomic steps over the two queues, the semaphore and the term flag.
  `Connections`: what happens to one request record in such a run is one connection after the
  other, each prepared once and called until it is done, which is what `EndToEnd.Serve` does; and
  `Pool.Exclusive` says that nobody else holds the record meanwhile.
- `Log`: the logger called serially. `LogProtocol`, `LogLiveness` and `LogCalls`: any number of
  threads in `log_buf` and `flush_logger`, one lock operation, test, byte or write at a time.
- `Intervals`: the merge of request intervals and the idle time.

A request keeps one invariant per stage (`Inv`), between any two turns and across suspensions. In
the header stages it says that continuing the one-shot parse from the present state is the one-shot
parse from the start; in the body, that the stored file is the prefix of the body received so far;
while sending, that sent and buffered bytes are the header followed by the file up to its offset.

## Where the code falls short of its intent

- `read_hf` checks for room once and does not return when there is none (server.c:264-271). The
  ghost field `crowded` marks it. It cannot happen when at most 2048 bytes can arrive before the
  blank line is consumed (`RoomEnough`), and for any more there is a run in which it does
  (`CrowdedRun`). `CrowdedAnswer` gives the answer in every case: 400, or none at all when a read
  without room is taken for the end of the connection, if the blank line was still to come; else
  what the one-shot parse says, with 400 in place of 200 (`CrowdedGet`). So a `PUT` that creates its
  file is answered 201 although the error was set, and one whose file exists overwrites it and is
  answered 400 (`CrowdedPut`). `Turn` says exactly which turn loses the error.
- `read_hf` also gives each later read the room it found on entry. Its reads stay inside the buffer,
  however they are cut, exactly when no more than 2050 bytes have arrived or the first byte
  completes the line (`StaleRoomExactly`, with a failing stream in `LongFieldOverruns`); the
  preconditions ask for no more than 2050.
- When more of a `PUT` body arrives with the header than was announced, `read_len` wraps
  (server.c:340) and the read fails, so the answer is 500 (`ExcessExactly`, `ExcessRun`). The 400
  of lines 364-368, which test_scripts/my_bad_put.sh asks for, is never produced
  (`TooLongPutFails`), and the guard of line 334 never fires.
- A malformed field name is answered with 400 only where the line has no colon
  (`MalformedNameExactly`, `HeaderRejectedExactly`); with a colon the line is ignored
  (`MalformedNameIgnored`). test_scripts/my_bad_key.sh asks for 400 in two cases, `K 2: val` and
  `: 4000`, and both are accepted (`BadKeysAccepted`, `BadKeyRequests`).
- The fast path of `log_buf` reads the head of the buffer again for each byte, after releasing the
  mutex (log.c:56-58). A record is copied to its own place exactly when no other call makes room
  meanwhile (`UndisturbedExactly`); otherwise bytes can be lost (`OverlapLosesBytes`).
- A signal that arrives when the acceptor is past the last test of `term` in front of an empty free
  queue, and no worker is on its way to give a record back, can leave the program waiting for ever;
  at any other moment it cannot, and every run that stops has joined its workers
  (`SignalHangsExactly`, `HangIsReachable`, `HangIsForever`).

## Preconditions

- The request line does not begin with a space, since `trim_whitespace` is bounded by bytes and not
  by its view; no more than 2050 bytes arrive before the blank line has been consumed; method and
  path leave five bytes of the 500-byte log record.
- Signed 64-bit arithmetic wraps (C leaves its overflow undefined), so a Content-Length that does
  not fit counts as what the word then holds (`LengthField`, `WrappedLengths`).
- A read with a count above SSIZE_MAX fails, as on Linux and macOS (POSIX leaves it open).
- The files a request names are not changed by others while it runs, files are shorter than 2^63
  bytes, reads of a regular file do not report EAGAIN, and a write to a file moves at least a byte
  or fails.
- Each write of the logger takes all it is given.
- Shutdown results need more records than workers; main makes ten for each worker.

## Model

| member | source | states |
|---|---|---|
| Helpers.FindDelim | helpers.c:36-50 | the pointer loop computes the delimiter automaton: a mismatching byte is dropped, not looked at again |
| Helpers.ScanExtends | helpers.c:36-50 | a delimiter found in a prefix is found at the same place when more bytes are appended, which is why a reader may rescan after every read |
| Helpers.ScanBeyond | helpers.c:36-50 | where a prefix holds no delimiter, one that more bytes complete ends behind the prefix |
| Helpers.ScanLocal | helpers.c:36-50 | only the scanned bytes decide the result |
| Helpers.ScanShift | helpers.c:36-50 | the result does not depend on what stands in front of the scanned bytes |
| Helpers.CrlfMeaning | helpers.c:36-50 | with the two-byte line end the result is the end of the first line feed preceded by an odd-length run of carriage returns counted from the start of the scan, and none exactly if there is no such line feed |
| Helpers.CrlfBytes | helpers.c:36-50 | the two bytes in front of the result are carriage return and line feed |
| Helpers.ScanPlainLine | helpers.c:36-50 | a line without a carriage return is found whole |
| Helpers.ScanByte | helpers.c:36-50 | with a one-byte delimiter the result is the end of its first occurrence |
| Helpers.DecValue | helpers.c:15-29 | the printed digits denote the number |
| Helpers.DecCanonical | helpers.c:15-29 | no leading zero, and the length is the least that holds the number |
| Helpers.TwentyDigits | helpers.c:15-29 | any 64-bit value needs at most 20 digits |
| Helpers.EmitDigits | helpers.c:15-22 | the first loop leaves the numeral reversed, and touches nothing else |
| Helpers.ReverseInPlace | helpers.c:23-27 | the in-place exchange reverses exactly the given range |
| Helpers.MyUtoa | helpers.c:15-29 | the buffer holds the canonical decimal of any 64-bit value at the given place, in at most 20 bytes, and is unchanged around it |
| StrView.TrimWhitespace | strview.c:36-50 | the view that is returned holds the trimmed text, and the two sentinel-driven loops never look past the byte that bounds the line |
| StrView.TrimIs | strview.c:36-50 | trimming strips the spaces on both sides of a core and nothing else |
| StrView.TrimSplit | strview.c:36-50 | every text is spaces, its trimmed core, spaces |
| StrView.CompareVs | strview.c:18-27 | the loop computes the sign of the first difference of two texts of unsigned bytes, and 0 exactly for equal texts, which is all the server asks for |
| StrView.CompareEqual | strview.c:18-27 | the comparison is zero exactly on equal strings |
| StrView.CompareOrders | strview.c:18-27 | the first difference decides, and a proper prefix comes first |
| StrView.CompareAntisymmetric | strview.c:18-27 | exchanging the operands negates the result |
| StrView.ParseToInt | strview.c:52-70 | reading backwards with a running power of ten in 64-bit words gives the number, or -1 for anything but digits, and no intermediate value overflows for up to 18 digits |
| StrView.NumberExact | strview.c:52-70 | up to 18 digits the result is the exact value |
| StrView.PrintParse | strview.c:52-70 | printing and then parsing is the identity on every value of a signed 64-bit word |
| StrView.PrintParseInRange | strview.c:52-70 | below 10^18 the way back meets no overflow either |
| StrView.ParsePrint | strview.c:52-70 | parsing and then printing reproduces every canonical numeral of at most 18 digits |
| StrView.FillStr | strview.c:72-82 | the copy is the view and a terminating NUL, and is refused exactly when they do not fit; the rest of the buffer stays |
| Parser.ParseRlOutcome | server.c:148-183 | a request line is accepted with a known method and valid path, or fails with an error status |
| Parser.RequestLineLanguage | server.c:148-183 | a line is accepted exactly when it is method, one space, path, one or more spaces, HTTP/1.1, any spaces (a subset of section 3 of RFC 9112), and its method and path are then the ones read |
| Parser.ParseRendered | server.c:148-183 | parsing a printed triple gives the triple back |
| Parser.RefusedLineExactly | server.c:94-183 | a line outside the grammar fails with 501 exactly if it starts with another word of at most eight letters, and with 400 otherwise |
| Parser.ValidPathExactly | server.c:48-80 | a path is a slash and a name of letters, digits, dots, dashes and underscores, and the slash is dropped to find the file |
| Parser.ParseHfOutcome | server.c:239-260 | a field keeps the request line, and the status unless it ends the header with an error |
| Parser.NoNumberRejected | server.c:248-256 | a Content-Length that holds nothing, or anything but digits, is answered with 400 |
| Parser.RequestIdRead | server.c:257-259 | RequestID sets the id to the value without the spaces around it |
| Parser.NextLineExtends | server.c:207-233 | a complete line is the same line in a longer stream |
| Parser.OneShotExtends | server.c:207-301 | the header parse of a stream can be resumed from the parse of any prefix, and is not changed by bytes behind the header |
| Parser.LinesRoundTrip | server.c:263-301 | reading back any list of lines, single carriage returns and line feeds in them included, applies them in order: the last Content-Length and RequestID win, a rejected line ends the header |
| Parser.ParseHfRendered | server.c:239-260 | a rendered field is read as its name, up to the first colon, and its value |
| Parser.RenderParse | server.c:207-301 | reading back a whole rendered header of any such lines, whatever body follows, gives the request that was rendered, and the body starts right behind it |
| Parser.LineRejectedExactly | server.c:239-260 | a field line is rejected, with 400, exactly if it has no colon or is a Content-Length whose value is not a number or wraps to a negative one |
| Parser.LengthField | server.c:248-256 | a Content-Length of digits counts as what a signed 64-bit word makes of them, and is rejected exactly if that is negative |
| Parser.WrappedLengths | server.c:248-256 | 2^63 is rejected, 2^64 is taken for 0 |
| Parser.MalformedNameExactly | server.c:240-246 | a name that is no token (section 5.6.2 of RFC 9110) is rejected exactly where the line has no colon; with one the line changes nothing |
| Parser.BadKeysAccepted | server.c:240-246 | two malformed names that are accepted: an empty one, and one with a space |
| Parser.HeaderRejectedExactly | server.c:207-301 | over a whole header of any lines the scanner reads as lines: 400 exactly if one has no colon or is a Content-Length with such a value, or if the path of a GET or HEAD is too long |
| Parser.MalformedNameIgnored | server.c:207-301 | a whole request with a malformed name and a colon in some line is read as if that line were not there |
| Parser.BadKeyRequests | server.c:239-260 | the two requests of the repository's own test for malformed names are not answered with 400 |
| Parser.OpenFailureIsError | server.c:110-145 | opening a file for GET or HEAD fails only with error statuses |
| Response.HeaderFits | server.c:443-475 | for every method, status and file size the built header is at most 100 bytes, so no copy into the 2050-byte buffer is cut |
| Response.DeclaredLength | server.c:450-475 | for every method and status that is answered, the announced length equals the number of bytes sent behind the blank line, except that HEAD with status OK announces the file and sends nothing |
| Response.FullResponseFramed | server.c:443-475 | the same over the bytes of the answer, as a client reads its lines |
| Response.ReplyExactly | server.c:405-475 | every answer without a file, byte for byte |
| Response.FileReplyExactly | server.c:443-460 | the answer to GET and HEAD with a file, byte for byte |
| Response.LogRecordExactly | server.c:536-554 | the log record, byte for byte, cut at 500 |
| Response.ClientReads | server.c:443-475 | a client scanning lines finds status line, length line and blank line, and then exactly the body |
| Response.ClientDecodesLength | server.c:450-460 | the client parses the announced number back (section 6.2 of RFC 9112) |
| Kernel.Os.ReadSocket | server.c:192-205 | an oracle driven by the schedule: as many of the bytes that have arrived as it offers, in stream order, or again, end or error; an EAGAIN event is reported as again and is no failure, and again is said only then or when nothing has arrived |
| Kernel.Os.ReadFile | server.c:192-205 | an oracle for the regular file: the next bytes from the file's offset, or end exactly at its end |
| Kernel.Os.WriteFile | server.c:369-378 | an oracle: any non-empty part of the bytes offered is appended to the file, or the write fails |
| Kernel.Os.Close | server.c:556-563 | only an open descriptor may be closed, and it is then no longer open |
| Server.State.ValidateMethod | server.c:82-92 | true exactly for at most eight letters |
| Server.State.ValidatePath | server.c:67-80 | true exactly for a slash followed by one or more path characters |
| Server.State.ValidateProto | server.c:56-65 | true exactly for HTTP/1.1 |
| Server.State.GetMethod | server.c:94-107 | the method of the one-shot parse, and the status for an unknown one |
| Server.State.TakeWord | server.c:150-156 | the scan and trim of the first word find exactly the text in front of the first space |
| Server.State.WordEnd | server.c:150-156 | the scan for a space ends one byte behind the word, and trimming gives the word back |
| Server.State.ParseRequestLine | server.c:148-183 | the request state after the line is the one-shot parse of that line |
| Server.State.ReadRl | server.c:207-237 | whatever each read returns, the state stays on the way to the one-shot parse of the whole stream, and equals it where the header ends here; it suspends only at EAGAIN or when everything has arrived and the request is incomplete; the bad-request exit for a full buffer is taken exactly when the buffer holds no line and is full |
| Server.State.AwaitRequestLine | server.c:208-232 | the read loop delivers the request line, or suspends or leaves for one of these reasons |
| Server.State.Unsent | server.c:207-301 | who waits for a line after everything has arrived waits for an unfinished request |
| Server.State.ParseHeaderField | server.c:239-260 | the request state after the field is the one-shot parse of that field, a missing colon included |
| Server.State.SetField | server.c:248-259 | Content-Length sets the length or fails, RequestID sets the id, other names change nothing |
| Server.State.OpenGetFile | server.c:110-145 | the file is opened, at its start, exactly when the path fits and names a readable regular file; otherwise the status says why and nothing is open |
| Server.State.CheckRoom | server.c:264-268 | the check sets the error exactly when fewer than two bytes are free, and the reader goes on all the same |
| Server.State.AwaitLine | server.c:269-286 | over any sequence of reads the loop delivers the next line of the stream, or leaves with the request still resumable or ended |
| Server.State.ReadHf | server.c:263-301 | one line of the header: the rest of the one-shot parse from here stays the one-shot parse from the start, and where the header ends, with room and without failure, the state is the one-shot parse, next stage and body length included; another turn has consumed a line; it suspends only at EAGAIN or for want of bytes the client has not sent |
| Server.State.BlankLineStep | server.c:288-297 | the blank line opens the file of a GET or HEAD or begins the body, as the one-shot parse says, even though the stage is overwritten after a failed open |
| Server.State.CreateFilename | server.c:303-321 | the file is truncated or created exactly when the path fits and the kernel allows it, with the status that says so, and is empty then |
| Server.State.EnsureFile | server.c:341-346 | the file is opened once, in the first round of the body; creating it sets 201, whatever the status was |
| Server.State.CopyLeftover | server.c:326-332 | the scratch buffer holds the unparsed bytes |
| Server.State.ReadBodyBytes | server.c:347-363 | what is read follows what is held in the stream; a length that wrapped below zero makes the read fail |
| Server.State.Deposit | server.c:369-378 | through any partial writes the file is the first Content-Length minus body_len bytes of the body, and everything held is stored |
| Server.State.DrawBody | server.c:347-368 | what is held after the read never exceeds the announced length, so the guard of lines 364-368 never answers; too many bytes make the read fail instead |
| Server.State.StoreBody | server.c:369-384 | everything held is stored, body_len reaches 0 exactly, and the header is built only then |
| Server.State.ReadRequestBody | server.c:325-385 | every round, suspended or not, keeps the file a prefix of the body, draws nothing behind the announced length, and shrinks body_len if it asks for another round; it suspends only at EAGAIN or when the client has not sent the body; it never answers 400 of its own, so the guards of lines 334 and 364 are dead |
| Server.State.CopyTo | server.c:395-400 | as much of the text as the length allows is appended |
| Server.State.CopyCode | server.c:407-414 | three digits and a space are appended |
| Server.State.BuildResponseRequestLine | server.c:443-448 | the buffer holds the whole status line |
| Server.State.BuildResponseHeaderFields | server.c:450-460 | the length line of the file or of the static body is appended whole, and the file is back at its start |
| Server.State.AddStaticBody | server.c:462-466 | the status name and a line feed are appended whole |
| Server.State.BuildHeader | server.c:468-475 | the buffer holds exactly the header the client will read, nothing has been sent, and the invariant of sending holds |
| Server.State.SendSome | server.c:500-511 | sent bytes followed by buffered bytes stay the same over one partial write |
| Server.State.SendRes | server.c:499-520 | over any partial writes and suspensions the sent bytes only grow; it suspends only at EAGAIN, and on leaving the buffer is empty or the request is finished |
| Server.State.ReadGetBody | server.c:478-497 | a successful GET has its file open, so the assertion of line 483 holds; the next piece of the file follows the bytes already sent, and a successful round leaves less of the file |
| Server.State.PullFile | server.c:484-489 | sent and buffered bytes together are the header and the file up to its offset |
| Server.State.CopyViewTo | server.c:526-534 | as much of the view as fits is appended |
| Server.State.FillRecord | server.c:536-551 | the record is method, path, status and id (0 without one), cut at the size of its buffer |
| Server.State.SendLog | server.c:536-554 | the log gains exactly that record and a line feed |
| Server.State.Cleanup | server.c:556-563 | every file that is open is closed, once |
| Server.State.constructor | server.c:639-651 | request and response buffers are separate and of 2050 bytes |
| Server.State.InitParserState | server.c:615-637 | a record, whatever it held, starts in the invariant of the header stages, with SEND_HEADER out of reach |
| Server.State.Turn | server.c:565-611 | every stage keeps its invariant, never goes back a phase, and if it asks for another turn has come closer to the end in the lexicographic measure; without a failure an error becomes a success exactly when a PUT whose reader was short of room creates its file and no more of the body has arrived than was announced; an error of a read or write before the answer leads to 500, the end of the connection, and an error while answering, to FINISHED |
| Server.State.HandleRequest | server.c:565-613 | every call returns; it returns false only at an EAGAIN or when everything has arrived and the request is incomplete, and the record alone then carries the request on; when it returns true all files are closed, one log record was written and the response is settled; a schedule of partial transfers and EAGAINs, in any order, never makes it fail |
| Server.State.Finish | server.c:602-607 | the finishing stage logs once and closes every file that was opened |
| EndToEnd.Serve | server.c:565-637 | a connection served in any number of calls keeps the invariant between them; a whole request under a schedule with at most k EAGAINs is done after k+1 calls; and whenever it is done after partial reads, partial writes and EAGAINs in any order, with at most 2048 bytes before the blank line, the bytes sent are exactly the response to the one-shot parse of the client's bytes, they are framed as they announce, a PUT has stored its body, and one log record was written |
| EndToEnd.RoomEnough | server.c:207-301 | when at most 2048 bytes can arrive before the blank line is consumed, no schedule leaves a reader short of room |
| EndToEnd.CrowdedRun | server.c:263-301 | the bound is exact: for every whole request that deserves a success and any more such bytes, a run in which the reader is short of room and the status is not 200 |
| EndToEnd.RunEagerly | server.c:565-613 | under a schedule that moves as much as it can, a whole request is done in one call, without a failure |
| EndToEnd.CrowdedAnswer | server.c:264-317 | the exact answer to a request whose reader was short of room; the error that was set is lost exactly when the blank line was read and the file of a PUT was created |
| EndToEnd.CrowdedGet | server.c:264-294 | a concrete request: the one-shot parse says 200, the answer sent is 400 |
| EndToEnd.CrowdedPut | server.c:264-317 | a concrete request: 201 although the error was set, or 400 although the file was emptied |
| EndToEnd.StaleRoomExactly | server.c:264-286 | the reads of one call of read_hf, each given the room found on entry, stay inside the buffer however they are cut exactly when no more than 2050 bytes have arrived or the first byte completes the line |
| EndToEnd.LongFieldOverruns | server.c:264-286 | a concrete stream and a cut of it whose reads end outside the buffer |
| EndToEnd.AnswersOutcome | server.c:565-613 | the same answer for every finished request that met no failure and was not short of room, whatever the rest of the schedule holds |
| EndToEnd.AnswerFramed | server.c:443-475 | in the bytes sent, the number on the length line is the number of bytes behind the blank line, but for HEAD with 200, which announces the file |
| Requests.ServeFile | server.c:110-145 | GET and HEAD byte for byte, for any name and sound header lines under any ordinary schedule: 200 with the file, which HEAD announces and does not send, 404 for a missing file, 403 for any other failure, 400 for a name of 299 bytes or more; and the log record |
| Requests.ServePut | server.c:303-385 | PUT byte for byte: the file is exactly the body, and 201 or 200 is sent; 403 when it cannot be opened, 500 for a name of 299 bytes or more |
| Requests.ServeRefused | server.c:94-183 | a first line outside the grammar is answered with 501 exactly if it starts with another word of at most eight letters, and with 400 otherwise |
| Requests.ServeBadHeader | server.c:239-260 | a header with a line that has no colon, or a length that is no number, is answered with 400 |
| Requests.GrammarExactly | server.c:148-183 | the accepted lines, written out: one of GET, PUT and HEAD, one space, a slash and a name, spaces, HTTP/1.1, spaces |
| Requests.LastIdCounts | server.c:257-259 | the id that is logged is the last RequestID, without the spaces around it |
| EndToEnd.GetEndToEnd | server.c:478-520 | for every file and every schedule of partial reads, partial writes and EAGAINs, a GET that is done has sent the 200 header announcing the file's length and then the whole file, nothing lost, repeated or reordered |
| EndToEnd.PutEndToEnd | server.c:325-385 | for every such schedule, after a PUT that is done the file is exactly the first Content-Length bytes of the body, none behind them were drawn, and 200 or 201 was sent |
| EndToEnd.NoExcess | server.c:339-368 | when no more than the announced body can arrive before the blank line is consumed, no run has an excess |
| EndToEnd.ScheduleIndependence | server.c:207-301 | the same bytes served twice, under any two such schedules: same method, path, id and status, same bytes sent, same file stored, same log record |
| EndToEnd.SameAnswer | server.c:207-385 | the same for any two finished runs without failure or want of room, and even with an excess if it comes about in both |
| EndToEnd.CrowdedExactly | server.c:264-271 | a request that deserves a 200 gets it exactly when no reader was short of room, and 400, if an answer, otherwise |
| EndToEnd.ExcessExactly | server.c:339-368 | a finished PUT that could be stored succeeded exactly when no more of the body had arrived with the header than was announced; otherwise 500 was sent, not the 400 that lines 364-368 are meant for |
| EndToEnd.ExcessRun | server.c:339-368 | for every such PUT of which more can arrive early, a run that sends the 500 |
| EndToEnd.TooLongPutFails | server.c:339-368 | a run on a concrete request that shows it |
| Queue.Wrap | queue.c:59-61 | one step round the ring comes to the next slot or to the first |
| Queue.Queue.constructor | queue.c:23-45 | an empty queue of the given capacity |
| Queue.Queue.Push | queue.c:77-90 | the element goes to the back of the sequence, through every wrap-around |
| Queue.Queue.Pop | queue.c:94-107 | the element comes from the front of the sequence |
| Queue.Replay | queue.c:59-107 | over any sequence of calls that never has to wait, what is taken is a prefix of what was put, in order, and the rest is still there: an unbounded FIFO cut at the capacity |
| Queue.FillFree | httpserver.c:159-163 | the free queue starts with every record once, in order |
| Pool.StepKeeps | httpserver.c:69-88 | every step of every thread keeps the invariant: conservation, semaphore accounting, coverage of workers past the term check, no lost wakeup, valid descriptors |
| Pool.StartKeeps | httpserver.c:157-170 | main enters its loop in the invariant |
| Pool.RunKeeps | httpserver.c:58-215 | every reachable state, for any number of workers and records, satisfies it |
| Pool.EachRecordInOnePlace | httpserver.c:69-88 | in every reachable state each record is in exactly one of free queue, jobs, acceptor's hand or a worker's hand |
| Pool.SemaphoreAccounts | httpserver.c:71-86 | before shutdown the semaphore plus the workers between sem_wait and their pop equal the queued jobs plus the posts whose push is pending |
| Pool.NoLostWakeup | queue.c:77-107 | a worker sleeps only while there are no more jobs than workers woken and not yet through, though every operation signals one waiter on a shared condition variable |
| Pool.Exclusive | server.c:639-653 | in every reachable state a worker's record is in no queue and no other hand, has a descriptor, and its 2050-byte slice overlaps no other worker's |
| Pool.WorkersNeverWaitToPush | httpserver.c:76-87 | a worker's push always finds room, and the branch that drops a job without descriptor is never taken |
| Pool.AcceptorNeverWaitsToPush | httpserver.c:211-214 | the acceptor's push always finds room |
| Pool.EmptyQueueHasPusher | httpserver.c:71-86 | while a worker waits on empty jobs, some thread is about to push and can |
| PoolLiveness.FindStep | httpserver.c:69-223 | unless the joins are done or the program hangs in the free queue, some thread can take a step of its own |
| PoolLiveness.StuckExactly | httpserver.c:69-223 | the pool stops exactly when the joins are done, or when the acceptor waits for a free record and all workers have left; never before the signal |
| PoolLiveness.OneStep | httpserver.c:71-88 | after the signal every step but a spurious wakeup brings the pool closer to its end |
| PoolLiveness.ShutdownCompletes | httpserver.c:208-223 | once the acceptor has left its loop, for any number of workers and requests in flight, every run is of bounded length but for spurious wakeups, and ends with all workers gone and every join done |
| PoolLiveness.SignalStops | httpserver.c:183-223 | after the signal alone every run is bounded and ends with the joins done or in the hang |
| PoolLiveness.HangExactly | httpserver.c:183-223 | once term is set the program can hang exactly if the acceptor is past the test of term in front of an empty free queue and no worker is on its way to give a record back |
| PoolLiveness.SignalHangsExactly | httpserver.c:183-223 | the same at the moment of the signal: otherwise every run that cannot go on has joined every worker |
| PoolLiveness.DoomedHangs | httpserver.c:202-210 | from such a state a run leads into the hang |
| PoolLiveness.SafeForever | httpserver.c:183-215 | from any other state no run gets into such a state |
| PoolLiveness.HangIsReachable | httpserver.c:202-210 | there is a run of the default single worker that ends in the hang |
| PoolLiveness.HangIsForever | httpserver.c:202-210 | no run leaves it: the acceptor stays at the empty free queue and no worker comes back |
| Connections.StepTrace | httpserver.c:69-88 | a step of the pool prepares only a record without a connection, calls handle_request only with the connection a record was prepared for, and ends it only when the call is done |
| Connections.EveryRecordConverses | httpserver.c:69-88 | in every run of the pool, what happens to a record is a sequence of conversations, each what serving one connection is: prepared once, called with its descriptor until a call is done, then prepared anew |
| Connections.EveryConnectionDispatched | httpserver.c:183-215 | in every run the descriptors for which records are prepared are, in order, those that accept returned, but for at most the last, which the acceptor still carries or gave up at shutdown |
| Connections.QueuesAreFifo | queue.c:77-107 | over every run of the pool, what leaves the jobs and the free queue is what entered them, in order |
| Log.Logger.constructor | log.c:22-40 | an empty log |
| Log.Logger.FlushLogger | log.c:87-99 | the file gains what the buffer held, and the buffer is empty |
| Log.Logger.LogBuf | log.c:51-85 | called serially, the file and the buffer together gain exactly the record, of any length, and the file is written only when the record does not fit |
| Log.Logger.AppendSlowly | log.c:64-84 | a record longer than the room is appended whole across flushes, and all of it reaches the file |
| Log.Logger.DestroyLog | log.c:42-49 | nothing logged is lost |
| LogProtocol.StepKeeps | log.c:51-99 | every step of every thread keeps the locks consistent and the reserved regions disjoint and tiling the buffer up to its head |
| LogProtocol.RunKeeps | log.c:51-99 | every reachable state satisfies it |
| LogProtocol.AlwaysInBounds | log.c:57-59 | no copied byte and no write goes outside the buffer, even when copies overlap |
| LogProtocol.RegionsApart | log.c:54-60 | regions reserved by different threads share no byte and lie below the head |
| LogProtocol.FlushFindsAllCopied | log.c:87-99 | no flush runs while a reserved byte is uncopied |
| LogProtocol.CopyLandsExactly | log.c:57-59 | a copied byte lands in the thread's own region exactly when the head is still where its reservation left it |
| LogProtocol.FaithfulKept | log.c:51-99 | a step that is not disturbed keeps the file, the buffer and the rest of a record being filled in equal to the records in reservation order |
| LogProtocol.UndisturbedExactly | log.c:54-60 | in a run that finishes its copies, every byte lands in place exactly when no call makes room while another thread's fast copy is unfinished |
| LogCalls.LogIsAppend | log.c:51-99 | after any such run of any number of threads, when all calls have returned, the file and the buffer are the records of exactly the calls of log_buf that the run made, whatever their lengths, each once and whole, in an order that keeps every thread's own |
| LogCalls.EachThreadLogged | log.c:51-85 | after any run, the calls of a thread that is in none are in the log, each once, in the order it made them |
| LogCalls.LogOnlyGrows | log.c:51-85 | what is asked for later comes behind what was logged before |
| LogCalls.SlowCallLeavesNothing | log.c:78-81 | a call whose record did not fit leaves nothing in the buffer when it returns |
| LogCalls.FlushReachesFile | log.c:87-99 | when flush_logger has returned, every byte given room before the call is in the file, whatever other threads did |
| LogLiveness.SomeoneCanRun | log.c:51-99 | no deadlock, even on a readers-writer lock that prefers writers |
| LogLiveness.RunShrinks | log.c:51-99 | every step brings its call closer to its return |
| LogLiveness.CallsReturn | log.c:51-99 | without new calls every run is bounded, and stops only when every call has returned |
| LogLiveness.OverlapLosesBytes | log.c:54-59 | two overlapping fast copies, a concrete run: the log holds neither record whole |
| Intervals.SortByBegin | perf_analyze.py:29 | an ordered permutation |
| Intervals.UpTime | perf_analyze.py:27-38 | sorted intervals with at least one idle tick between neighbours, covering exactly the ticks of the data |
| Intervals.CanonicalUnique | perf_analyze.py:27-38 | the covered ticks determine the result: order and overlap of the requests do not matter |
| Intervals.GapsAreIdle | perf_analyze.py:60-61 | the gaps count the idle ticks and one more for each gap |
| Intervals.IdleTime | perf_analyze.py:51-61 | the idle time of main is the sum of the gaps, never negative, and zero exactly when there is one interval |

## Left out

- bind.c, poll, accept, fcntl, signal masks, getopt and the set-up in main: foreign calls; a step of the acceptor takes any descriptor that accept may return.
- file_readwrite.c and file_readwrite.h: unfinished and not built.
- malloc, free, queue_delete, destroy_state_buffer, and the NULL arguments of the queue functions: allocation only.
- errno of lstat and open beyond the distinctions the code makes: an oracle answers each path.
- Two requests on the same file at the same time: each request has its own files, as nothing in the code coordinates them.
- Requests abandoned at shutdown: their files stay open, as in the code; the pool model counts their records only.
- Short or failing writes of the logger: after a short write `flush_logger` starts again at the beginning of the buffer (log.c:90-92).
- Log records whose method and path exceed the 500-byte buffer: the status is written unchecked there (server.c:544).
- Queue.Queue.Push: waiting for room on the condition variable is not part of the sequential queue; in the pool a push that finds no room is not enabled, and no push ever is in that position.
- Queue.Queue.Pop: waiting for an element is modelled in the pool, as workers and acceptor that sleep and are woken.
- A sem_wait that is interrupted or fails: the C code asserts that it does not (httpserver.c:71).
- Memory order of the unsynchronised bytes and flags: steps of the pool and the logger are interleaved one at a time.
- The slices of one allocation (server.c:639-653): each modelled record has arrays of its own; that the slices are disjoint is shown in the pool.
- compare_vv, burn_whitespace, nth_percentile_lat, avg_lat, time.c and the scripts: unused by the request path, or easy.
- Intervals.UpTime: the order that list.sort gives to requests with the same begin does not show in its result; only intervals that end no earlier than they begin are covered.
- Server.State.ReadHf: equality with the one-shot parse is claimed when the reader was not short of room; what becomes of the other requests is said by EndToEnd.CrowdedAnswer.
- EndToEnd.StaleRoomExactly: what the program does after a read outside its buffer is not modelled.
- StrView.CompareVs: where `char` is signed, bytes above 127 compare as smaller ones; the server only asks whether the result is 0.
- EndToEnd.ScheduleIndependence: for a PUT, no more than the announced body may be able to arrive early, since an excess is answered with 500 and comes about under some schedules only.
