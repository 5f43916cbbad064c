# Socket-Programming, modelled in Dafny

This project models the request/response core of a small Python teaching
repository. That repository holds two file servers, a scripted client and a
load tester that speak a minimal HTTP-like protocol over TCP:

- **The threaded file server** (`Server/server.py`). One handler per
  connection reads a request as 1024-byte chunks until one is short. It
  parses the first line into method, path and protocol. A GET answers with
  the file, a `Content-Length` and a guessed `Content-Type`. A POST writes
  the bytes after the first blank line to the path. Any other method gets
  405. The handler loops until the peer closes, the idle timeout
  `max(5, 20 - active connections)` fires, or a request raises. A counter
  of active connections is raised on entry and lowered on every way out.
- **The older server** (`server.py`). It does one `recv(1024)` per
  request. `close` in any case, or an empty read, is answered with `closed`
  and ends the connection. A request must have three tokens on its first
  line and a blank line somewhere. `path[1:]` drops the first character
  whatever it is. A GET answers text/plain with no length. Uploads go to
  `./uploads/<basename>`.
- **The scripted client** (`Client/Client.py`). Each script line such as
  `client_get notes.txt 127.0.0.1 8000` becomes one request on a fresh
  connection. That request is the request line (at most 1024 bytes of it)
  followed by the local file. The client reads once, and an answer that
  lowercases to `closed` stops it.
- **The load tester's `make_request`** (`test/perf.py`). It sends a fixed
  GET, or a POST of `Test content`. It reads 1024-byte chunks until a blank
  line has arrived, and takes the length from the first header that names
  `Content-Length` in any case. It then reads `min(remaining, 1024)` at a
  time until the announced body is in.

## Modules

| module | file | what it holds |
|---|---|---|
| `Text` | `text.dfy` | One-byte-per-character `encode`/`decode` and Python's `find`, `split`, `lower`, `strip`, `str(n)` and `int(s)`. |
| `Wire` | `wire.dfy` | The incoming side of a connection as a sequence of `Data` segments and `Timeout` silences. `Recv` specifies `recv(n)`. The `Socket` class holds the state a socket method changes. |
| `FileServer` | `file_server.dfy` | The threaded server. It has specification functions `Frame` (one request) and `Serve` (a whole connection), and methods proved against them. |
| `Protocol` | `protocol.dfy` | What both servers spell out alike: the receive size, the files a server serves, the 404 and 405 replies, and the three-token request line. |
| `LegacyServer` | `legacy_server.dfy` | The older server, built the same way. |
| `ScriptClient` | `client.dfy` | Script-line parsing, one request as a value (`AttemptOf`), the `Client` class, and a whole script as a value (`Script`). |
| `LoadTester` | `load_tester.dfy` | The two requests, the Content-Length scan, the head and body read loops as functions, and the socket methods proved against them. |

Each loop of the source is a method with a `while` or `for` loop. Its
`ensures` ties the result and the new socket state to a specification
function of the old state. What the source promises is then proved about
that function as lemmas.

The model keeps these behaviours of the code, which are easy to misread:

- The idle timeout is computed once per connection (Server/server.py:105),
  not before every read.
- A request line must have exactly three tokens. More than three is a
  `ValueError` like fewer.
- A POST with no blank line stores the request from its fourth byte on,
  because `find` gives -1 and the slice starts at 3. It does not store an
  empty body.
- The handler closes the socket before it lowers the connection counter.
- The load tester does not use the short-chunk rule for responses. It reads
  until a blank line, then by Content-Length. The client reads exactly once.

## Model

| member | source | states |
|---|---|---|
| Text.Encode | Server/server.py:51 | Encoding keeps the length, and each byte is the code of the character at the same place. |
| Text.Decode | Server/server.py:125 | Decoding keeps the length, and each character has the code of the byte at the same place. |
| Text.EncodeDecode | Server/server.py:125 | Decoding bytes and encoding them again gives the same bytes. |
| Text.DecodeEncode | Server/server.py:77-78 | For one-byte text, encoding then decoding gives the text back. |
| Text.Find | Server/server.py:68 | `find` gives -1 exactly when the pattern is absent. Otherwise it gives an index where the pattern occurs, with no occurrence before it. |
| Text.JoinSplit | Server/server.py:126 | Joining the pieces of `split(sep)` with `sep` gives back the original string. |
| Text.SplitPiecesFree | Server/server.py:126 | No piece of `split(sep)` contains `sep`. |
| Text.SplitCount | Server/server.py:129 | Splitting on one character gives one more piece than there are occurrences of it. |
| Text.AfterFirst | Server/server.py:68-69 | If the delimiter occurs, the string is what precedes its first occurrence, then the delimiter, then the result, and that prefix holds no delimiter. If it does not occur, the result is the slice from index `len(delim) - 1`. |
| Text.Split | Server/server.py:126 | `split(sep)` gives at least one piece. `SplitAtFirst` pins down which pieces. |
| Text.SplitAtFirst | Server/server.py:126 | `split(sep)` cuts at the first occurrence of `sep` and splits what follows the same way. With no occurrence it gives the input whole. This holds even for a separator that overlaps itself, such as the blank line. |
| Text.AfterFirstExtension | test/perf.py:60 | Once a buffer holds the delimiter, appending bytes extends what follows the first delimiter by exactly those bytes. |
| Text.IndexOf | server.py:65 | `list.index` gives the first position of the element, or -1 exactly when the element is absent. |
| Text.FirstIndex | test/perf.py:53-56 | The search loop stops at the first element that satisfies the test, or at the end when none does. |
| Text.Lower | test/perf.py:54 | Lowercasing keeps the length and lowercases each ASCII letter in place. |
| Text.Strip | test/perf.py:55 | The result is a middle slice of the input. Everything cut at either end is whitespace, and the result neither starts nor ends with whitespace. |
| Text.NatToText | Server/server.py:49 | `str(n)` is a non-empty string of digits with no leading zero. |
| Text.ParseIntOfNat | test/perf.py:55 | `int()` of `str(n)`, with any whitespace around it, is `n`. |
| Text.ParseDecimal | Client/Client.py:39 | `int(str(n)) == n`. |
| Text.ParseInt | test/perf.py:55 | `int()` in base 10: whitespace around, an optional sign, then digits with single underscores between them; anything else is a ValueError. `ParseIntOfNat` and `ParseDecimal` state its value on decimal text. |
| Wire.HeadSplit | test/perf.py:51 | In head, blank line, body (where the head holds no blank line), the first blank line is the one after the head. Splitting there gives the head, and what follows the first blank line is the body. |
| Wire.Recv | Server/server.py:112 | A receive returns at most `n` bytes, and times out only on a socket with a timeout. On a closed connection it returns nothing. A receive of at least one byte consumes input. |
| Wire.RecvPrompt | Server/server.py:112 | On a stream where every event is a non-empty segment, a receive of at least one byte gets at least one byte, and what is left is such a stream too. |
| Wire.RecvStream | Server/server.py:112 | A receive takes its bytes off the front of the byte stream, and a timeout takes none. |
| Wire.Socket.constructor | Client/Client.py:32 | A new socket is open and blocking, has sent nothing, and will receive what the peer sends. |
| Wire.Socket.SetTimeout | Server/server.py:108 | `settimeout` sets the timeout and changes nothing else. |
| Wire.Socket.Connect | Client/Client.py:43 | `connect` succeeds exactly when the peer is reachable. |
| Wire.Socket.Receive | Server/server.py:112 | `recv` returns what `Recv` specifies, and leaves the rest of the input for the next call. |
| Wire.Socket.Send | Server/server.py:52 | `send` appends its bytes to what has been sent. |
| Wire.Socket.Close | Server/server.py:141 | `close` closes the socket and changes nothing else. |
| FileServer.Frame | Server/server.py:109-123 | A request that ends with a short chunk consumes input, and no read consumes more than there is. |
| FileServer.FrameChunkSizes | Server/server.py:110-119 | Every chunk of a request but the last is exactly 1024 bytes. A complete request ends with a short, non-empty chunk. |
| FileServer.FrameConsumesStream | Server/server.py:110-119 | The chunks of a request are exactly the front of the byte stream, with nothing lost, reordered or read twice. |
| FileServer.FramedLength | Server/server.py:118 | A complete request never has a length that is a multiple of 1024. |
| FileServer.FrameOneSegment | Server/server.py:110-119 | A message that arrives as one segment, with a length that is not a multiple of 1024, is read whole, and nothing after it is touched. |
| FileServer.FrameAlignedSegment | Server/server.py:110-119 | A message whose length is a non-zero multiple of 1024 does not end a request. Its bytes merge with what follows, and the read ends however the following traffic ends it. |
| FileServer.ReadRequest | Server/server.py:109-123 | The read loop returns the bytes of the request, how it ended, and the unread input that `Frame` specifies. |
| FileServer.FirstLine | Server/server.py:125-126 | The first line is the decoded request up to its first CRLF, or all of it when there is none. |
| FileServer.ParseRequestLine | Server/server.py:129 | A parsed request line is method, space, path, space, protocol, with no space inside any of the three. |
| Protocol.TokensOfLine | Server/server.py:129 | A line that splits into three tokens is those tokens joined by single spaces, and no token holds a space. |
| FileServer.ParseRequestLineAccepts | Server/server.py:129 | The request line unpacks exactly when it holds exactly two spaces. |
| FileServer.StripSlash | Server/server.py:39-40 | At most one leading `/` is removed, and one is removed exactly when the path starts with `/`. |
| FileServer.HandleGet | Server/server.py:39-54 | For an existing file, the reply is exactly the 200 header carrying the file's length and guessed type, then the file, then CRLF. Otherwise the reply is the 404 line. |
| FileServer.OkHeader | Server/server.py:47-50 | The 200 header: status line, Content-Length, Content-Type and a blank line. `HandleGet` states the reply built from it. |
| FileServer.TypeText | Server/server.py:45-49 | A type that `guess_type` cannot tell is printed as `None`. |
| FileServer.RequestBody | Server/server.py:68-69 | The body is what follows the first CRLF CRLF of the raw request. Without one, it is the request from its fourth byte on. |
| FileServer.HandlePost | Server/server.py:68-78 | The body is stored at the path as given, adding it if new. Every other file is unchanged, and the reply is `HTTP/1.1 200 OK` and a blank line. |
| Protocol.MethodNotAllowedReply | Server/server.py:89 | The reply to any other method is `HTTP/1.1 405 Method Not Allowed` and CRLF. |
| Protocol.HandleError | Server/server.py:89 | `handle_error` sends `HTTP/1.1`, the status, the message and CRLF. `MethodNotAllowedReply` gives its one use. |
| Protocol.Exists | Server/server.py:42 | `os.path.exists`: the path names a stored file, and the empty path never does. `HandleGet` states both outcomes. |
| FileServer.Respond | Server/server.py:125-136 | One request: a request line that does not unpack, or a POST to the empty path, raises. Otherwise GET, POST or 405 answers. `RespondKeepsFiles` and `UnknownMethodContinues` state what it keeps. |
| FileServer.Serve | Server/server.py:107-136 | A whole connection: the replies sent, the files after it, why it ended, and the unread input. `ServeStep` unfolds it; `ServeKeepsFiles` and the handler's loop are proved against it. |
| FileServer.ServeStep | Server/server.py:107-136 | A connection ends on an empty read, a timeout or a request that raises. Otherwise it sends the reply and serves the next request with the files as they are now. |
| FileServer.IdleTimeout | Server/server.py:105 | The timeout is at least 5 seconds. It is `20 - n` up to 15 connections and 5 from then on. |
| FileServer.IdleTimeoutMonotone | Server/server.py:105 | More active connections never give a longer timeout. |
| FileServer.ServeKeepsFiles | Server/server.py:131-136 | No file disappears during a connection. |
| FileServer.RespondKeepsFiles | Server/server.py:131-136 | No file disappears in one request. |
| FileServer.UnknownMethodContinues | Server/server.py:135-136 | A request with another method is answered with 405, leaves the files alone, and the connection goes on to the next request. |
| FileServer.Server.constructor | Server/server.py:25 | A new server counts no active connections. |
| FileServer.Server.HandleClient | Server/server.py:103-143 | The handler sends exactly what `Serve` specifies and leaves the files and unread input `Serve` specifies. The timeout is `max(5, 20 - count)` for the raised count. The socket is closed, and the counter is back to its old value. |
| FileServer.ServeRequest | Server/server.py:108-136 | One pass either stops, with nothing sent and the reason `Serve` gives, or sends one reply and consumes input. What remains of the connection is `Serve` of the new state. |
| LegacyServer.Lines | server.py:63 | Splitting at CRLF gives at least one line. |
| LegacyServer.ParseRequest | server.py:63-66 | A request parses exactly when its first line has three tokens and some line is empty. The tokens hold no space and make up the first line. The headers are the lines between it and the first empty line. |
| LegacyServer.Drop1 | server.py:69 | `path[1:]` removes exactly one character from a non-empty path. |
| LegacyServer.Drop1AgreesWithStripSlash | server.py:69-71 | The two servers read the same file name exactly when the path is empty or starts with `/`. |
| LegacyServer.HandleGet | server.py:14-26 | For an existing file, the reply is the text/plain header, the file and CRLF. Otherwise it is the 404 line. |
| LegacyServer.Basename | server.py:36 | The basename holds no `/` and is the part of the path after its last `/`. |
| LegacyServer.HandlePost | server.py:29-43 | The upload fails exactly when the basename names a directory. Otherwise what follows the first blank line is stored at `./uploads/<basename>`, every other file is unchanged, and the fixed success reply is sent. |
| LegacyServer.NamesDirectory | server.py:35-38 | A basename that is empty, `.` or `..` names a directory, so the `open` for writing raises. `HandlePost` fails exactly then. |
| LegacyServer.UploadBody | server.py:30-31 | What an upload stores: the request text after the first blank line, encoded. |
| LegacyServer.Respond | server.py:63-73 | One request: one that does not parse, or an upload the open refuses, raises. Otherwise GET, POST or 405 answers. `ReplyEndsWithCRLF` and `RespondConfined` state what it gives. |
| LegacyServer.IsClose | server.py:55 | The sentinel: the text lowercases to `close`, or the read was empty. |
| LegacyServer.Serve | server.py:49-80 | A whole connection: the replies sent, the files after it, why it ended, and the unread input. `ServeStep` unfolds it; `ClosedComesLast`, `UploadsConfined` and the handler's loop are proved against it. |
| LegacyServer.ServeStep | server.py:51-73 | A connection ends on a timeout, on the sentinel (answered with `closed`), or on a request that raises. Otherwise it sends the reply and serves the next request with the new files. |
| LegacyServer.ReplyEndsWithCRLF | server.py:14-47 | Every reply of the GET, POST and error handlers ends in CRLF. |
| LegacyServer.FixedRepliesEndWithCRLF | server.py:25-47 | The 404 line, the upload reply and the 405 line each end in CRLF. |
| LegacyServer.ClosedComesLast | server.py:55-57 | A connection that ends at the sentinel has `closed` as the last thing it sent. One that ends otherwise has sent nothing, or something ending in CRLF. |
| LegacyServer.UploadsConfined | server.py:34-39 | During a connection no file disappears. Every file created or changed lies directly in `./uploads`, under a name that is neither empty nor a dot entry. |
| LegacyServer.RespondConfined | server.py:68-73 | The same holds for one request. |
| LegacyServer.HandleClient | server.py:49-80 | The handler sends exactly what `Serve` specifies and leaves the files and unread input `Serve` specifies. The socket is closed, and its timeout is unchanged. |
| LegacyServer.ServeRequest | server.py:53-73 | One pass either ends the connection, having sent at most `closed`, or sends one reply and consumes input. What remains is `Serve` of the new state. |
| ScriptClient.ParseRequest | Client/Client.py:8-27 | A line whose first token is neither command is skipped. A command with fewer than four tokens raises. Otherwise the method is GET or POST for the command, and path, address and port are tokens 2-4. |
| ScriptClient.CommandTokensSpaceFree | Client/Client.py:9-20 | No field of a parsed command holds a space. |
| ScriptClient.RequestText | Client/Client.py:41 | The request line: method, space, path, ` HTTP/1.1`, then a blank line. |
| ScriptClient.RequestBytes | Client/Client.py:41-44 | The first send is at most 1024 bytes and a prefix of the encoded request line. It is the whole line when the line fits, and exactly its first 1024 bytes when it does not. |
| ScriptClient.AttemptOf | Client/Client.py:29-62 | The request fails at `open` exactly when the path is empty or names no local file. Otherwise it fails at `int(port)` or `connect` exactly when the port is not a number from 0 to 65535. Otherwise it goes to the named server and port, and is exchanged exactly when that server is reachable. An exchange sends the request line and then the file, and gets one receive's worth of answer. |
| ScriptClient.Readable | Client/Client.py:36-37 | `open(path)` succeeds: the path names a local file, and the empty path never does. |
| ScriptClient.ValidPort | Client/Client.py:39-43 | `int(port)` gave a number that `connect` accepts as a port. |
| ScriptClient.DecimalPortConnects | Client/Client.py:39-43 | A port written in decimal, possibly padded with whitespace, is the port connected to, and the exchange happens exactly when that server is reachable. |
| ScriptClient.PortConnects | Client/Client.py:39-43 | A port that parses to a valid number is the one connected to, and the exchange happens exactly when that server is reachable. |
| ScriptClient.ClosedAnswerStops | Client/Client.py:48-54 | With a local file and a valid port, `send_request` returns False exactly when the server is reachable and its first answer lowercases to `closed`. |
| ScriptClient.KeepGoing | Client/Client.py:48-54 | `send_request` returns False only when an answer arrived and lowercases to `closed`; every failure returns True. |
| ScriptClient.Script | Client/Client.py:78-82 | A script as a value: the requests made, in order, and whether it finished, stopped at `closed` or aborted at a malformed command. `StopsAtFirstClosed` and `SkippedLinesIgnored` are proved about it. |
| ScriptClient.Client.constructor | Client/Client.py:5-6 | A new client has no socket. |
| ScriptClient.Client.SendRequest | Client/Client.py:29-62 | The result is False exactly when the answer lowercases to `closed`. A failed open or port parse leaves the socket field as it was. A connection attempt leaves a fresh, closed socket: a refused one has sent nothing, an exchange exactly the request line and the file. |
| ScriptClient.Client.RunScript | Client/Client.py:78-86 | A script run ends as `Script` specifies: finished, stopped by `closed`, or aborted by a malformed command. |
| ScriptClient.Client.Run | Client/Client.py:64-86 | The client stops exactly when some script gets a `closed` answer. |
| ScriptClient.StopsAtFirstClosed | Client/Client.py:78-82 | Every request of a script but the last went on. The script stopped exactly when its last request was answered `closed`. |
| ScriptClient.SkippedLinesIgnored | Client/Client.py:79-80 | A line that names no command changes nothing, wherever it stands in a script. |
| ScriptClient.SkipFirst | Client/Client.py:79-80 | A first line that names no command is passed over. |
| LoadTester.LengthValue | test/perf.py:55 | A Content-Length line has a second `:`-piece. The value is a number exactly when `int()` accepts that piece stripped, and then it is the number `int()` gives. |
| LoadTester.FindContentLength | test/perf.py:52-56 | There is no length exactly when no line names Content-Length in any case. |
| LoadTester.IsLengthHeader | test/perf.py:53 | A line names the length when, lowercased, it starts with `content-length:`. `FindContentLength` is stated through it. |
| LoadTester.LengthFromFirstHeader | test/perf.py:53-56 | The length comes from the first line naming it, whatever later lines say. |
| LoadTester.TwelveText | test/perf.py:29-33 | The POST declares `12`, the length of its content. |
| LoadTester.PostHeadStartNamesNoLength | test/perf.py:31-32 | The first two lines of the POST do not name a length. |
| LoadTester.PostLengthLine | test/perf.py:33 | The third line of the POST names a length of twelve. |
| LoadTester.PostLengthFound | test/perf.py:51-56 | The scan of the POST's own head finds a length of twelve. |
| LoadTester.PostAnnouncesItsBody | test/perf.py:29-35 | The POST has a blank line, what follows it is the content, and its head declares exactly the content's length. |
| LoadTester.RequestFor | test/perf.py:26-35 | `GET` selects the GET request, any other request type the POST. `PostAnnouncesItsBody` states what the POST declares. |
| LoadTester.RequestForSelects | test/perf.py:26-35 | The GET request is sent exactly when the request type is `GET`; every other type sends the POST. |
| LoadTester.ReadHead | test/perf.py:43-48 | A completed head read holds a blank line and extends what was read before. A failed one met an empty read, or a timeout on a socket that has one. |
| LoadTester.HeadReadStops | test/perf.py:43 | Reading stops at the receive that completes the blank line: less than one receive's worth follows that blank line. |
| LoadTester.ReadHeadCompletes | test/perf.py:43-48 | When every event is a non-empty segment, the head read completes exactly when the peer sends a blank line. |
| LoadTester.HeadInOneSegment | test/perf.py:43-48 | A head of at most 1024 bytes that arrives as one segment is read in one receive. |
| LoadTester.HeadReadExact | test/perf.py:43-48 | A completed head read takes its bytes straight off the stream. |
| LoadTester.ReadBody | test/perf.py:62-67 | A completed body read extends what was read before. A failed one met an empty read, or a timeout on a socket that has one. |
| LoadTester.ReadBodyCompletes | test/perf.py:62-67 | When every event is a non-empty segment, the body read completes exactly when the peer sends at least the bytes still missing. |
| LoadTester.BodyInOneSegment | test/perf.py:62-67 | Missing body bytes that arrive as one segment are read whole, in receives of at most 1024 bytes. |
| LoadTester.BodyReadLength | test/perf.py:61-67 | A completed body read takes exactly the bytes that were missing, no more. |
| LoadTester.BodyReadExact | test/perf.py:62-67 | A completed body read takes its bytes straight off the stream. |
| LoadTester.HeadLines | test/perf.py:51-53 | The lines of the decoded head, the part before the first blank line. |
| LoadTester.BodySoFar | test/perf.py:60 | The bytes the head read took beyond the first blank line. |
| LoadTester.AfterHead | test/perf.py:58-67 | With a complete head: a bad length fails, no length or zero ends at once, any other length reads what is missing. `AfterHeadSucceeds` and `AfterHeadExtends` are proved about it. |
| LoadTester.AfterHeadSucceeds | test/perf.py:58-74 | When every event is a non-empty segment, the exchange succeeds exactly when the length is not malformed and the missing body bytes arrive. No length, or a zero length, succeeds at once with the head. |
| LoadTester.Finish | test/perf.py:63-74 | A body read that completes is a success with what was read. One that fails reports its exception. |
| LoadTester.Respond | test/perf.py:42-67 | Reading a response: the head, then the body by Content-Length. `RespondSucceeds`, `RespondReadsStream` and `BodyLengthOnSuccess` are proved about it. |
| LoadTester.RespondSucceeds | test/perf.py:43-74 | When every event is a non-empty segment, `make_request` reports success exactly when the peer sends a whole head whose Content-Length, if any, is a number followed by at least the body bytes still missing. The head read completes exactly when the stream holds a blank line. |
| LoadTester.AfterHeadExtends | test/perf.py:58-67 | After a complete head, success extends the head with exactly the next bytes of the stream: none without a length, otherwise the part of the declared body still missing. |
| LoadTester.RespondReadsStream | test/perf.py:42-67 | A successful request has read a whole head. The response it holds is exactly what the peer sent, up to where reading stopped. |
| LoadTester.BodyLengthOnSuccess | test/perf.py:58-67 | After a success with a declared length, the body after the blank line is as long as declared, or longer when the head read already took more. |
| LoadTester.ReceiveHead | test/perf.py:43-48 | The header loop returns what `ReadHead` specifies and leaves the rest of the input. |
| LoadTester.ReceiveBody | test/perf.py:60-67 | The body loop returns what `ReadBody` specifies. Bytes received plus bytes missing stay equal to what was missing at the start. |
| LoadTester.ScanLength | test/perf.py:52-56 | The header loop returns `FindContentLength` of the head lines. |
| LoadTester.ReceiveRest | test/perf.py:58-67 | The body phase returns the outcome `AfterHead` specifies and leaves the rest of the input. |
| LoadTester.ReceiveResponse | test/perf.py:42-67 | Reading a response gives the outcome `Respond` specifies and leaves the rest of the input. |
| LoadTester.MakeRequest | test/perf.py:24-81 | `make_request` sends exactly the GET or POST chosen by the request type. It reports the outcome `Respond` specifies for the answer, and leaves the input after it. |

## Left out

- Text is one byte per character. UTF-8 sequences are not modelled: multi-byte characters, `decode(errors="ignore")`, and the `UnicodeDecodeError` a strict decode raises.
- `mimetypes.guess_type` is a function parameter (`MimeGuess`) and is not modelled.
- Threads are not modelled: the accept loop (`run_server`), one thread per connection, and the locks around the counter. `HandleClient` is one handler running alone, so interleavings of concurrent handlers and races between POSTs are left out.
- The filesystem is a map from path to bytes. The model omits directories other than the cases named below, permissions, I/O errors, `flush`/`fsync` and `os.makedirs`.
- FileServer.HandlePost: a POST to a path inside a missing directory, or naming a directory, raises in the source. The model stores such a path as a file. Only the empty path fails.
- LegacyServer.HandlePost: it assumes `./uploads` can always be created. It joins the directory and the basename as plain text.
- Paths are compared as text, not resolved as filesystem paths. `./uploads/x`, `uploads/x` and `/./uploads/x` name one file in the source but are different keys in the model. So a legacy upload stored at `./uploads/x` is not found by a later `GET /uploads/x`, which gets the 404 line, although the source answers 200. Likewise FileServer treats `/./a.txt` and `/a.txt` as different files.
- `print`, the clock, `time.time()`, the results list, statistics, plots, `run_load_test`, `create_persistent_connection`, `ThreadPoolExecutor` and `test/file_generator.py` are left out. `MakeRequest` reports only success or the failure reason, not a response time.
- `send` is modelled as sending all its bytes at once. Partial sends, and errors sending to a peer that has gone, are not modelled.
- The client's `input()` prompt, the `q` command and reading a script file are not modelled. `Client.Run` takes the scripts' lines directly, so a missing script file is left out.
- ScriptClient.Client.SendRequest: it creates its socket once the address is known. The source creates the socket before opening the file, so after a failed open or port parse the model's `clientSocket` still names the previous socket.
- LoadTester.Respond: when a read fails, the exchange keeps no response. The source discards the buffer when it raises.
- The peer closing its end is `Data([])` or the end of the input. A reset connection is not modelled.
- ScriptClient.Network: each address has one fixed reachability and one fixed answer for the whole run, whatever is sent. A server that answers each request differently, depends on earlier uploads, or goes down partway through a script is not modelled. Two identical script lines therefore always get the same answer, and a script where a later request to the same server is answered `closed` or refused after an earlier one went on cannot be described.
- The `__main__` blocks (port from `sys.argv`, creating the server or client) are left out.
