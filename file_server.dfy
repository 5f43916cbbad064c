/** The threaded file server (Server/server.py): one handler per
    connection reads a request by the short-chunk rule, answers GET, POST
    or 405, and loops until the peer closes, the idle timeout fires or a
    request cannot be parsed.  A shared counter of active connections sets
    the idle timeout. */
module FileServer {
  import opened Text
  import opened Wire
  import opened Protocol

  /** `mimetypes.guess_type(path)[0]`, a table lookup outside the model. */
  type MimeGuess = string -> Option<string>

  // ---------------------------------------------------------------------
  // Framing: read 1024-byte chunks until one is short
  // ---------------------------------------------------------------------

  /** How a read of one request ended: a short chunk completes it; an empty
      chunk (the peer closed) or a timeout abandons it. */
  datatype FrameEnd = ShortChunk | EmptyChunk | ReadTimeout

  /** The chunks a read loop receives (the empty chunk is not one of them),
      how it ends, and what stays unread. */
  datatype Framed = Framed(chunks: seq<Bytes>, end: FrameEnd, rest: seq<Event>)

  function Frame(events: seq<Event>): (f: Framed)
    ensures f.end == ShortChunk ==> Size(f.rest) < Size(events)
    ensures Size(f.rest) <= Size(events)
    decreases Size(events)
  {
    var (r, rest) := Recv(events, ChunkSize, false);
    match r
    case TimedOut => Framed([], ReadTimeout, rest)
    case Chunk(c) =>
      if |c| == 0 then Framed([], EmptyChunk, rest)
      else if |c| < ChunkSize then Framed([c], ShortChunk, rest)
      else
        var f := Frame(rest);
        Framed([c] + f.chunks, f.end, f.rest)
  }

  /** Every chunk before the last is full, and a request ends with a
      short, non-empty chunk. */
  lemma {:induction false} FrameChunkSizes(events: seq<Event>)
    ensures var f := Frame(events);
      && (f.end == ShortChunk ==> f.chunks != [] && 0 < |f.chunks[|f.chunks| - 1]| < ChunkSize)
      && (forall i :: 0 <= i < |f.chunks| ==> i < |f.chunks| - 1 || f.end != ShortChunk ==> |f.chunks[i]| == ChunkSize)
    decreases Size(events)
  {
    var (r, rest) := Recv(events, ChunkSize, false);
    if r.Chunk? && ChunkSize <= |r.bytes| {
      FrameChunkSizes(rest);
      var f := Frame(rest);
      var cs := [r.bytes] + f.chunks;
      assert Frame(events).chunks == cs;
      assert forall i :: 1 <= i < |cs| ==> cs[i] == f.chunks[i - 1];
    }
  }

  /** The chunks are exactly the front of the byte stream: nothing is lost,
      reordered or read twice. */
  lemma {:induction false} FrameConsumesStream(events: seq<Event>)
    ensures var f := Frame(events); Stream(events) == Concat(f.chunks) + Stream(f.rest)
    decreases Size(events)
  {
    var (r, rest) := Recv(events, ChunkSize, false);
    RecvStream(events, ChunkSize, false);
    FrameStep(events, r, rest);
    if r.Chunk? && ChunkSize <= |r.bytes| {
      FrameConsumesStream(rest);
      var f := Frame(rest);
      assert ([r.bytes] + f.chunks)[1..] == f.chunks;
      AppendAssoc(r.bytes, Concat(f.chunks), Stream(f.rest));
    } else if r.Chunk? && 0 < |r.bytes| {
      assert [r.bytes][1..] == [];
      assert Concat([r.bytes]) == r.bytes + [];
    }
  }

  /** A complete request never has a length that is a multiple of 1024. */
  lemma FramedLength(events: seq<Event>)
    requires Frame(events).end == ShortChunk
    ensures |Concat(Frame(events).chunks)| % ChunkSize != 0
  {
    FrameChunkSizes(events);
    ShortLastChunk(Frame(events).chunks);
  }

  /** Full chunks followed by one short, non-empty chunk. */
  lemma ShortLastChunk(cs: seq<Bytes>)
    requires cs != [] && 0 < |cs[|cs| - 1]| < ChunkSize
    requires forall i :: 0 <= i < |cs| - 1 ==> |cs[i]| == ChunkSize
    ensures |Concat(cs)| % ChunkSize != 0
  {
    var full, last := cs[..|cs| - 1], cs[|cs| - 1];
    FullChunksLength(full);
    assert cs == full + [last];
    ConcatAppend(full, [last]);
    assert Concat([last]) == last;
    OffsetMod(|full|, |last|);
  }

  lemma {:induction false} FullChunksLength(cs: seq<Bytes>)
    requires forall i :: 0 <= i < |cs| ==> |cs[i]| == ChunkSize
    ensures |Concat(cs)| == |cs| * ChunkSize
  {
    if cs != [] {
      FullChunksLength(cs[1..]);
      assert |Concat(cs)| == ChunkSize + (|cs| - 1) * ChunkSize;
    }
  }

  lemma {:induction false} OffsetMod(q: nat, l: nat)
    requires l < ChunkSize
    ensures (q * ChunkSize + l) % ChunkSize == l
  {
    if q > 0 {
      OffsetMod(q - 1, l);
      assert q * ChunkSize + l == ((q - 1) * ChunkSize + l) + ChunkSize;
    }
  }

  /** A message that arrives as one segment whose length is not a multiple
      of 1024 is read whole, and nothing after it is touched. */
  lemma {:induction false} FrameOneSegment(m: Bytes, rest: seq<Event>)
    requires |m| % ChunkSize != 0
    ensures Frame([Data(m)] + rest) == Framed(Frame([Data(m)] + rest).chunks, ShortChunk, rest)
    ensures Concat(Frame([Data(m)] + rest).chunks) == m
    decreases |m|
  {
    var events := [Data(m)] + rest;
    assert events[1..] == rest;
    if ChunkSize < |m| {
      var tail := m[ChunkSize..];
      assert Recv(events, ChunkSize, false) == (Chunk(m[..ChunkSize]), [Data(tail)] + rest);
      FrameOneSegment(tail, rest);
      assert m == m[..ChunkSize] + tail;
    }
  }

  /** A message whose length is a non-zero multiple of 1024 does not end a
      read: the handler keeps reading, and the message merges with whatever
      follows it (or is dropped when the peer closes). */
  lemma {:induction false} FrameAlignedSegment(m: Bytes, rest: seq<Event>)
    requires |m| > 0 && |m| % ChunkSize == 0
    ensures var f, g := Frame([Data(m)] + rest), Frame(rest);
      Concat(f.chunks) == m + Concat(g.chunks) && f.end == g.end && f.rest == g.rest
    decreases |m|
  {
    var events := [Data(m)] + rest;
    assert events[0] == Data(m) && events[1..] == rest;
    if |m| == ChunkSize {
      FrameStep(events, Chunk(m), rest);
      assert ([m] + Frame(rest).chunks)[1..] == Frame(rest).chunks;
    } else {
      var head, tail := m[..ChunkSize], m[ChunkSize..];
      var after := [Data(tail)] + rest;
      assert Recv(events, ChunkSize, false) == (Chunk(head), after);
      FrameStep(events, Chunk(head), after);
      FrameAlignedSegment(tail, rest);
      assert ([head] + Frame(after).chunks)[1..] == Frame(after).chunks;
      assert m == head + tail;
      AppendAssoc(head, tail, Concat(Frame(rest).chunks));
    }
  }

  /** One receive of the read loop, unfolded. */
  lemma FrameStep(events: seq<Event>, r: Received, rest: seq<Event>)
    requires (r, rest) == Recv(events, ChunkSize, false)
    ensures r.TimedOut? ==> Frame(events) == Framed([], ReadTimeout, rest)
    ensures r.Chunk? && |r.bytes| == 0 ==> Frame(events) == Framed([], EmptyChunk, rest)
    ensures r.Chunk? && 0 < |r.bytes| < ChunkSize ==> Frame(events) == Framed([r.bytes], ShortChunk, rest)
    ensures r.Chunk? && ChunkSize <= |r.bytes| ==>
      Frame(events) == Framed([r.bytes] + Frame(rest).chunks, Frame(rest).end, Frame(rest).rest)
  {
  }

  /** The inner read loop of the handler (Server/server.py:109-123). */
  method ReadRequest(conn: Socket) returns (end: FrameEnd, request: Bytes)
    requires conn.timeout.Some?
    modifies conn
    ensures var f := Frame(old(conn.incoming));
      end == f.end && request == Concat(f.chunks) && conn.incoming == f.rest
    ensures conn.sent == old(conn.sent) && conn.timeout == old(conn.timeout) && conn.open == old(conn.open)
  {
    request := [];
    ghost var chunks: seq<Bytes> := [];
    while true
      invariant conn.timeout == old(conn.timeout) && conn.sent == old(conn.sent) && conn.open == old(conn.open)
      invariant request == Concat(chunks)
      invariant Frame(old(conn.incoming)) == Framed(chunks + Frame(conn.incoming).chunks, Frame(conn.incoming).end, Frame(conn.incoming).rest)
      decreases Size(conn.incoming)
    {
      ghost var before := conn.incoming;
      var r := conn.Receive(ChunkSize);
      FrameStep(before, r, conn.incoming);
      if r.TimedOut? {
        end := ReadTimeout;
        assert chunks + [] == chunks;
        return;
      }
      var c := r.bytes;
      if |c| == 0 {
        end := EmptyChunk;
        assert chunks + [] == chunks;
        return;
      }
      ConcatAppend(chunks, [c]);
      assert Concat([c]) == c;
      request := request + c;
      if |c| < ChunkSize {
        chunks := chunks + [c];
        end := ShortChunk;
        return;
      }
      ghost var g := Frame(conn.incoming);
      assert Frame(before) == Framed([c] + g.chunks, g.end, g.rest);
      AppendAssoc(chunks, [c], g.chunks);
      chunks := chunks + [c];
      assert Size(conn.incoming) < Size(before);
    }
  }

  // ---------------------------------------------------------------------
  // Parsing the request line
  // ---------------------------------------------------------------------

  datatype RequestLine = RequestLine(verb: string, target: string, version: string)

  /** The decoded request up to its first CRLF. */
  function FirstLine(request: Bytes): (line: string)
    ensures !Contains(line, CRLF)
    ensures var t := Decode(request);
      |line| <= |t| && t[..|line|] == line && (|line| == |t| || OccursAt(t, CRLF, |line|))
  {
    var t := Decode(request);
    var lines := Split(t, CRLF);
    SplitPiecesFree(t, CRLF, 0);
    lines[0]
  }

  /** `method, path, _ = request_lines[0].split(' ')`: exactly three tokens
      or a ValueError (`None`). */
  function ParseRequestLine(request: Bytes): (r: Option<RequestLine>)
    ensures r.Some? ==> ' ' !in r.value.verb && ' ' !in r.value.target && ' ' !in r.value.version
    ensures r.Some? ==> FirstLine(request) == r.value.verb + " " + r.value.target + " " + r.value.version
  {
    var line := FirstLine(request);
    var tokens := Split(line, " ");
    if |tokens| == 3 then
      TokensOfLine(line, tokens);
      Some(RequestLine(tokens[0], tokens[1], tokens[2]))
    else None
  }

  /** The request line parses exactly when its first line holds exactly two
      spaces. */
  lemma ParseRequestLineAccepts(request: Bytes)
    ensures ParseRequestLine(request).Some? <==> multiset(FirstLine(request))[' '] == 2
  {
    SplitCount(FirstLine(request), ' ');
  }

  // ---------------------------------------------------------------------
  // Handlers: the bytes each one sends, and the files after it
  // ---------------------------------------------------------------------

  /** `path[1:]` when the path starts with `/`: at most one leading slash
      goes. */
  function StripSlash(path: string): (p: string)
    ensures |path| - 1 <= |p| <= |path| && p == path[|path| - |p|..]
    ensures |p| < |path| <==> StartsWith(path, "/")
  {
    if StartsWith(path, "/") then path[1..] else path
  }

  /** f"{content_type}" prints `None` for an unknown type. */
  function TypeText(t: Option<string>): string {
    match t
    case None => "None"
    case Some(s) => s
  }

  function OkHeader(length: nat, contentType: string): string {
    "HTTP/1.1 200 OK" + CRLF + "Content-Length: " + NatToText(length) + CRLF
      + "Content-Type: " + contentType + HeaderEnd
  }

  /** What `handle_get` sends (Server/server.py:39-54). */
  function HandleGet(files: Files, path: string, guess: MimeGuess): (reply: Bytes)
    ensures Exists(files, StripSlash(path)) ==>
      var data := files[StripSlash(path)];
      && Encode(OkHeader(|data|, TypeText(guess(StripSlash(path))))) <= reply
      && |reply| == |OkHeader(|data|, TypeText(guess(StripSlash(path))))| + |data| + 2
      && reply[|reply| - |data| - 2..] == data + Encode(CRLF)
    ensures !Exists(files, StripSlash(path)) ==> Decode(reply) == NotFound
  {
    var p := StripSlash(path);
    if Exists(files, p) then
      var header := Encode(OkHeader(|files[p]|, TypeText(guess(p))));
      var r := header + files[p] + Encode(CRLF);
      assert r[|r| - |files[p]| - 2..] == files[p] + Encode(CRLF);
      r
    else
      DecodeEncode(NotFound);
      Encode(NotFound)
  }

  const PostOk: string := "HTTP/1.1 200 OK\r\n\r\n"

  /** The bytes after the first CRLF CRLF of the raw request (Server/server.py:68-69). */
  function RequestBody(request: Bytes): (body: Bytes)
    ensures Contains(request, Encode(HeaderEnd)) ==>
      var i := Find(request, Encode(HeaderEnd));
      request == request[..i] + Encode(HeaderEnd) + body && !Contains(request[..i], Encode(HeaderEnd))
    ensures !Contains(request, Encode(HeaderEnd)) ==> body == if |request| >= 3 then request[3..] else []
  {
    AfterFirst(request, Encode(HeaderEnd))
  }

  /** What `handle_post` does (Server/server.py:68-78): the body replaces
      the file at the path exactly as given, and a fixed reply goes out. */
  function HandlePost(files: Files, request: Bytes, path: string): (o: Outcome)
    ensures o.files.Keys == files.Keys + {path}
    ensures o.files[path] == RequestBody(request)
    ensures forall q :: q in files && q != path ==> o.files[q] == files[q]
    ensures Decode(o.reply) == PostOk
  {
    DecodeEncode(PostOk);
    Store(files, path, RequestBody(request));
    Outcome(Encode(PostOk), files[path := RequestBody(request)])
  }

  /** One request: parse the request line, then GET, POST or 405.  `None`
      is an exception (a malformed request line, or a POST to the empty
      path) that ends the connection. */
  function Respond(request: Bytes, files: Files, guess: MimeGuess): Option<Outcome> {
    match ParseRequestLine(request)
    case None => None
    case Some(line) =>
      if line.verb == "GET" then Some(Outcome(HandleGet(files, line.target, guess), files))
      else if line.verb == "POST" then
        // opening the empty path for writing raises
        if line.target == "" then None else Some(HandlePost(files, request, line.target))
      else Some(Outcome(HandleError(405, "Method Not Allowed"), files))
  }

  // ---------------------------------------------------------------------
  // A connection from start to end
  // ---------------------------------------------------------------------

  /** Why a handler stopped: the peer closed, the idle timeout fired, or a
      request raised. */
  datatype SessionEnd = PeerClosed | IdleTimedOut | Failed

  datatype Session = Session(replies: Bytes, files: Files, end: SessionEnd, rest: seq<Event>)

  /** Everything one handler does on a connection, given what the peer
      sends. */
  function Serve(events: seq<Event>, files: Files, guess: MimeGuess): Session
    decreases Size(events)
  {
    var f := Frame(events);
    match f.end
    case EmptyChunk => Session([], files, PeerClosed, f.rest)
    case ReadTimeout => Session([], files, IdleTimedOut, f.rest)
    case ShortChunk =>
      match Respond(Concat(f.chunks), files, guess)
      case None => Session([], files, Failed, f.rest)
      case Some(o) =>
        var s := Serve(f.rest, o.files, guess);
        Session(o.reply + s.replies, s.files, s.end, s.rest)
  }

  /** One request of a session, unfolded. */
  lemma ServeStep(events: seq<Event>, files: Files, guess: MimeGuess)
    ensures var f := Frame(events); var s := Serve(events, files, guess);
      && (f.end == EmptyChunk ==> s == Session([], files, PeerClosed, f.rest))
      && (f.end == ReadTimeout ==> s == Session([], files, IdleTimedOut, f.rest))
      && (f.end == ShortChunk && Respond(Concat(f.chunks), files, guess).None? ==>
            s == Session([], files, Failed, f.rest))
      && (f.end == ShortChunk && Respond(Concat(f.chunks), files, guess).Some? ==>
            var o := Respond(Concat(f.chunks), files, guess).value;
            var t := Serve(f.rest, o.files, guess);
            s == Session(o.reply + t.replies, t.files, t.end, t.rest))
  {
  }

  /** `max(5, 20 - n)` seconds. */
  function IdleTimeout(n: int): (t: nat)
    ensures t >= 5
    ensures n <= 15 ==> t == 20 - n
    ensures n >= 15 ==> t == 5
  {
    if 20 - n > 5 then 20 - n else 5
  }

  /** A busier server never waits longer. */
  lemma IdleTimeoutMonotone(n: int, m: int)
    requires n <= m
    ensures IdleTimeout(m) <= IdleTimeout(n)
  {
  }

  /** A handler never deletes a file. */
  lemma {:induction false} ServeKeepsFiles(events: seq<Event>, files: Files, guess: MimeGuess)
    ensures files.Keys <= Serve(events, files, guess).files.Keys
    decreases Size(events)
  {
    var f := Frame(events);
    ServeStep(events, files, guess);
    if f.end == ShortChunk {
      var o := Respond(Concat(f.chunks), files, guess);
      if o.Some? {
        ServeKeepsFiles(f.rest, o.value.files, guess);
        RespondKeepsFiles(Concat(f.chunks), files, guess);
      }
    }
  }

  /** One request never deletes a file. */
  lemma RespondKeepsFiles(request: Bytes, files: Files, guess: MimeGuess)
    requires Respond(request, files, guess).Some?
    ensures files.Keys <= Respond(request, files, guess).value.files.Keys
  {
  }

  /** A request with a method other than GET or POST is answered with 405,
      leaves the files alone, and the connection goes on to the next
      request. */
  lemma UnknownMethodContinues(events: seq<Event>, files: Files, guess: MimeGuess)
    requires Frame(events).end == ShortChunk
    requires var line := ParseRequestLine(Concat(Frame(events).chunks));
      line.Some? && line.value.verb != "GET" && line.value.verb != "POST"
    ensures var s, t := Serve(events, files, guess), Serve(Frame(events).rest, files, guess);
      s == Session(Encode(MethodNotAllowed) + t.replies, t.files, t.end, t.rest)
  {
    MethodNotAllowedReply();
  }

  class Server {
    /** Handlers currently between entry and exit. */
    var activeConnections: int

    constructor ()
      ensures activeConnections == 0
    {
      activeConnections := 0;
    }

    /** `handle_client` (Server/server.py:103-143): count the connection,
        fix the idle timeout once, serve requests until the connection
        ends, then close it and uncount it on every path out. */
    method HandleClient(conn: Socket, files: Files, guess: MimeGuess) returns (files': Files, end: SessionEnd)
      modifies this, conn
      ensures activeConnections == old(activeConnections)
      ensures var s := Serve(old(conn.incoming), files, guess);
        && conn.sent == old(conn.sent) + s.replies
        && files' == s.files && end == s.end && conn.incoming == s.rest
      ensures conn.timeout == Some(IdleTimeout(old(activeConnections) + 1))
      ensures !conn.open
    {
      activeConnections := activeConnections + 1;
      var timeout := IdleTimeout(activeConnections);
      files' := files;
      ghost var replies: Bytes := [];
      while true
        invariant activeConnections == old(activeConnections) + 1
        invariant timeout == IdleTimeout(old(activeConnections) + 1)
        invariant conn.sent == old(conn.sent) + replies
        invariant var s, t := Serve(old(conn.incoming), files, guess), Serve(conn.incoming, files', guess);
          s == Session(replies + t.replies, t.files, t.end, t.rest)
        decreases Size(conn.incoming)
      {
        conn.SetTimeout(timeout);
        var stop;
        ghost var reply;
        files', stop, reply := ServeRequest(conn, files', guess);
        if stop.Some? {
          end := stop.value;
          assert replies + [] == replies;
          break;
        }
        ghost var u := Serve(conn.incoming, files', guess);
        AppendAssoc(replies, reply, u.replies);
        AppendAssoc(old(conn.sent), replies, reply);
        replies := replies + reply;
      }
      conn.Close();
      activeConnections := activeConnections - 1;
    }
  }

  /** One pass of the handler's loop (Server/server.py:109-139): read a
      request and answer it, or say why the connection ends. */
  method ServeRequest(conn: Socket, files: Files, guess: MimeGuess) returns (files': Files, stop: Option<SessionEnd>, ghost reply: Bytes)
    requires conn.timeout.Some?
    modifies conn
    ensures var t := Serve(old(conn.incoming), files, guess);
      && (stop.Some? ==> t == Session([], files', stop.value, conn.incoming) && reply == [])
      && (stop.None? ==>
            var u := Serve(conn.incoming, files', guess);
            t == Session(reply + u.replies, u.files, u.end, u.rest) && Size(conn.incoming) < Size(old(conn.incoming)))
    ensures conn.sent == old(conn.sent) + reply
    ensures conn.timeout == old(conn.timeout) && conn.open == old(conn.open)
  {
    ghost var before := conn.incoming;
    ServeStep(before, files, guess);
    files' := files;
    var frameEnd, request := ReadRequest(conn);
    if frameEnd == EmptyChunk || frameEnd == ReadTimeout {
      stop := Some(if frameEnd == EmptyChunk then PeerClosed else IdleTimedOut);
      reply := [];
      assert conn.sent == old(conn.sent) + [];
      return;
    }
    var response := Respond(request, files, guess);
    if response.None? {
      stop := Some(Failed);
      reply := [];
      assert conn.sent == old(conn.sent) + [];
      return;
    }
    conn.Send(response.value.reply);
    stop, reply, files' := None, response.value.reply, response.value.files;
  }
}
