/** The older server (server.py): one `recv(1024)` per request, a `close`
    sentinel, a request that must contain a blank line, and uploads kept
    under `./uploads`. */
module LegacyServer {
  import opened Text
  import opened Wire
  import opened Protocol
  import FileServer

  // ---------------------------------------------------------------------
  // Parsing a request
  // ---------------------------------------------------------------------

  datatype Request = Request(verb: string, target: string, version: string, headers: seq<string>)

  /** The request split into lines (server.py:63). */
  function Lines(text: string): (lines: seq<string>)
    ensures |lines| >= 1
  {
    Split(text, CRLF)
  }

  /** server.py:63-66: three space-separated tokens on the first line, and
      the headers are the lines between it and the first empty line; no
      empty line is a ValueError. */
  function ParseRequest(text: string): (r: Option<Request>)
    ensures r.Some? <==> |Split(Lines(text)[0], " ")| == 3 && "" in Lines(text)
    ensures r.Some? ==>
      var lines, h := Lines(text), r.value.headers;
      && lines[0] == r.value.verb + " " + r.value.target + " " + r.value.version
      && ' ' !in r.value.verb && ' ' !in r.value.target && ' ' !in r.value.version
      && |h| + 1 < |lines| && lines[1..|h| + 1] == h && lines[|h| + 1] == ""
      && "" !in h
  {
    var lines := Lines(text);
    var tokens := Split(lines[0], " ");
    if |tokens| != 3 then None
    else
      var blank := IndexOf(lines, "");
      if blank < 0 then None
      else
        TokensOfLine(lines[0], tokens);
        SplitNone("", " ");
        assert blank != 0;
        assert lines[1..blank] <= lines[..blank][1..];
        Some(Request(tokens[0], tokens[1], tokens[2], lines[1..blank]))
  }

  /** `path[1:]`: the first character goes whatever it is. */
  function Drop1(path: string): (p: string)
    ensures |path| > 0 ==> |p| == |path| - 1
    ensures |p| <= |path| && p == path[|path| - |p|..]
  {
    if path == [] then [] else path[1..]
  }

  /** The two servers agree on a path exactly when it is empty or starts
      with `/`; otherwise the older one loses a character the newer keeps. */
  lemma Drop1AgreesWithStripSlash(path: string)
    ensures Drop1(path) == FileServer.StripSlash(path) <==> path == [] || path[0] == '/'
  {
    if path != [] {
      assert StartsWith(path, "/") <==> path[0] == '/';
      if path[0] != '/' {
        assert |Drop1(path)| != |FileServer.StripSlash(path)|;
      }
    }
  }

  // ---------------------------------------------------------------------
  // Handlers
  // ---------------------------------------------------------------------

  const PlainHeader: string := "HTTP/1.1 200 OK\r\nContent-Type: text/plain\r\n\r\n"

  /** `handle_get` (server.py:14-26): a text/plain header with no length,
      the file, and a CRLF; a missing file is 404. */
  function HandleGet(files: Files, path: string): (reply: Bytes)
    ensures Exists(files, path) ==>
      && |reply| == |PlainHeader| + |files[path]| + 2
      && reply[..|PlainHeader|] == Encode(PlainHeader)
      && reply[|PlainHeader|..|reply| - 2] == files[path]
      && reply[|reply| - 2..] == Encode(CRLF)
    ensures !Exists(files, path) ==> reply == Encode(NotFound)
  {
    if Exists(files, path) then
      var header := Encode(PlainHeader);
      var r := header + files[path] + Encode(CRLF);
      assert r[..|PlainHeader|] == header;
      assert r[|PlainHeader|..|r| - 2] == files[path];
      assert r[|r| - 2..] == Encode(CRLF);
      r
    else
      Encode(NotFound)
  }

  /** `os.path.basename`: what follows the last `/`. */
  function Basename(path: string): (b: string)
    ensures '/' !in b
    ensures |b| <= |path| && b == path[|path| - |b|..]
    ensures |b| < |path| ==> path[|path| - |b| - 1] == '/'
  {
    if path == [] || path[|path| - 1] == '/' then []
    else Basename(path[..|path| - 1]) + [path[|path| - 1]]
  }

  const UploadDir: string := "./uploads/"

  /** A name that opens as a directory, not a file: the upload directory
      itself or one of its dot entries. */
  predicate NamesDirectory(name: string) {
    name == "" || name == "." || name == ".."
  }

  const UploadOk: string := "HTTP/1.1 200 OK\r\nContent-Type: text/plain\r\n\r\nFile uploaded successfully.\r\n"

  /** What an upload stores: the bytes after the first blank line. */
  function UploadBody(request: string): Bytes {
    Encode(AfterFirst(request, HeaderEnd))
  }

  /** `handle_post` (server.py:29-43): the text after the first blank line
      goes to `./uploads/<basename>`; a basename naming a directory makes
      the open raise. */
  function HandlePost(files: Files, request: string, path: string): (o: Option<Outcome>)
    ensures o.None? <==> NamesDirectory(Basename(path))
    ensures o.Some? ==>
      var key := UploadDir + Basename(path);
      && o.value.files.Keys == files.Keys + {key}
      && o.value.files[key] == UploadBody(request)
      && (forall q :: q in files && q != key ==> o.value.files[q] == files[q])
      && o.value.reply == Encode(UploadOk)
  {
    var name := Basename(path);
    if NamesDirectory(name) then None
    else
      var key := UploadDir + name;
      Store(files, key, UploadBody(request));
      Some(Outcome(Encode(UploadOk), files[key := UploadBody(request)]))
  }

  /** One request after the sentinel check (server.py:63-73). */
  function Respond(text: string, files: Files): Option<Outcome> {
    match ParseRequest(text)
    case None => None
    case Some(req) =>
      if req.verb == "GET" then Some(Outcome(HandleGet(files, Drop1(req.target)), files))
      else if req.verb == "POST" then HandlePost(files, text, Drop1(req.target))
      else Some(Outcome(HandleError(405, "Method Not Allowed"), files))
  }

  // ---------------------------------------------------------------------
  // A connection from start to end
  // ---------------------------------------------------------------------

  const ClosedReply: string := "closed"

  /** `request.lower() == "close" or not request` (server.py:55). */
  predicate IsClose(text: string) {
    Lower(text) == "close" || text == ""
  }

  /** Why the handler stopped: the sentinel (or the peer's close), or an
      exception. */
  datatype End = Closed | Failed

  datatype Session = Session(replies: Bytes, files: Files, end: End, rest: seq<Event>)

  /** Everything one handler does on a connection; `blocking` is whether
      the socket has no timeout set. */
  function Serve(events: seq<Event>, files: Files, blocking: bool): Session
    decreases Size(events)
  {
    var (r, rest) := Recv(events, ChunkSize, blocking);
    match r
    case TimedOut => Session([], files, Failed, rest)
    case Chunk(bytes) =>
      var text := Decode(bytes);
      if IsClose(text) then Session(Encode(ClosedReply), files, Closed, rest)
      else
        match Respond(text, files)
        case None => Session([], files, Failed, rest)
        case Some(o) =>
          assert events != [];
          var s := Serve(rest, o.files, blocking);
          Session(o.reply + s.replies, s.files, s.end, s.rest)
  }

  /** One request of a session, unfolded. */
  lemma ServeStep(events: seq<Event>, files: Files, blocking: bool)
    ensures var (r, rest) := Recv(events, ChunkSize, blocking); var s := Serve(events, files, blocking);
      && (r.TimedOut? ==> s == Session([], files, Failed, rest))
      && (r.Chunk? && IsClose(Decode(r.bytes)) ==> s == Session(Encode(ClosedReply), files, Closed, rest))
      && (r.Chunk? && !IsClose(Decode(r.bytes)) && Respond(Decode(r.bytes), files).None? ==>
            s == Session([], files, Failed, rest))
      && (r.Chunk? && !IsClose(Decode(r.bytes)) && Respond(Decode(r.bytes), files).Some? ==>
            var o := Respond(Decode(r.bytes), files).value;
            var t := Serve(rest, o.files, blocking);
            s == Session(o.reply + t.replies, t.files, t.end, t.rest))
  {
  }

  predicate EndsWith<T(==)>(s: seq<T>, suffix: seq<T>) {
    |suffix| <= |s| && s[|s| - |suffix|..] == suffix
  }

  /** Every reply but the sentinel's ends in CRLF, so `closed` is the last
      thing a session sends, and only a sentinel sends it. */
  lemma {:induction false} ClosedComesLast(events: seq<Event>, files: Files, blocking: bool)
    ensures var s := Serve(events, files, blocking);
      && (s.end == Closed ==> EndsWith(s.replies, Encode(ClosedReply)))
      && (s.end == Failed ==> s.replies == [] || EndsWith(s.replies, Encode(CRLF)))
    decreases Size(events)
  {
    var (r, rest) := Recv(events, ChunkSize, blocking);
    ServeStep(events, files, blocking);
    if r.Chunk? && !IsClose(Decode(r.bytes)) {
      var o := Respond(Decode(r.bytes), files);
      if o.Some? {
        ClosedComesLast(rest, o.value.files, blocking);
        var t := Serve(rest, o.value.files, blocking);
        ReplyEndsWithCRLF(Decode(r.bytes), files);
        EndsWithAppend(o.value.reply, t.replies, Encode(ClosedReply));
        EndsWithAppend(o.value.reply, t.replies, Encode(CRLF));
      }
    }
  }

  lemma EndsWithAppend<T>(a: seq<T>, b: seq<T>, suffix: seq<T>)
    ensures EndsWith(b, suffix) ==> EndsWith(a + b, suffix)
    ensures b == [] ==> a + b == a
  {
    if EndsWith(b, suffix) {
      assert (a + b)[|a + b| - |suffix|..] == b[|b| - |suffix|..];
    }
  }

  /** Each handler's reply ends in CRLF. */
  lemma ReplyEndsWithCRLF(text: string, files: Files)
    requires Respond(text, files).Some?
    ensures EndsWith(Respond(text, files).value.reply, Encode(CRLF))
  {
    FixedRepliesEndWithCRLF();
    var req := ParseRequest(text).value;
    var reply := Respond(text, files).value.reply;
    if req.verb == "GET" {
      var path := Drop1(req.target);
      assert reply == HandleGet(files, path);
      if Exists(files, path) {
        assert reply[|reply| - 2..] == Encode(CRLF);
      }
    } else if req.verb == "POST" {
      assert reply == Encode(UploadOk);
    } else {
      assert reply == HandleError(405, "Method Not Allowed");
    }
  }

  /** The fixed replies of the handlers end in CRLF. */
  lemma FixedRepliesEndWithCRLF()
    ensures EndsWith(Encode(NotFound), Encode(CRLF))
    ensures EndsWith(Encode(UploadOk), Encode(CRLF))
    ensures EndsWith(HandleError(405, "Method Not Allowed"), Encode(CRLF))
  {
    EncodedEndsWithCRLF(NotFound);
    EncodedEndsWithCRLF(UploadOk);
    MethodNotAllowedReply();
    EncodedEndsWithCRLF(MethodNotAllowed);
  }

  lemma EncodedEndsWithCRLF(s: string)
    requires EndsWith(s, CRLF)
    ensures EndsWith(Encode(s), Encode(CRLF))
  {
    assert Encode(s)[|s| - 2..] == Encode(s[|s| - 2..]);
  }

  /** Going from `before` to `after`, no file disappears, and every file
      created or changed lies directly in `./uploads` under a name that is
      neither empty nor a dot entry. */
  predicate Confined(before: Files, after: Files) {
    && before.Keys <= after.Keys
    && forall k :: k in after && (k !in before || after[k] != before[k]) ==>
         && UploadDir <= k
         && '/' !in k[|UploadDir|..]
         && !NamesDirectory(k[|UploadDir|..])
  }

  /** Whatever a session writes lands directly in `./uploads` under a name
      that is neither empty nor a dot entry; every other file is left as
      it was. */
  lemma {:induction false} UploadsConfined(events: seq<Event>, files: Files, blocking: bool)
    ensures Confined(files, Serve(events, files, blocking).files)
    decreases Size(events)
  {
    var (r, rest) := Recv(events, ChunkSize, blocking);
    ServeStep(events, files, blocking);
    if r.Chunk? && !IsClose(Decode(r.bytes)) {
      var o := Respond(Decode(r.bytes), files);
      if o.Some? {
        UploadsConfined(rest, o.value.files, blocking);
        RespondConfined(Decode(r.bytes), files);
        ConfinedTrans(files, o.value.files, Serve(rest, o.value.files, blocking).files);
      }
    }
  }

  /** One request writes at most its upload. */
  lemma RespondConfined(text: string, files: Files)
    requires Respond(text, files).Some?
    ensures Confined(files, Respond(text, files).value.files)
  {
    var req := ParseRequest(text).value;
    if req.verb == "POST" {
      var name := Basename(Drop1(req.target));
      assert (UploadDir + name)[|UploadDir|..] == name;
    }
  }

  lemma ConfinedTrans(a: Files, b: Files, c: Files)
    requires Confined(a, b) && Confined(b, c)
    ensures Confined(a, c)
  {
  }

  /** `handle_client` (server.py:49-80): read once, answer the sentinel
      with `closed`, otherwise parse and dispatch, until the sentinel or an
      exception; the socket is closed on the way out. */
  method HandleClient(conn: Socket, files: Files) returns (files': Files, end: End)
    modifies conn
    ensures var s := Serve(old(conn.incoming), files, old(conn.timeout).None?);
      && conn.sent == old(conn.sent) + s.replies
      && files' == s.files && end == s.end && conn.incoming == s.rest
    ensures conn.timeout == old(conn.timeout) && !conn.open
  {
    files' := files;
    ghost var blocking := conn.timeout.None?;
    ghost var replies: Bytes := [];
    while true
      invariant conn.timeout == old(conn.timeout)
      invariant conn.sent == old(conn.sent) + replies
      invariant var s, t := Serve(old(conn.incoming), files, blocking), Serve(conn.incoming, files', blocking);
        s == Session(replies + t.replies, t.files, t.end, t.rest)
      decreases Size(conn.incoming)
    {
      var stop;
      ghost var reply;
      files', stop, reply := ServeRequest(conn, files');
      AppendAssoc(old(conn.sent), replies, reply);
      if stop.Some? {
        end := stop.value;
        replies := replies + reply;
        break;
      }
      ghost var u := Serve(conn.incoming, files', blocking);
      AppendAssoc(replies, reply, u.replies);
      replies := replies + reply;
    }
    conn.Close();
  }

  /** One pass of the handler's loop (server.py:53-73): one receive, then
      the sentinel's `closed`, a handler's reply, or the exception that
      ends the connection. */
  method ServeRequest(conn: Socket, files: Files) returns (files': Files, stop: Option<End>, ghost reply: Bytes)
    modifies conn
    ensures var t := Serve(old(conn.incoming), files, old(conn.timeout).None?);
      && (stop.Some? ==> t == Session(reply, files', stop.value, conn.incoming))
      && (stop.None? ==>
            var u := Serve(conn.incoming, files', old(conn.timeout).None?);
            t == Session(reply + u.replies, u.files, u.end, u.rest) && Size(conn.incoming) < Size(old(conn.incoming)))
    ensures conn.sent == old(conn.sent) + reply
    ensures conn.timeout == old(conn.timeout) && conn.open == old(conn.open)
  {
    ServeStep(conn.incoming, files, conn.timeout.None?);
    files', reply := files, [];
    var r := conn.Receive(ChunkSize);
    if r.TimedOut? {
      assert conn.sent == old(conn.sent) + [];
      return files', Some(Failed), reply;
    }
    var request := Decode(r.bytes);
    if IsClose(request) {
      conn.Send(Encode(ClosedReply));
      return files', Some(Closed), Encode(ClosedReply);
    }
    var response := Respond(request, files);
    if response.None? {
      assert conn.sent == old(conn.sent) + [];
      return files', Some(Failed), reply;
    }
    conn.Send(response.value.reply);
    return response.value.files, None, response.value.reply;
  }
}
