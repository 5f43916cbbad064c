/** One request of the load tester (test/perf.py, `make_request`): send a
    fixed GET or POST on a kept-alive connection, read the response head,
    then read as much body as its Content-Length announces. */
module LoadTester {
  import opened Text
  import opened Wire

  // ---------------------------------------------------------------------
  // The two requests
  // ---------------------------------------------------------------------

  const GetRequest: string := "GET test.txt HTTP/1.1\r\nConnection: keep-alive\r\n\r\n"

  const TestContent: string := "Test content"

  /** test/perf.py:29-35: the declared length is that of the content. */
  const PostRequest: string :=
    "POST test.txt HTTP/1.1\r\n" + "Connection: keep-alive\r\n"
      + "Content-Length: " + NatToText(|TestContent|) + HeaderEnd + TestContent

  /** test/perf.py:26-35: `GET` selects the GET request, anything else the POST. */
  function RequestFor(requestType: string): string {
    if requestType == "GET" then GetRequest else PostRequest
  }

  /** The GET request is chosen exactly for `GET`. */
  lemma RequestForSelects(requestType: string)
    ensures RequestFor(requestType) == GetRequest <==> requestType == "GET"
    ensures requestType != "GET" ==> RequestFor(requestType) == PostRequest
  {
    assert |GetRequest| < |PostRequest|;
  }

  // ---------------------------------------------------------------------
  // Content-Length
  // ---------------------------------------------------------------------

  const LengthName: string := "content-length:"

  predicate IsLengthHeader(line: string) {
    StartsWith(Lower(line), LengthName)
  }

  datatype Length = NoLength | Length(n: int) | BadLength

  /** `int(line.split(':')[1].strip())`: the text between the first and the
      second colon; a header line always has a first colon. */
  function LengthValue(line: string): (r: Length)
    requires IsLengthHeader(line)
    ensures |Split(line, ":")| >= 2
    ensures !r.NoLength?
    ensures r.Length? <==> ParseInt(Strip(Split(line, ":")[1])).Some?
    ensures r.Length? ==> r.n == ParseInt(Strip(Split(line, ":")[1])).value
  {
    assert line[14] == ':' by { assert Lower(line)[14] == LengthName[14]; }
    assert ':' in line;
    SplitCount(line, ':');
    var v := ParseInt(Strip(Split(line, ":")[1]));
    if v.Some? then Length(v.value) else BadLength
  }

  /** test/perf.py:51-56: the first line that names Content-Length in any
      case decides; none means no length. */
  function FindContentLength(lines: seq<string>): (r: Length)
    ensures r.NoLength? <==> forall i :: 0 <= i < |lines| ==> !IsLengthHeader(lines[i])
  {
    var k := FirstIndex(lines, IsLengthHeader);
    if k == |lines| then NoLength else LengthValue(lines[k])
  }

  /** The length is read from the first line naming it, whatever the lines
      after it say. */
  lemma LengthFromFirstHeader(lines: seq<string>, k: nat)
    requires k < |lines| && IsLengthHeader(lines[k])
    requires forall j :: 0 <= j < k ==> !IsLengthHeader(lines[j])
    ensures FindContentLength(lines) == LengthValue(lines[k])
  {
  }

  /** The first two lines of the POST do not name a length. */
  lemma PostHeadStartNamesNoLength()
    ensures !IsLengthHeader("POST test.txt HTTP/1.1")
    ensures !IsLengthHeader("Connection: keep-alive")
  {
    DiffersFromLengthName("POST test.txt HTTP/1.1", 0);
    DiffersFromLengthName("Connection: keep-alive", 3);
  }

  /** A line whose lower-cased character at `i` differs from the header
      name's does not name the length. */
  lemma DiffersFromLengthName(line: string, i: nat)
    requires i < |LengthName| && i < |line| && LowerChar(line[i]) != LengthName[i]
    ensures !IsLengthHeader(line)
  {
    assert Lower(line)[i] != LengthName[i];
  }

  /** `len("Test content")` written out. */
  lemma TwelveText()
    ensures NatToText(|TestContent|) == "12"
  {
    assert NatToText(1) == "1";
  }

  /** `" 12".strip()` is `"12"`. */
  lemma StripTwelve()
    ensures Strip(" 12") == "12"
  {
    StripLeftSpaces(" ", "12");
    StripRightSpaces("12", "");
    assert "12" + "" == "12";
  }

  /** `int("12")` is twelve. */
  lemma ParseTwelve()
    ensures ParseInt("12") == Some(12)
  {
    TwelveText();
    ParseDecimal(12);
  }

  /** The value part of the third line of the POST. */
  lemma LengthLineSplit()
    ensures Split("Content-Length: 12", ":") == ["Content-Length", " 12"]
  {
    var name, value := "Content-Length", " 12";
    assert "Content-Length: 12" == name + ":" + value;
    assert ':' !in name && ':' !in value;
    SplitAfter(name, ":", value);
    SplitNone(value, ":");
  }

  /** The third line of the POST announces twelve bytes. */
  lemma PostLengthLine()
    ensures IsLengthHeader("Content-Length: 12")
    ensures LengthValue("Content-Length: 12") == Length(12)
  {
    assert Lower("Content-Length: 12")[..15] == LengthName;
    LengthLineSplit();
    StripTwelve();
    ParseTwelve();
  }

  /** Three head lines of which only the third names the length. */
  lemma LengthOnThirdLine(a: string, b: string, c: string)
    requires !IsLengthHeader(a) && !IsLengthHeader(b) && IsLengthHeader(c)
    ensures FindContentLength([a, b, c]) == LengthValue(c)
  {
    var lines := [a, b, c];
    assert forall j :: 0 <= j < 2 ==> !IsLengthHeader(lines[j]);
    LengthFromFirstHeader(lines, 2);
  }

  /** Of the three head lines of the POST, the third names the length. */
  lemma PostLengthFound()
    ensures FindContentLength(["POST test.txt HTTP/1.1", "Connection: keep-alive", "Content-Length: 12"]) == Length(12)
  {
    PostHeadStartNamesNoLength();
    PostLengthLine();
    LengthOnThirdLine("POST test.txt HTTP/1.1", "Connection: keep-alive", "Content-Length: 12");
  }

  /** Three lines without CR, the second and third non-empty, joined by
      CRLF: no blank line inside, and splitting at CRLF gives them back. */
  lemma HeadLines3(line1: string, line2: string, line3: string)
    requires '\r' !in line1 && '\r' !in line2 && '\r' !in line3
    requires line2 != [] && line3 != []
    ensures NoBlankLine(line1 + CRLF + line2 + CRLF + line3)
    ensures Split(line1 + CRLF + line2 + CRLF + line3, CRLF) == [line1, line2, line3]
  {
    assert line1 + CRLF + line2 + CRLF + line3 == line1 + CRLF + (line2 + CRLF + line3);
    NoBlankLineJoin(line2, line3);
    NoBlankLineJoin(line1, line2 + CRLF + line3);
    SplitAfter(line1, CRLF, line2 + CRLF + line3);
    SplitAfter(line2, CRLF, line3);
    SplitNone(line3, CRLF);
  }

  /** No line of the POST head holds a CR. */
  lemma PostLinesHaveNoCR()
    ensures '\r' !in "POST test.txt HTTP/1.1"
    ensures '\r' !in "Connection: keep-alive"
    ensures '\r' !in "Content-Length: 12"
  {
  }

  /** The POST announces exactly the length of what follows its blank line. */
  lemma PostAnnouncesItsBody()
    ensures Contains(PostRequest, HeaderEnd)
    ensures AfterFirst(PostRequest, HeaderEnd) == TestContent
    ensures FindContentLength(Split(Split(PostRequest, HeaderEnd)[0], CRLF)) == Length(|TestContent|)
  {
    var line1 := "POST test.txt HTTP/1.1";
    var line2 := "Connection: keep-alive";
    var line3 := "Content-Length: 12";
    var head := line1 + CRLF + line2 + CRLF + line3;
    TwelveText();
    assert PostRequest == head + HeaderEnd + TestContent;
    PostLinesHaveNoCR();
    HeadLines3(line1, line2, line3);
    HeadSplit(head, TestContent);
    PostLengthFound();
  }

  // ---------------------------------------------------------------------
  // Reading the response
  // ---------------------------------------------------------------------

  /** The exception that ends a request. */
  datatype Failure = ClosedReadingHeaders | ClosedReadingBody | BadContentLength | SocketTimeout

  /** Where a read loop left off. */
  datatype Step = Done(response: Bytes, rest: seq<Event>) | Broke(why: Failure, rest: seq<Event>)

  /** test/perf.py:43-48: append 1024-byte reads until the buffer holds a
      blank line; an empty read before that is a failure. */
  function ReadHead(events: seq<Event>, response: Bytes, blocking: bool): (r: Step)
    ensures r.Done? ==> Contains(r.response, Encode(HeaderEnd)) && response <= r.response
    ensures r.Broke? ==> r.why == ClosedReadingHeaders || (r.why == SocketTimeout && !blocking)
    decreases Size(events)
  {
    if Contains(response, Encode(HeaderEnd)) then Done(response, events)
    else
      var (c, rest) := Recv(events, 1024, blocking);
      match c
      case TimedOut => Broke(SocketTimeout, rest)
      case Chunk(bytes) =>
        if bytes == [] then Broke(ClosedReadingHeaders, rest)
        else ReadHead(rest, response + bytes, blocking)
  }

  /** A head read that completes takes its bytes straight off the stream. */
  lemma {:induction false} HeadReadExact(events: seq<Event>, response: Bytes, blocking: bool)
    requires ReadHead(events, response, blocking).Done?
    ensures var r := ReadHead(events, response, blocking);
      Stream(events) == r.response[|response|..] + Stream(r.rest)
    decreases Size(events)
  {
    if !Contains(response, Encode(HeaderEnd)) {
      var (c, rest) := Recv(events, 1024, blocking);
      RecvStream(events, 1024, blocking);
      assert c.Chunk? && c.bytes != [];
      var bytes := c.bytes;
      var r := ReadHead(rest, response + bytes, blocking);
      assert ReadHead(events, response, blocking) == r;
      HeadReadExact(rest, response + bytes, blocking);
      assert Stream(events) == bytes + Stream(rest);
      SliceAfterPrefix(response, bytes, r.response);
      AppendAssoc(bytes, r.response[|response| + |bytes|..], Stream(r.rest));
    }
  }

  /** test/perf.py:62-67: read `min(remaining, 1024)` at a time until the
      announced body is in; an empty read is a failure. */
  function ReadBody(events: seq<Event>, remaining: int, response: Bytes, blocking: bool): (r: Step)
    ensures r.Done? ==> response <= r.response
    ensures r.Broke? ==> r.why == ClosedReadingBody || (r.why == SocketTimeout && !blocking)
    decreases Size(events)
  {
    if remaining <= 0 then Done(response, events)
    else
      var (c, rest) := Recv(events, if remaining < 1024 then remaining else 1024, blocking);
      match c
      case TimedOut => Broke(SocketTimeout, rest)
      case Chunk(bytes) =>
        if bytes == [] then Broke(ClosedReadingBody, rest)
        else ReadBody(rest, remaining - |bytes|, response + bytes, blocking)
  }

  /** One chunk of a body read that completes: a non-empty receive of at
      most what is missing, taken off the front of the stream. */
  lemma ReadBodyStep(events: seq<Event>, remaining: int, response: Bytes, blocking: bool)
    returns (bytes: Bytes, rest: seq<Event>)
    requires remaining > 0 && ReadBody(events, remaining, response, blocking).Done?
    ensures Recv(events, if remaining < 1024 then remaining else 1024, blocking) == (Chunk(bytes), rest)
    ensures 0 < |bytes| <= remaining
    ensures Stream(events) == bytes + Stream(rest)
    ensures ReadBody(events, remaining, response, blocking) == ReadBody(rest, remaining - |bytes|, response + bytes, blocking)
  {
    var (c, r) := Recv(events, if remaining < 1024 then remaining else 1024, blocking);
    RecvStream(events, if remaining < 1024 then remaining else 1024, blocking);
    bytes, rest := c.bytes, r;
  }

  /** A body read that completes takes exactly the bytes still missing, no
      more. */
  lemma {:induction false} BodyReadLength(events: seq<Event>, remaining: int, response: Bytes, blocking: bool)
    requires ReadBody(events, remaining, response, blocking).Done?
    ensures |ReadBody(events, remaining, response, blocking).response| == |response| + (if remaining > 0 then remaining else 0)
    decreases Size(events)
  {
    if remaining > 0 {
      var bytes, rest := ReadBodyStep(events, remaining, response, blocking);
      BodyReadLength(rest, remaining - |bytes|, response + bytes, blocking);
    }
  }

  /** ... and takes them straight off the stream. */
  lemma {:induction false} BodyReadExact(events: seq<Event>, remaining: int, response: Bytes, blocking: bool, r: Step)
    requires r == ReadBody(events, remaining, response, blocking) && r.Done?
    ensures Stream(events) == r.response[|response|..] + Stream(r.rest)
    decreases Size(events)
  {
    if remaining > 0 {
      var bytes, rest := ReadBodyStep(events, remaining, response, blocking);
      assert r == ReadBody(rest, remaining - |bytes|, response + bytes, blocking);
      var before := response + bytes;
      BodyReadExact(rest, remaining - |bytes|, before, blocking, r);
      assert before <= r.response;
      assert |before| == |response| + |bytes|;
      assert Stream(rest) == r.response[|response| + |bytes|..] + Stream(r.rest);
      SliceChain(response, bytes, r.response, Stream(events), Stream(rest), Stream(r.rest));
    }
  }

  /** The head read stops at the receive that completes the blank line:
      what it has read beyond that blank line is less than one receive. */
  lemma {:induction false} HeadReadStops(events: seq<Event>, response: Bytes, blocking: bool)
    requires ReadHead(events, response, blocking).Done? && !Contains(response, Encode(HeaderEnd))
    ensures |AfterFirst(ReadHead(events, response, blocking).response, Encode(HeaderEnd))| < 1024
    decreases Size(events)
  {
    var he := Encode(HeaderEnd);
    var (c, rest) := Recv(events, 1024, blocking);
    assert c.Chunk? && c.bytes != [] && events != [];
    if Contains(response + c.bytes, he) {
      AfterFirstEndsInside(response, c.bytes, he);
    } else {
      HeadReadStops(rest, response + c.bytes, blocking);
    }
  }

  /** On a prompt stream the head read completes exactly when the peer
      sends a blank line, and leaves a prompt stream behind. */
  lemma {:induction false} ReadHeadCompletes(events: seq<Event>, response: Bytes, blocking: bool)
    requires Prompt(events)
    ensures var r := ReadHead(events, response, blocking);
      (r.Done? <==> Contains(response + Stream(events), Encode(HeaderEnd))) && Prompt(r.rest)
    decreases Size(events)
  {
    var he := Encode(HeaderEnd);
    if Contains(response, he) {
      ContainsExtension(response, he, Stream(events));
    } else if events == [] {
      assert response + Stream(events) == response;
    } else {
      RecvPrompt(events, 1024, blocking);
      RecvStream(events, 1024, blocking);
      var (c, rest) := Recv(events, 1024, blocking);
      ReadHeadCompletes(rest, response + c.bytes, blocking);
      AppendAssoc(response, c.bytes, Stream(rest));
    }
  }

  /** On a prompt stream the body read completes exactly when the peer
      sends at least the bytes still missing. */
  lemma {:induction false} ReadBodyCompletes(events: seq<Event>, remaining: int, response: Bytes, blocking: bool)
    requires Prompt(events)
    ensures ReadBody(events, remaining, response, blocking).Done? <==> remaining <= |Stream(events)|
    decreases Size(events)
  {
    if remaining > 0 && events != [] {
      var n := if remaining < 1024 then remaining else 1024;
      RecvPrompt(events, n, blocking);
      RecvStream(events, n, blocking);
      var (c, rest) := Recv(events, n, blocking);
      ReadBodyCompletes(rest, remaining - |c.bytes|, response + c.bytes, blocking);
    }
  }

  /** A head that arrives as one segment of at most 1024 bytes is read in
      one receive. */
  lemma HeadInOneSegment(m: Bytes, rest: seq<Event>, blocking: bool)
    requires 0 < |m| <= 1024 && Contains(m, Encode(HeaderEnd))
    ensures ReadHead([Data(m)] + rest, [], blocking) == Done(m, rest)
  {
    var events := [Data(m)] + rest;
    assert events[0] == Data(m) && events[1..] == rest;
    assert !Contains([], Encode(HeaderEnd));
    assert [] + m == m;
  }

  /** Missing body bytes that arrive as one segment are read whole, in
      receives of at most 1024 bytes. */
  lemma {:induction false} BodyInOneSegment(d: Bytes, rest: seq<Event>, response: Bytes, blocking: bool)
    requires |d| > 0
    ensures ReadBody([Data(d)] + rest, |d|, response, blocking) == Done(response + d, rest)
    decreases |d|
  {
    var events := [Data(d)] + rest;
    assert events[0] == Data(d) && events[1..] == rest;
    if |d| > 1024 {
      var tail := d[1024..];
      assert d == d[..1024] + tail;
      BodyInOneSegment(tail, rest, response + d[..1024], blocking);
      AppendAssoc(response, d[..1024], tail);
    }
  }

  /** The head of a complete response, decoded: what precedes the first
      blank line (test/perf.py:51). */
  function HeadLines(response: Bytes): seq<string> {
    Split(Decode(Split(response, Encode(HeaderEnd))[0]), CRLF)
  }

  /** `response.split(b"\r\n\r\n", 1)[1]` (test/perf.py:61): what
      follows the first blank line. */
  function BodySoFar(response: Bytes): Bytes {
    AfterFirst(response, Encode(HeaderEnd))
  }

  /** What `make_request` reports: success, or the exception that ended it. */
  datatype Outcome = Success | Failed(why: Failure)

  datatype Exchange = Exchange(outcome: Outcome, response: Bytes, rest: seq<Event>)

  /** test/perf.py:42-67 after the request is sent. */
  function Respond(events: seq<Event>, blocking: bool): Exchange {
    match ReadHead(events, [], blocking)
    case Broke(why, rest) => Exchange(Failed(why), [], rest)
    case Done(head, rest) => AfterHead(FindContentLength(HeadLines(head)), head, |BodySoFar(head)|, rest, blocking)
  }

  /** test/perf.py:51-67: the length named in a complete head decides how
      much body to read, given the `early` body bytes the head read took. */
  function AfterHead(length: Length, head: Bytes, early: nat, events: seq<Event>, blocking: bool): Exchange {
    match length
    case BadLength => Exchange(Failed(BadContentLength), head, events)
    case NoLength => Exchange(Success, head, events)
    case Length(n) =>
      if n == 0 then Exchange(Success, head, events)
      else Finish(ReadBody(events, n - early, head, blocking))
  }

  /** A request whose head read completes goes on with that head. */
  lemma RespondAfterHead(events: seq<Event>, blocking: bool)
    requires ReadHead(events, [], blocking).Done?
    ensures var h := ReadHead(events, [], blocking);
      Respond(events, blocking)
        == AfterHead(FindContentLength(HeadLines(h.response)), h.response, |BodySoFar(h.response)|, h.rest, blocking)
  {
  }

  /** How a body read ends the request. */
  function Finish(body: Step): Exchange {
    match body
    case Broke(why, rest) => Exchange(Failed(why), [], rest)
    case Done(response, rest) => Exchange(Success, response, rest)
  }

  /** After a complete head, a successful request extends that head with
      exactly the bytes that follow it on the stream: none without a
      length, and otherwise whatever of the declared body was missing. */
  lemma AfterHeadExtends(length: Length, head: Bytes, early: nat, events: seq<Event>, blocking: bool)
    requires AfterHead(length, head, early, events, blocking).outcome == Success
    ensures var x := AfterHead(length, head, early, events, blocking);
      && x.response == head + x.response[|head|..]
      && Stream(events) == x.response[|head|..] + Stream(x.rest)
      && |x.response| == |head| + (if length.Length? && length.n > early then length.n - early else 0)
  {
    var x := AfterHead(length, head, early, events, blocking);
    if length.Length? && length.n != 0 {
      var b := ReadBody(events, length.n - early, head, blocking);
      assert x == Finish(b);
      BodyReadExact(events, length.n - early, head, blocking, b);
      BodyReadLength(events, length.n - early, head, blocking);
    } else {
      assert x.response == head && x.rest == events;
      assert head[|head|..] == [];
    }
  }

  /** A successful request has read a whole head, and the response it keeps
      is exactly what the peer sent up to where reading stopped. */
  lemma RespondReadsStream(events: seq<Event>, blocking: bool)
    requires Respond(events, blocking).outcome == Success
    ensures var x := Respond(events, blocking);
      && Contains(x.response, Encode(HeaderEnd))
      && Stream(events) == x.response + Stream(x.rest)
  {
    var h := ReadHead(events, [], blocking);
    RespondAfterHead(events, blocking);
    var head := h.response;
    var x := AfterHead(FindContentLength(HeadLines(head)), head, |BodySoFar(head)|, h.rest, blocking);
    AfterHeadExtends(FindContentLength(HeadLines(head)), head, |BodySoFar(head)|, h.rest, blocking);
    HeadReadExact(events, [], blocking);
    assert head[0..] == head;
    var more := x.response[|head|..];
    ContainsExtension(head, Encode(HeaderEnd), more);
    AppendAssoc(head, more, Stream(x.rest));
  }

  /** On a prompt stream `make_request` reports success exactly when the
      peer sends a whole head whose Content-Length, if any, is a number
      and is followed by at least the body bytes the head read left
      missing (test/perf.py:43-74). */
  lemma RespondSucceeds(events: seq<Event>, blocking: bool)
    requires Prompt(events)
    ensures ReadHead(events, [], blocking).Done? <==> Contains(Stream(events), Encode(HeaderEnd))
    ensures Respond(events, blocking).outcome == Success <==>
      && ReadHead(events, [], blocking).Done?
      && var h := ReadHead(events, [], blocking);
         var length := FindContentLength(HeadLines(h.response));
         && !length.BadLength?
         && (length.Length? ==> length.n - |BodySoFar(h.response)| <= |Stream(h.rest)|)
  {
    ReadHeadCompletes(events, [], blocking);
    assert [] + Stream(events) == Stream(events);
    var h := ReadHead(events, [], blocking);
    if h.Done? {
      RespondAfterHead(events, blocking);
      AfterHeadSucceeds(FindContentLength(HeadLines(h.response)), h.response, |BodySoFar(h.response)|, h.rest, blocking);
    }
  }

  /** After a complete head on a prompt stream: success exactly when the
      length is not malformed and the missing body bytes arrive; no
      length, or a length of zero, ends at once. */
  lemma AfterHeadSucceeds(length: Length, head: Bytes, early: nat, events: seq<Event>, blocking: bool)
    requires Prompt(events)
    ensures AfterHead(length, head, early, events, blocking).outcome == Success <==>
      !length.BadLength? && (length.Length? ==> length.n - early <= |Stream(events)|)
    ensures length.NoLength? || length == Length(0) ==>
      AfterHead(length, head, early, events, blocking) == Exchange(Success, head, events)
  {
    if length.Length? && length.n != 0 {
      ReadBodyCompletes(events, length.n - early, head, blocking);
    }
  }

  /** After a successful request with a declared length, the body behind
      the blank line is as long as declared, or longer when the head read
      already took more: the body loop reads exactly what is missing. */
  lemma BodyLengthOnSuccess(events: seq<Event>, blocking: bool)
    requires Respond(events, blocking).outcome == Success
    requires ReadHead(events, [], blocking).Done?
    requires FindContentLength(HeadLines(ReadHead(events, [], blocking).response)).Length?
    ensures var head := ReadHead(events, [], blocking).response;
      var n := FindContentLength(HeadLines(head)).n;
      var early := |BodySoFar(head)|;
      var x := Respond(events, blocking);
      Contains(x.response, Encode(HeaderEnd))
      && |BodySoFar(x.response)| == (if n > early then n else early)
  {
    var he := Encode(HeaderEnd);
    var h := ReadHead(events, [], blocking);
    var head := h.response;
    var length := FindContentLength(HeadLines(head));
    var early := |BodySoFar(head)|;
    RespondAfterHead(events, blocking);
    var x := AfterHead(length, head, early, h.rest, blocking);
    AfterHeadExtends(length, head, early, h.rest, blocking);
    var more := x.response[|head|..];
    AfterFirstExtension(head, he, more);
    ContainsExtension(head, he, more);
  }

  /** test/perf.py:43-48 on the socket: receive until the buffer holds a
      blank line. */
  method ReceiveHead(conn: Socket) returns (step: Step)
    modifies conn
    ensures step == ReadHead(old(conn.incoming), [], old(conn.timeout).None?)
    ensures conn.incoming == step.rest
    ensures conn.sent == old(conn.sent) && conn.timeout == old(conn.timeout) && conn.open == old(conn.open)
  {
    ghost var blocking := conn.timeout.None?;
    ghost var head := ReadHead(conn.incoming, [], blocking);
    var response: Bytes := [];
    while !Contains(response, Encode(HeaderEnd))
      invariant conn.sent == old(conn.sent) && conn.timeout == old(conn.timeout) && conn.open == old(conn.open)
      invariant ReadHead(conn.incoming, response, blocking) == head
      decreases Size(conn.incoming)
    {
      var r := conn.Receive(1024);
      if r.TimedOut? {
        return Broke(SocketTimeout, conn.incoming);
      }
      if r.bytes == [] {
        return Broke(ClosedReadingHeaders, conn.incoming);
      }
      response := response + r.bytes;
    }
    return Done(response, conn.incoming);
  }

  /** test/perf.py:62-67 on the socket: receive `min(remaining, 1024)` at a
      time; what has arrived and what is still missing always add up to
      what was missing at the start. */
  method ReceiveBody(conn: Socket, response: Bytes, remaining: int) returns (step: Step)
    modifies conn
    ensures step == ReadBody(old(conn.incoming), remaining, response, old(conn.timeout).None?)
    ensures conn.incoming == step.rest
    ensures conn.sent == old(conn.sent) && conn.timeout == old(conn.timeout) && conn.open == old(conn.open)
  {
    ghost var blocking := conn.timeout.None?;
    ghost var body := ReadBody(conn.incoming, remaining, response, blocking);
    var buffer, missing := response, remaining;
    while missing > 0
      invariant conn.sent == old(conn.sent) && conn.timeout == old(conn.timeout) && conn.open == old(conn.open)
      invariant response <= buffer
      invariant (|buffer| - |response|) + missing == remaining
      invariant ReadBody(conn.incoming, missing, buffer, blocking) == body
      decreases Size(conn.incoming)
    {
      var r := conn.Receive(if missing < 1024 then missing else 1024);
      if r.TimedOut? {
        return Broke(SocketTimeout, conn.incoming);
      }
      if r.bytes == [] {
        return Broke(ClosedReadingBody, conn.incoming);
      }
      buffer := buffer + r.bytes;
      missing := missing - |r.bytes|;
    }
    return Done(buffer, conn.incoming);
  }

  /** test/perf.py:51-56 as a loop: stop at the first line naming
      Content-Length and convert its value. */
  method ScanLength(lines: seq<string>) returns (length: Length)
    ensures length == FindContentLength(lines)
  {
    for i := 0 to |lines|
      invariant forall j :: 0 <= j < i ==> !IsLengthHeader(lines[j])
    {
      if IsLengthHeader(lines[i]) {
        LengthFromFirstHeader(lines, i);
        return LengthValue(lines[i]);
      }
    }
    return NoLength;
  }

  /** test/perf.py:58-67 on the socket: with the length the head names and
      the `early` body bytes the head read took, read what is missing. */
  method ReceiveRest(conn: Socket, length: Length, head: Bytes, early: nat) returns (outcome: Outcome)
    modifies conn
    ensures var x := AfterHead(length, head, early, old(conn.incoming), old(conn.timeout).None?);
      outcome == x.outcome && conn.incoming == x.rest
    ensures conn.sent == old(conn.sent) && conn.timeout == old(conn.timeout) && conn.open == old(conn.open)
  {
    if length.BadLength? {
      outcome := Failed(BadContentLength);
    } else if length.NoLength? || length.n == 0 {
      outcome := Success;
    } else {
      var body := ReceiveBody(conn, head, length.n - early);
      outcome := if body.Done? then Success else Failed(body.why);
    }
  }

  /** test/perf.py:42-67 on the socket: the response to a request already
      sent. */
  method ReceiveResponse(conn: Socket) returns (outcome: Outcome)
    modifies conn
    ensures var x := Respond(old(conn.incoming), old(conn.timeout).None?);
      outcome == x.outcome && conn.incoming == x.rest
    ensures conn.sent == old(conn.sent) && conn.timeout == old(conn.timeout) && conn.open == old(conn.open)
  {
    ghost var events := conn.incoming;
    var head := ReceiveHead(conn);
    if head.Broke? {
      return Failed(head.why);
    }
    RespondAfterHead(events, conn.timeout.None?);
    var length := ScanLength(HeadLines(head.response));
    outcome := ReceiveRest(conn, length, head.response, |BodySoFar(head.response)|);
  }

  /** `make_request` (test/perf.py:24-81) on a connection whose peer will
      send `conn.incoming`. */
  method MakeRequest(conn: Socket, requestType: string) returns (outcome: Outcome)
    modifies conn
    ensures var x := Respond(old(conn.incoming), old(conn.timeout).None?);
      outcome == x.outcome && conn.incoming == x.rest
    ensures conn.sent == old(conn.sent) + Encode(RequestFor(requestType))
    ensures conn.timeout == old(conn.timeout) && conn.open == old(conn.open)
  {
    conn.Send(Encode(RequestFor(requestType)));
    outcome := ReceiveResponse(conn);
  }
}
