/** A TCP connection as one endpoint sees it: the bytes that will arrive,
    cut into the segments the peer's writes produce, interleaved with
    silences long enough to trip a receive timeout; and the bytes this
    endpoint has sent. */
module Wire {
  import opened Text

  /** The line break of the HTTP-like messages, and the blank line that
      ends a head. */
  const CRLF: string := "\r\n"
  const HeaderEnd: string := "\r\n\r\n"

  /** Every CR in `s` starts a CRLF that a character other than CR follows,
      so no blank line begins inside `s`. */
  predicate NoBlankLine(s: string) {
    forall p :: 0 <= p < |s| && s[p] == '\r' ==> p + 2 < |s| && s[p + 1] == '\n' && s[p + 2] != '\r'
  }

  /** A line without CR, a CRLF, then more such text opening with a
      character other than CR. */
  lemma NoBlankLineJoin(line: string, more: string)
    requires '\r' !in line && more != [] && more[0] != '\r' && NoBlankLine(more)
    ensures NoBlankLine(line + CRLF + more)
  {
    var s := line + CRLF + more;
    forall p | 0 <= p < |s| && s[p] == '\r' ensures p + 2 < |s| && s[p + 1] == '\n' && s[p + 2] != '\r' {
      if p >= |line| + 2 {
        assert s[p] == more[p - |line| - 2];
      }
    }
  }

  /** A head with no blank line in it ends at the blank line that follows
      it: the first CRLF CRLF of head + CRLF CRLF + body is that one. */
  lemma HeadSplit(head: string, body: string)
    requires NoBlankLine(head)
    ensures Contains(head + HeaderEnd + body, HeaderEnd)
    ensures Find(head + HeaderEnd + body, HeaderEnd) == |head|
    ensures AfterFirst(head + HeaderEnd + body, HeaderEnd) == body
    ensures Split(head + HeaderEnd + body, HeaderEnd)[0] == head
  {
    var s := head + HeaderEnd + body;
    assert s[|head|..|head| + 4] == HeaderEnd;
    assert OccursAt(s, HeaderEnd, |head|);
    forall i | 0 <= i < |head| ensures !OccursAt(s, HeaderEnd, i) {
      if head[i] == '\r' {
        assert s[i + 2] == head[i + 2];
      } else {
        NotOccursAt(s, HeaderEnd, i);
      }
    }
    assert s[..|head|] == head;
    assert s[|head| + |HeaderEnd|..] == body;
  }

  /** What happens next on the incoming side.  `Data([])` is the peer
      closing its end; the end of the sequence means the same. */
  datatype Event = Data(bytes: Bytes) | Timeout

  /** The outcome of one `recv(n)`: some bytes (none when the peer has
      closed), or a `socket.timeout`. */
  datatype Received = Chunk(bytes: Bytes) | TimedOut

  /** A measure that every receive of at least one byte decreases. */
  function Size(events: seq<Event>): nat {
    if events == [] then 0
    else (match events[0] case Data(d) => |d| + 1 case Timeout => 1) + Size(events[1..])
  }

  /** All bytes the peer will deliver, in order; silences carry none. */
  function Stream(events: seq<Event>): Bytes {
    if events == [] then []
    else (match events[0] case Data(d) => d case Timeout => []) + Stream(events[1..])
  }

  /** `sock.recv(n)`: at most `n` bytes from the segment at the head; what
      is left of that segment stays for the next call.  A socket with a
      timeout raises on a silence; a blocking socket waits it out. */
  function Recv(events: seq<Event>, n: nat, blocking: bool): (r: (Received, seq<Event>))
    ensures r.0.Chunk? ==> |r.0.bytes| <= n
    ensures r.0.TimedOut? ==> !blocking
    ensures events == [] ==> r == (Chunk([]), [])
    ensures n > 0 && events != [] ==> Size(r.1) < Size(events)
    ensures Size(r.1) <= Size(events)
  {
    if events == [] then (Chunk([]), [])
    else match events[0]
      case Timeout =>
        if blocking then Recv(events[1..], n, blocking) else (TimedOut, events[1..])
      case Data(d) =>
        if |d| <= n then (Chunk(d), events[1..])
        else
          assert d == d[..n] + d[n..];
          (Chunk(d[..n]), [Data(d[n..])] + events[1..])
  }

  /** A receive takes its bytes off the front of the stream, and a
      timeout takes none. */
  lemma {:induction false} RecvStream(events: seq<Event>, n: nat, blocking: bool)
    ensures var (c, rest) := Recv(events, n, blocking);
      Stream(events) == (if c.Chunk? then c.bytes else []) + Stream(rest)
  {
    if events != [] {
      match events[0]
      case Timeout =>
        if blocking {
          RecvStream(events[1..], n, blocking);
        }
      case Data(d) =>
        if |d| > n {
          assert d == d[..n] + d[n..];
          var rest := [Data(d[n..])] + events[1..];
          assert rest[0] == Data(d[n..]) && rest[1..] == events[1..];
          assert Stream(rest) == d[n..] + Stream(events[1..]);
        }
    }
  }

  /** The peer delivers every segment it announces and neither closes nor
      falls silent along the way: each event is a non-empty segment. */
  predicate Prompt(events: seq<Event>) {
    forall i :: 0 <= i < |events| ==> events[i].Data? && events[i].bytes != []
  }

  /** On a prompt stream a receive of at least one byte gets at least one,
      and what is left is prompt too. */
  lemma RecvPrompt(events: seq<Event>, n: nat, blocking: bool)
    requires Prompt(events) && events != [] && n > 0
    ensures var (c, rest) := Recv(events, n, blocking);
      c.Chunk? && c.bytes != [] && Prompt(rest)
  {
    assert events[0].Data?;
    var d := events[0].bytes;
    if |d| > n {
      var rest := [Data(d[n..])] + events[1..];
      forall i | 0 <= i < |rest| ensures rest[i].Data? && rest[i].bytes != [] {
        if i > 0 {
          assert rest[i] == events[i];
        }
      }
    } else {
      forall i | 0 <= i < |events[1..]| ensures events[1..][i].Data? && events[1..][i].bytes != [] {
        assert events[1..][i] == events[i + 1];
      }
    }
  }

  class Socket {
    /** What the peer has yet to deliver. */
    var incoming: seq<Event>
    /** Everything this endpoint has sent, in order. */
    var sent: Bytes
    /** `settimeout`: `None` is a blocking socket, Python's default. */
    var timeout: Option<nat>
    var open: bool
    /** Whether a `connect` to the peer succeeds. */
    const reachable: bool

    constructor (incoming: seq<Event>, reachable: bool)
      ensures this.incoming == incoming && this.reachable == reachable
      ensures sent == [] && timeout == None && open
    {
      this.incoming := incoming;
      this.reachable := reachable;
      sent := [];
      timeout := None;
      open := true;
    }

    method SetTimeout(seconds: nat)
      modifies this
      ensures timeout == Some(seconds)
      ensures incoming == old(incoming) && sent == old(sent) && open == old(open)
    {
      timeout := Some(seconds);
    }

    method Connect() returns (ok: bool)
      ensures ok == reachable
    {
      ok := reachable;
    }

    method Receive(n: nat) returns (r: Received)
      modifies this
      ensures (r, incoming) == Recv(old(incoming), n, old(timeout).None?)
      ensures sent == old(sent) && timeout == old(timeout) && open == old(open)
    {
      var received := Recv(incoming, n, timeout.None?);
      r, incoming := received.0, received.1;
    }

    method Send(b: Bytes)
      modifies this
      ensures sent == old(sent) + b
      ensures incoming == old(incoming) && timeout == old(timeout) && open == old(open)
    {
      sent := sent + b;
    }

    method Close()
      modifies this
      ensures !open
      ensures incoming == old(incoming) && sent == old(sent) && timeout == old(timeout)
    {
      open := false;
    }
  }
}
