/** The scripted client (Client/Client.py): each script line such as
    `client_get notes.txt 127.0.0.1 8000` becomes one request on a fresh
    connection, and a `closed` answer stops the client. */
module ScriptClient {
  import opened Text
  import opened Wire

  // ---------------------------------------------------------------------
  // Script lines
  // ---------------------------------------------------------------------

  datatype Command = Command(verb: string, path: string, serverIp: string, portNumber: string)

  /** `parse_request`: a line naming neither command is skipped; a command
      with fewer than four tokens raises IndexError. */
  datatype Parsed = Skipped | Malformed | Parsed(command: Command)

  /** Client/Client.py:8-27. */
  function ParseRequest(line: string): (r: Parsed)
    ensures var t := Split(line, " ");
      && (r.Skipped? <==> t[0] != "client_get" && t[0] != "client_post")
      && (r.Malformed? <==> (t[0] == "client_get" || t[0] == "client_post") && |t| < 4)
      && (r.Parsed? ==> r.command.verb == (if t[0] == "client_get" then "GET" else "POST"))
      && (r.Parsed? ==> |t| >= 4 && r.command.path == t[1] && r.command.serverIp == t[2] && r.command.portNumber == t[3])
  {
    var tokens := Split(line, " ");
    var verb := if tokens[0] == "client_get" then "GET" else if tokens[0] == "client_post" then "POST" else "";
    if verb == "" then Skipped
    else if |tokens| < 4 then Malformed
    else Parsed(Command(verb, tokens[1], tokens[2], tokens[3]))
  }

  /** The tokens of a parsed command hold no space. */
  lemma CommandTokensSpaceFree(line: string)
    requires ParseRequest(line).Parsed?
    ensures var c := ParseRequest(line).command;
      ' ' !in c.path && ' ' !in c.serverIp && ' ' !in c.portNumber
  {
    var tokens := Split(line, " ");
    forall k | 1 <= k < 4 ensures ' ' !in tokens[k] {
      SplitPiecesFree(line, " ", k);
      if ' ' in tokens[k] {
        var j :| 0 <= j < |tokens[k]| && tokens[k][j] == ' ';
        assert OccursAt(tokens[k], " ", j);
      }
    }
  }

  // ---------------------------------------------------------------------
  // One request
  // ---------------------------------------------------------------------

  /** f"{method} {file_path} HTTP/1.1\r\n\r\n" (Client/Client.py:41). */
  function RequestText(c: Command): string {
    c.verb + " " + c.path + " HTTP/1.1\r\n\r\n"
  }

  const MaxRequestLine: nat := 1024

  /** What the first send puts on the wire: at most 1024 bytes of the
      encoded request line (Client/Client.py:44). */
  function RequestBytes(c: Command): (b: Bytes)
    ensures |b| <= MaxRequestLine
    ensures |b| <= |RequestText(c)| && b == Encode(RequestText(c))[..|b|]
    ensures |RequestText(c)| <= MaxRequestLine ==> b == Encode(RequestText(c))
    ensures |RequestText(c)| > MaxRequestLine ==> |b| == MaxRequestLine
  {
    Prefix(Encode(RequestText(c)), MaxRequestLine)
  }

  datatype Address = Address(host: string, port: int)

  /** Whether a connection to an address succeeds, and what the server at
      the other end will send back on it. */
  datatype Peer = Peer(reachable: bool, answer: seq<Event>)

  type Network = Address -> Peer

  /** What became of one `send_request`. */
  datatype Attempt =
    | NoLocalFile                // `open(file_path)` raised
    | BadPort                    // `int(port)` raised, or `connect` refused the number
    | Unreachable(to: Address)   // `connect` raised
    | Exchanged(to: Address, sent: Bytes, reply: Bytes)

  /** `open(path, 'rb')` succeeds: the path names a local file, and the
      empty path never does. */
  predicate Readable(localFiles: map<string, Bytes>, path: string) {
    path != "" && path in localFiles
  }

  /** `int(port)` gave a number that `connect` accepts as a TCP port. */
  predicate ValidPort(port: Option<int>) {
    port.Some? && 0 <= port.value < 65536
  }

  /** Client/Client.py:29-62 as a value. */
  function AttemptOf(c: Command, localFiles: map<string, Bytes>, network: Network): (a: Attempt)
    ensures a.NoLocalFile? <==> !Readable(localFiles, c.path)
    ensures a.BadPort? <==> Readable(localFiles, c.path) && !ValidPort(ParseInt(c.portNumber))
    ensures a.Unreachable? || a.Exchanged? ==>
      && a.to == Address(c.serverIp, ParseInt(c.portNumber).value)
      && (a.Exchanged? <==> network(a.to).reachable)
    ensures a.Exchanged? ==>
      && a.sent == RequestBytes(c) + localFiles[c.path]
      && a.reply == Recv(network(a.to).answer, 1024, true).0.bytes
  {
    if !Readable(localFiles, c.path) then NoLocalFile
    else
      var port := ParseInt(c.portNumber);
      if !ValidPort(port) then BadPort
      else
        var to := Address(c.serverIp, port.value);
        var peer := network(to);
        if !peer.reachable then Unreachable(to)
        else
          var received := Recv(peer.answer, 1024, true).0;
          Exchanged(to, RequestBytes(c) + localFiles[c.path], if received.Chunk? then received.bytes else [])
  }

  /** `send_request` returns False only when the answer, read once and
      decoded, is `closed` in any case; every failure returns True. */
  predicate KeepGoing(a: Attempt) {
    !(a.Exchanged? && Lower(Decode(a.reply)) == "closed")
  }

  /** A port written in decimal, possibly padded, reaches the server. */
  lemma DecimalPortConnects(c: Command, localFiles: map<string, Bytes>, network: Network, port: nat, pre: string, post: string)
    requires Readable(localFiles, c.path) && port < 65536
    requires c.portNumber == pre + NatToText(port) + post
    requires forall i :: 0 <= i < |pre| ==> IsSpace(pre[i])
    requires forall i :: 0 <= i < |post| ==> IsSpace(post[i])
    ensures var a := AttemptOf(c, localFiles, network);
      (a.Exchanged? || a.Unreachable?) && a.to == Address(c.serverIp, port)
      && (a.Exchanged? <==> network(a.to).reachable)
  {
    ParseIntOfNat(port, pre, post);
    PortConnects(c, localFiles, network, port);
  }

  /** A port that parses to a valid number is the one connected to. */
  lemma PortConnects(c: Command, localFiles: map<string, Bytes>, network: Network, port: nat)
    requires Readable(localFiles, c.path) && port < 65536 && ParseInt(c.portNumber) == Some(port)
    ensures var a := AttemptOf(c, localFiles, network);
      (a.Exchanged? || a.Unreachable?) && a.to == Address(c.serverIp, port)
      && (a.Exchanged? <==> network(a.to).reachable)
  {
  }

  /** A request stops the script exactly when the server it names is
      reachable and its first answer, decoded, is `closed` in any case. */
  lemma ClosedAnswerStops(c: Command, localFiles: map<string, Bytes>, network: Network, port: nat)
    requires Readable(localFiles, c.path) && port < 65536 && ParseInt(c.portNumber) == Some(port)
    ensures var peer := network(Address(c.serverIp, port));
      var answer := Recv(peer.answer, 1024, true).0;
      (!KeepGoing(AttemptOf(c, localFiles, network)) <==>
        peer.reachable && answer.Chunk? && Lower(Decode(answer.bytes)) == "closed")
  {
    PortConnects(c, localFiles, network, port);
  }

  class Client {
    /** The socket of the latest request. */
    var clientSocket: Socket?

    constructor ()
      ensures clientSocket == null
    {
      clientSocket := null;
    }

    /** `send_request` (Client/Client.py:29-62).  A socket is made once the
        address is known, connected, sent the request line and the file,
        read once, and closed. */
    method SendRequest(c: Command, localFiles: map<string, Bytes>, network: Network) returns (keepGoing: bool)
      modifies this
      ensures var a := AttemptOf(c, localFiles, network);
        && keepGoing == KeepGoing(a)
        && (a.NoLocalFile? || a.BadPort? ==> clientSocket == old(clientSocket))
        && (a.Unreachable? || a.Exchanged? ==>
              clientSocket != null && fresh(clientSocket) && !clientSocket.open
              && clientSocket.sent == (if a.Exchanged? then a.sent else []))
    {
      if !Readable(localFiles, c.path) {
        return true;
      }
      var content := localFiles[c.path];
      var port := ParseInt(c.portNumber);
      if !ValidPort(port) {
        return true;
      }
      var peer := network(Address(c.serverIp, port.value));
      var sock := new Socket(peer.answer, peer.reachable);
      clientSocket := sock;
      var connected := sock.Connect();
      if !connected {
        sock.Close();
        assert sock.sent == [];
        return true;
      }
      var request := RequestBytes(c);
      sock.Send(request);
      assert sock.sent == request;
      sock.Send(content);
      assert sock.sent == request + content;
      var response := sock.Receive(1024);
      var reply := if response.Chunk? then response.bytes else [];
      sock.Close();
      keepGoing := !(Lower(Decode(reply)) == "closed");
    }

    /** The lines of one script (Client/Client.py:78-86): skip what is not
        a command, stop at the first `closed`, and give up on the rest of
        the script at a malformed command. */
    method RunScript(lines: seq<string>, localFiles: map<string, Bytes>, network: Network) returns (end: ScriptEnd)
      modifies this
      ensures end == Script(lines, localFiles, network).end
    {
      end := Finished;
      for i := 0 to |lines|
        invariant Script(lines, localFiles, network).end == Script(lines[i..], localFiles, network).end
      {
        assert lines[i..][1..] == lines[i + 1..];
        var parsed := ParseRequest(lines[i]);
        if parsed.Malformed? {
          return Aborted;
        }
        if parsed.Parsed? {
          var keepGoing := SendRequest(parsed.command, localFiles, network);
          if !keepGoing {
            return Stopped;
          }
        }
      }
    }

    /** `run` (Client/Client.py:64-86) over the scripts the user names in
        turn: a `closed` answer ends the client, anything else moves on to
        the next script. */
    method Run(scripts: seq<seq<string>>, localFiles: map<string, Bytes>, network: Network) returns (stopped: bool)
      modifies this
      ensures stopped <==> exists k :: 0 <= k < |scripts| && Script(scripts[k], localFiles, network).end == Stopped
    {
      for k := 0 to |scripts|
        invariant forall j :: 0 <= j < k ==> Script(scripts[j], localFiles, network).end != Stopped
      {
        var end := RunScript(scripts[k], localFiles, network);
        if end == Stopped {
          return true;
        }
      }
      return false;
    }
  }

  // ---------------------------------------------------------------------
  // A script as a whole
  // ---------------------------------------------------------------------

  datatype ScriptEnd = Finished | Stopped | Aborted

  datatype ScriptRun = ScriptRun(end: ScriptEnd, attempts: seq<Attempt>)

  /** The requests a script makes, in order, and how it ends. */
  function Script(lines: seq<string>, localFiles: map<string, Bytes>, network: Network): ScriptRun {
    if lines == [] then ScriptRun(Finished, [])
    else
      match ParseRequest(lines[0])
      case Skipped => Script(lines[1..], localFiles, network)
      case Malformed => ScriptRun(Aborted, [])
      case Parsed(c) =>
        var a := AttemptOf(c, localFiles, network);
        if !KeepGoing(a) then ScriptRun(Stopped, [a])
        else
          var r := Script(lines[1..], localFiles, network);
          ScriptRun(r.end, [a] + r.attempts)
  }

  /** Every attempt but the last went on, and the run stopped exactly when
      its last attempt answered `closed`. */
  predicate StopsAtLast(r: ScriptRun) {
    && (forall j :: 0 <= j < |r.attempts| - 1 ==> KeepGoing(r.attempts[j]))
    && (r.end == Stopped <==> |r.attempts| > 0 && !KeepGoing(r.attempts[|r.attempts| - 1]))
  }

  /** A script stops exactly at its first `closed` answer: every attempt
      before the last one went on, and the last one stopped. */
  lemma {:induction false} StopsAtFirstClosed(lines: seq<string>, localFiles: map<string, Bytes>, network: Network)
    ensures StopsAtLast(Script(lines, localFiles, network))
  {
    if lines != [] {
      StopsAtFirstClosed(lines[1..], localFiles, network);
      match ParseRequest(lines[0])
      case Skipped =>
      case Malformed =>
      case Parsed(c) =>
        var a := AttemptOf(c, localFiles, network);
        if KeepGoing(a) {
          var r := Script(lines[1..], localFiles, network);
          assert Script(lines, localFiles, network) == ScriptRun(r.end, [a] + r.attempts);
          GoingOn(a, r);
        }
    }
  }

  /** An attempt that went on, in front of a run that stops at its last. */
  lemma GoingOn(a: Attempt, r: ScriptRun)
    requires KeepGoing(a) && StopsAtLast(r)
    ensures StopsAtLast(ScriptRun(r.end, [a] + r.attempts))
  {
    var s := [a] + r.attempts;
    assert forall j :: 1 <= j < |s| ==> s[j] == r.attempts[j - 1];
  }

  /** Lines that name no command change nothing, wherever they stand. */
  lemma {:induction false} SkippedLinesIgnored(before: seq<string>, skipped: string, after: seq<string>,
                                                localFiles: map<string, Bytes>, network: Network)
    requires ParseRequest(skipped).Skipped?
    ensures Script(before + [skipped] + after, localFiles, network) == Script(before + after, localFiles, network)
  {
    if before == [] {
      assert before + [skipped] + after == [skipped] + after;
      assert before + after == after;
      SkipFirst([skipped] + after, localFiles, network);
    } else {
      SkippedLinesIgnored(before[1..], skipped, after, localFiles, network);
      Regroup(before, [skipped], after);
      Regroup(before, [], after);
      SameFirstLine(before[0], before[1..] + [skipped] + after, before[1..] + after, localFiles, network);
    }
  }

  /** Taking the first line off a script that is cut in three. */
  lemma Regroup(before: seq<string>, mid: seq<string>, after: seq<string>)
    requires before != []
    ensures before + mid + after == [before[0]] + (before[1..] + mid + after)
    ensures before + after == [before[0]] + (before[1..] + after)
  {
    assert before == [before[0]] + before[1..];
  }

  /** A first line that names no command is passed over. */
  lemma SkipFirst(lines: seq<string>, localFiles: map<string, Bytes>, network: Network)
    requires lines != [] && ParseRequest(lines[0]).Skipped?
    ensures Script(lines, localFiles, network) == Script(lines[1..], localFiles, network)
  {
  }

  /** Two scripts that open with the same line and go on with equal
      remainders run alike. */
  lemma SameFirstLine(line: string, a: seq<string>, b: seq<string>, localFiles: map<string, Bytes>, network: Network)
    requires Script(a, localFiles, network) == Script(b, localFiles, network)
    ensures Script([line] + a, localFiles, network) == Script([line] + b, localFiles, network)
  {
    assert ([line] + a)[1..] == a;
    assert ([line] + b)[1..] == b;
  }
}
