/** What both servers share: the size of a receive, the files a server
    serves from, the fixed 404 and 405 replies, and the three-token request
    line.  Each server spells these out on its own; they agree byte for
    byte. */
module Protocol {
  import opened Text
  import opened Wire

  /** Bytes asked for by every `recv` of either server's handler. */
  const ChunkSize: nat := 1024

  /** A server's working directory: relative or absolute path to content. */
  type Files = map<string, Bytes>

  /** The reply to a GET of a missing file (Server/server.py:54, server.py:26). */
  const NotFound: string := "HTTP/1.1 404 NOT FOUND\r\n"

  /** `os.path.exists` over the model's files: the empty path names nothing. */
  predicate Exists(files: Files, path: string) {
    path != "" && path in files
  }

  /** A reply and the files after a handler ran. */
  datatype Outcome = Outcome(reply: Bytes, files: Files)

  /** f"HTTP/1.1 {status_code} {message}\r\n" (Server/server.py:89, server.py:47). */
  function HandleError(statusCode: nat, message: string): (reply: Bytes)
  {
    Encode("HTTP/1.1 " + NatToText(statusCode) + " " + message + CRLF)
  }

  /** HTTP/1.1 405 Method Not Allowed, then CRLF. */
  const MethodNotAllowed: string := "HTTP/1.1 " + "405" + " " + "Method Not Allowed" + CRLF

  /** `handle_error(client_socket, 405, "Method Not Allowed")` sends the 405 line. */
  lemma MethodNotAllowedReply()
    ensures HandleError(405, "Method Not Allowed") == Encode(MethodNotAllowed)
  {
    StatusText405();
  }

  lemma StatusText405()
    ensures NatToText(405) == "405"
  {
    assert NatToText(4) == "4";
    assert NatToText(40) == "40";
  }

  /** A line that splits at spaces into three tokens is those tokens
      joined by single spaces, and no token holds a space. */
  lemma TokensOfLine(line: string, tokens: seq<string>)
    requires tokens == Split(line, " ") && |tokens| == 3
    ensures line == tokens[0] + " " + tokens[1] + " " + tokens[2]
    ensures ' ' !in tokens[0] && ' ' !in tokens[1] && ' ' !in tokens[2]
  {
    JoinSplit(line, " ");
    JoinThree(tokens, " ");
    SplitPiecesFree(line, " ", 0);
    SplitPiecesFree(line, " ", 1);
    SplitPiecesFree(line, " ", 2);
    SpaceFree(tokens[0]);
    SpaceFree(tokens[1]);
    SpaceFree(tokens[2]);
  }

  /** A string without the one-space pattern holds no space. */
  lemma SpaceFree(s: string)
    requires !Contains(s, " ")
    ensures ' ' !in s
  {
    forall j | 0 <= j < |s| ensures s[j] != ' ' {
      assert s[j..j + 1] == [s[j]];
      assert !OccursAt(s, " ", j);
    }
  }
}
