/** The server side's request reader (`PopulateRequestAsync` of the OWIN
    host): the request line split on spaces, the header block, and a body
    stream over the rest of the connection. Building a `Uri` from the target
    and the OWIN request object are not modelled. */
module ServerRequest {
  import opened Outcomes
  import opened Bytes
  import opened Headers
  import opened LineReader
  import opened HttpParser
  import opened HeaderBlocks
  import Connection
  import BodyStreams

  /** The request line's three leading tokens, the headers, and the bytes
      after the blank line. */
  datatype Incoming = Incoming(verb: string, target: string, protocol: string, headers: seq<Header>, rest: seq<byte>)

  /** The first line is split on every space; fewer than three pieces is a
      format error, and pieces after the third are ignored. Header lines
      follow up to the blank line, and their errors reach the caller as they
      are. */
  function ReadRequestHead(input: seq<byte>): (r: Result<Incoming>)
    ensures LF !in input ==> r == Err(EndOfStream)
    ensures r.Err? ==> r.error in {EndOfStream, InvalidRequestLine, InvalidHeaderFormat}
    ensures r.Ok? ==> EndsWith(input, r.value.rest) && |r.value.rest| < |input|
    ensures r.Ok? ==> var k := IndexOf(input, LF);
                      var parts := Split(Decode(StripCR(input[..k])), ' ');
                      && |parts| >= 3
                      && r.value.verb == parts[0] && r.value.target == parts[1] && r.value.protocol == parts[2]
                      && ' ' !in r.value.verb && ' ' !in r.value.target
    ensures var line := ReadLine(input, false);
            && (line.Err? ==> r == Err(EndOfStream))
            && (line.Ok? && |Split(Decode(line.value.text), ' ')| < 3 ==> r == Err(InvalidRequestLine))
            && (line.Ok? && |Split(Decode(line.value.text), ' ')| >= 3 ==>
                  var block := ReadHeaderLines(line.value.rest);
                  && (block.Err? ==> r == Err(block.error))
                  && (block.Ok? ==> r.Ok? && r.value.headers == block.value.headers && r.value.rest == block.value.rest))
  {
    var line :- ReadLine(input, false);
    var parts := Split(Decode(line.text), ' ');
    if |parts| < 3 then Err(InvalidRequestLine)
    else
      var block :- ReadHeaderLines(line.rest);
      assert EndsWith(input, line.rest) by {
        assert input[|input| - |line.rest|..] == line.rest;
      }
      EndsWithTrans(input, line.rest, block.rest);
      Ok(Incoming(parts[0], parts[1], parts[2], block.headers, block.rest))
  }

  /** The request with its body: a bounded view over the connection, which
      holds exactly the bytes after the blank line because the head was read
      one byte at a time. The declared length is the caller's, standing for
      the parsed `Content-Length`. */
  function ReceiveRequest(conn: Connection.Conn, length: Option<nat>): (r: Result<(Incoming, BodyStreams.Body)>)
    ensures var head := ReadRequestHead(conn.unread);
            && (head.Err? ==> r == Err(head.error))
            && (head.Ok? ==> && r.Ok? && r.value.0 == head.value
                             && r.value.1.Valid() && r.value.1.read == 0 && r.value.1.length == length
                             && r.value.1.conn.unread == head.value.rest
                             && (length.None? ==> BodyStreams.Remaining(r.value.1) == head.value.rest)
                             && r.value.1.conn.consumed + r.value.1.conn.unread == conn.consumed + conn.unread
                             && r.value.1.conn.(consumed := conn.consumed, unread := conn.unread) == conn)
  {
    var head :- ReadRequestHead(conn.unread);
    Ok((head, RequestBody(head.rest, conn, length)))
  }

  /** The body over a connection that has delivered the head and still
      holds `rest`, the bytes after it. */
  function RequestBody(rest: seq<byte>, conn: Connection.Conn, length: Option<nat>): (b: BodyStreams.Body)
    requires EndsWith(conn.unread, rest)
    ensures b.Valid() && b.read == 0 && b.length == length && b.conn.unread == rest
    ensures b.conn.consumed + b.conn.unread == conn.consumed + conn.unread
    ensures b.conn.(consumed := conn.consumed, unread := conn.unread) == conn
  {
    var delivered := conn.unread[..|conn.unread| - |rest|];
    assert delivered + rest == conn.unread by {
      assert conn.unread[|conn.unread| - |rest|..] == rest;
    }
    assert (conn.consumed + delivered) + rest == conn.consumed + conn.unread;
    BodyStreams.New(conn.(consumed := conn.consumed + delivered, unread := rest), length)
  }

  /** The headers a request carries on the wire: its own, then its content's
      when it has content. */
  function AllHeaders(headers: seq<Header>, content: Option<seq<Header>>): (all: seq<Header>)
    ensures HeaderBlock(all) == HeaderBlock(headers) + ContentBlock(content)
  {
    var extra := if content.Some? then content.value else [];
    HeaderBlockAppend(headers, extra);
    headers + extra
  }

  /** The request line's text splits back into verb, target and protocol. */
  lemma RequestLineSplits(verb: string, target: string)
    requires ' ' !in verb && ' ' !in target
    ensures Split(verb + " " + target + " HTTP/1.0", ' ') == [verb, target, "HTTP/1.0"]
  {
    var protocol := "HTTP/1.0";
    assert ' ' !in protocol;
    assert verb + " " + target + " HTTP/1.0" == verb + " " + target + " " + protocol;
    SplitThree(verb, target, protocol);
  }

  /** Three space-free words joined by single spaces split back into them. */
  lemma SplitThree(a: string, b: string, c: string)
    requires ' ' !in a && ' ' !in b && ' ' !in c
    ensures Split(a + " " + b + " " + c, ' ') == [a, b, c]
  {
    assert a + " " + b + " " + c == a + [' '] + (b + [' '] + c);
    SplitFirstPiece(a, ' ', b + [' '] + c);
    SplitFirstPiece(b, ' ', c);
    SplitNoSeparator(c, ' ');
  }

  /** The bytes of a request head: the request line, its CRLF, then the
      header block and the blank line. */
  lemma RequestHeadLayout(verb: string, target: string, headers: seq<Header>, content: Option<seq<Header>>, rest: seq<byte>)
    ensures AsciiBytes(RequestHead(verb, target, headers, content)) + rest
         == AsciiBytes(verb + " " + target + " HTTP/1.0") + [CR, LF]
            + (AsciiBytes(HeaderBlock(AllHeaders(headers, content))) + CRLF + rest)
  {
    var text := verb + " " + target + " HTTP/1.0";
    var block := HeaderBlock(AllHeaders(headers, content));
    var head := text + "\r\n" + block;
    assert RequestHead(verb, target, headers, content) == head + "\r\n";
    assert AsciiBytes(head + "\r\n") == AsciiBytes(head) + CRLF by {
      AsciiBytesAppend(head, "\r\n");
    }
    LineBytes(text, block, rest);
  }

  /** The request line is read off the stream as its own text. */
  lemma ReadRequestLineText(verb: string, target: string, after: seq<byte>)
    requires IsAscii(verb) && IsAscii(target) && '\n' !in verb && '\n' !in target
    ensures var text := verb + " " + target + " HTTP/1.0";
            ReadLine(AsciiBytes(text) + [CR, LF] + after, false) == Ok(Line(AsciiBytes(text), after))
            && Decode(AsciiBytes(text)) == text
  {
    var text := verb + " " + target + " HTTP/1.0";
    AsciiChars(verb);
    AsciiChars(target);
    AsciiChars(text);
    ReadAsciiLine(text, after);
  }

  /** A request head as the client writes it is read back by the server:
      the verb, the target, the protocol `HTTP/1.0`, the request's headers
      followed by its content's, and exactly the bytes after the head. */
  lemma ReadWrittenRequest(verb: string, target: string, headers: seq<Header>, content: Option<seq<Header>>, rest: seq<byte>)
    requires IsAscii(verb) && IsAscii(target)
    requires ' ' !in verb && ' ' !in target && '\n' !in verb && '\n' !in target
    requires forall i :: 0 <= i < |AllHeaders(headers, content)| ==> WireSafe(AllHeaders(headers, content)[i])
    ensures ReadRequestHead(AsciiBytes(RequestHead(verb, target, headers, content)) + rest)
         == Ok(Incoming(verb, target, "HTTP/1.0", AllHeaders(headers, content), rest))
  {
    var all := AllHeaders(headers, content);
    var text := verb + " " + target + " HTTP/1.0";
    var after := AsciiBytes(HeaderBlock(all)) + CRLF + rest;
    RequestHeadLayout(verb, target, headers, content, rest);
    ReadRequestLineText(verb, target, after);
    RequestLineSplits(verb, target);
    ReadWrittenHeaders(all, rest);
  }
}
