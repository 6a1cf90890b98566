/** What one side writes, the other side reads back: a request head from the
    client's writer through the server's reader, and a response head from
    the server's writer through the client's reader, both across the
    writer's buffer boundaries. Also the one header that does not survive
    the trip. */
module RoundTrips {
  import opened Outcomes
  import opened Bytes
  import opened Headers
  import opened HttpParser
  import opened HeaderBlocks
  import opened HeaderWriter
  import opened DialHandler
  import opened ServerRequest

  predicate AllWireSafe(hs: seq<Header>) {
    forall i :: 0 <= i < |hs| ==> WireSafe(hs[i])
  }

  /** Wire-safe headers pass the writer's ASCII check. */
  lemma WireSafeAscii(hs: seq<Header>)
    requires AllWireSafe(hs)
    ensures HeadersAscii(hs)
  {
    forall i | 0 <= i < |hs| ensures HeaderAscii(hs[i]) {
      forall j | 0 <= j < |hs[i].values| ensures IsAscii(hs[i].values[j]) {
        assert ValueSafe(hs[i].values[j]);
      }
    }
  }

  /** A request written through a fresh writer of any buffer size and then
      flushed is read back by the server as the verb, the target, protocol
      `HTTP/1.0`, the request's headers then its content's, leaving exactly
      the bytes that follow on the connection. */
  lemma RequestReachesServer(size: nat, verb: string, target: string, headers: seq<Header>,
                             content: Option<seq<Header>>, rest: seq<byte>)
    requires 1 <= size
    requires IsAscii(verb) && IsAscii(target)
    requires ' ' !in verb && ' ' !in target && '\n' !in verb && '\n' !in target
    requires AllWireSafe(headers) && (content.Some? ==> AllWireSafe(content.value))
    ensures var w := WriteMethodAndHeaders(New([], size), verb, target, headers, content);
            && w.Ok?
            && ReadRequestHead(Flush(w.value).out + rest)
               == Ok(Incoming(verb, target, "HTTP/1.0", AllHeaders(headers, content), rest))
  {
    WireSafeAscii(headers);
    if content.Some? {
      WireSafeAscii(content.value);
    }
    var all := AllHeaders(headers, content);
    assert AllWireSafe(all) by {
      var extra := if content.Some? then content.value else [];
      assert all == headers + extra;
    }
    var w := WriteMethodAndHeaders(New([], size), verb, target, headers, content);
    assert Flush(w.value).out == AsciiBytes(RequestHead(verb, target, headers, content));
    ReadWrittenRequest(verb, target, headers, content, rest);
  }

  /** The bytes of a status head: the status line's text, its CRLF, then
      the header block and the blank line. */
  lemma StatusHeadLayout(protocol: string, code: string, reason: string, headers: seq<Header>, rest: seq<byte>)
    ensures AsciiBytes(StatusHead(protocol, code, reason, headers)) + rest
         == AsciiBytes(protocol + " " + code + " " + reason) + [CR, LF]
            + (AsciiBytes(HeaderBlock(headers)) + CRLF + rest)
  {
    var text := protocol + " " + code + " " + reason;
    var block := HeaderBlock(headers);
    var head := text + "\r\n" + block;
    assert StatusHead(protocol, code, reason, headers) == head + "\r\n";
    assert AsciiBytes(head + "\r\n") == AsciiBytes(head) + CRLF by {
      AsciiBytesAppend(head, "\r\n");
    }
    LineBytes(text, block, rest);
  }

  /** The status line is read off the stream as its own text. */
  lemma ReadStatusLineText(code: nat, reason: string, after: seq<byte>)
    requires 100 <= code <= 999
    requires IsAscii(reason) && '\n' !in reason
    ensures var text := AsciiBytes("HTTP/1.0" + " " + ThreeDigits(code) + " " + reason);
            LineReader.ReadLine(text + [CR, LF] + after, false) == Ok(LineReader.Line(text, after))
  {
    var text := "HTTP/1.0" + " " + ThreeDigits(code) + " " + reason;
    ProtocolText();
    SpacedAscii("HTTP/1.0", ThreeDigits(code), reason);
    ReadAsciiLine(text, after);
  }

  /** The protocol word is ASCII without line feeds. */
  lemma ProtocolText()
    ensures IsAscii("HTTP/1.0") && '\n' !in "HTTP/1.0"
  {
  }

  /** Three ASCII words without line feeds, joined by single spaces, are
      ASCII text without line feeds. */
  lemma SpacedAscii(a: string, b: string, c: string)
    requires IsAscii(a) && IsAscii(b) && IsAscii(c)
    requires '\n' !in a && '\n' !in b && '\n' !in c
    ensures IsAscii(a + " " + b + " " + c) && '\n' !in a + " " + b + " " + c
  {
    assert IsAscii(" ");
    AsciiConcat(a, " ");
    AsciiConcat(a + " ", b);
    AsciiConcat(a + " " + b, " ");
    AsciiConcat(a + " " + b + " ", c);
  }

  /** A response head the server writes, through a fresh writer of any
      buffer size and a flush, is read back by the client as the same
      status code, the reason's bytes and the same headers, leaving exactly
      the bytes of the body that follows. */
  lemma ResponseReachesClient(size: nat, code: nat, reason: string, headers: seq<Header>, rest: seq<byte>)
    requires 1 <= size && 100 <= code <= 999
    requires IsAscii(reason) && '\n' !in reason
    requires AllWireSafe(headers)
    ensures var w := WriteStatusAndHeaders(New([], size), "HTTP/1.0", ThreeDigits(code), reason, headers);
            && w.Ok?
            && ReadResponseHead(Flush(w.value).out + rest)
               == Ok(ResponseHead(Status(code, AsciiBytes(reason)), headers, rest))
  {
    WireSafeAscii(headers);
    var w := WriteStatusAndHeaders(New([], size), "HTTP/1.0", ThreeDigits(code), reason, headers);
    assert Flush(w.value).out == AsciiBytes(StatusHead("HTTP/1.0", ThreeDigits(code), reason, headers));
    StatusHeadReadBack(code, reason, headers, rest);
  }

  /** The bytes of a status head with a three-digit code and an ASCII
      reason read back as that status and those headers. */
  lemma StatusHeadReadBack(code: nat, reason: string, headers: seq<Header>, rest: seq<byte>)
    requires 100 <= code <= 999
    requires IsAscii(reason) && '\n' !in reason
    requires AllWireSafe(headers)
    ensures ReadResponseHead(AsciiBytes(StatusHead("HTTP/1.0", ThreeDigits(code), reason, headers)) + rest)
         == Ok(ResponseHead(Status(code, AsciiBytes(reason)), headers, rest))
  {
    var input := AsciiBytes(StatusHead("HTTP/1.0", ThreeDigits(code), reason, headers)) + rest;
    var after := AsciiBytes(HeaderBlock(headers)) + CRLF + rest;
    var line := AsciiBytes("HTTP/1.0" + " " + ThreeDigits(code) + " " + reason);
    assert input == line + [CR, LF] + after by {
      StatusHeadLayout("HTTP/1.0", ThreeDigits(code), reason, headers, rest);
    }
    assert LineReader.ReadLine(input, false) == Ok(LineReader.Line(line, after)) by {
      ReadStatusLineText(code, reason, after);
    }
    assert ParseStatusLine(line) == Ok(Status(code, AsciiBytes(reason))) by {
      StatusLineRoundTrip(code, reason);
    }
    assert ReadHeaderLines(after) == Ok(HeadersRead(headers, rest)) by {
      ReadWrittenHeaders(headers, rest);
    }
  }

  /** Under `Server` the values are joined by a space, which the parser
      does not split on: two or more values come back as one, their
      space-joined text. */
  lemma ServerValuesMerge(values: seq<string>)
    requires |values| >= 2
    requires forall i :: 0 <= i < |values| ==> ValueSafe(values[i]) && |values[i]| > 0
    ensures ParseHeaderNameValues(HeaderText(Header("Server", values))) == Ok(Header("Server", [Join(values, " ")]))
    ensures Header("Server", [Join(values, " ")]) != Header("Server", values)
  {
    var joined := Join(values, " ");
    assert ',' !in joined by {
      if ',' in joined {
        JoinChars(values, " ", ',');
      }
    }
    assert NoEdgeSpace(joined) by {
      JoinFirst(values, " ");
      JoinLast(values, " ");
      var last := values[|values| - 1];
      assert joined[|joined| - 1] == last[|last| - 1];
    }
    assert HeaderText(Header("Server", values)) == "Server" + ":" + " " + Join([joined], [','] + " ");
    ParseJoined("Server", " ", [joined], " ");
  }

  /** A header without values is written as its name, a colon and a space,
      and read back with one empty value. */
  lemma NoValuesReadAsEmpty(name: string)
    requires ':' !in name && NoEdgeSpace(name)
    ensures ParseHeaderNameValues(HeaderText(Header(name, []))) == Ok(Header(name, [[]]))
  {
    assert HeaderText(Header(name, [])) == name + [':'] + " ";
    ParseAfterColon(name, " ");
    assert Trim(name) == name;
    SpaceTrimsToNothing();
  }

  /** A lone space splits into itself and trims to nothing. */
  lemma SpaceTrimsToNothing()
    ensures TrimAll(Split(" ", ',')) == [[]]
  {
    SplitNoSeparator(" ", ',');
    var r := Trim(" ");
    var i, j :| Between(" ", i, j) && r == " "[i..j];
    assert !NoEdgeSpace(" ");
    assert TrimAll([" "])[0] == r;
  }
}
