/** The header-block loop shared by the client's response reader and the
    server's request reader: one line at a time until the first empty
    line, each line parsed into a name and its values. */
module HeaderBlocks {
  import opened Outcomes
  import opened Bytes
  import opened Headers
  import opened LineReader
  import opened HttpParser

  /** The headers read and the bytes after the blank line that ends them. */
  datatype HeadersRead = HeadersRead(headers: seq<Header>, rest: seq<byte>)

  /** Reads header lines until an empty one. A line without a colon is a
      format error, a stream that ends first an end-of-stream error. */
  function ReadHeaderLines(input: seq<byte>): (r: Result<HeadersRead>)
    ensures r.Ok? ==> |r.value.rest| < |input| && EndsWith(input, r.value.rest)
    ensures r.Err? ==> r.error == EndOfStream || r.error == InvalidHeaderFormat
    ensures LF !in input ==> r == Err(EndOfStream)
    ensures var line := ReadLine(input, false);
            && (line.Ok? && |line.value.text| == 0 ==> r == Ok(HeadersRead([], line.value.rest)))
            && (line.Ok? && |line.value.text| > 0 && ':' !in Decode(line.value.text) ==> r == Err(InvalidHeaderFormat))
            && (line.Ok? && |line.value.text| > 0 && ':' in Decode(line.value.text) ==>
                  var more := ReadHeaderLines(line.value.rest);
                  && (more.Err? ==> r == more)
                  && (more.Ok? ==> r.Ok? && |r.value.headers| > 0
                                   && Ok(r.value.headers[0]) == ParseHeaderNameValues(Decode(line.value.text))
                                   && r.value.headers[1..] == more.value.headers && r.value.rest == more.value.rest))
    decreases |input|
  {
    var line :- ReadLine(input, false);
    if |line.text| == 0 then Ok(HeadersRead([], line.rest))
    else
      var h :- ParseHeaderNameValues(Decode(line.text));
      var more :- ReadHeaderLines(line.rest);
      assert EndsWith(input, line.rest) by {
        assert input[|input| - |line.rest|..] == line.rest;
      }
      EndsWithTrans(input, line.rest, more.rest);
      Ok(HeadersRead([h] + more.headers, more.rest))
  }

  /** A header the writer puts on the wire in a form the parser reads back:
      ASCII throughout, no line feed, a colon-free name, comma-free values,
      no edge white space, at least one value, and a single value under
      `Server` (whose values are joined by a space, not a comma). */
  predicate WireSafe(h: Header) {
    && IsAscii(h.name) && '\n' !in h.name && ':' !in h.name && NoEdgeSpace(h.name)
    && |h.values| >= 1
    && (forall i :: 0 <= i < |h.values| ==> ValueSafe(h.values[i]))
    && (h.name == "Server" ==> |h.values| == 1)
  }

  predicate ValueSafe(v: string) {
    IsAscii(v) && '\n' !in v && ',' !in v && NoEdgeSpace(v)
  }

  /** The header line without its CRLF. */
  function HeaderText(h: Header): (t: string)
    ensures HeaderLine(h) == t + "\r\n"
  {
    h.name + ": " + Join(h.values, Separator(h.name))
  }

  /** The text of a wire-safe header is ASCII, has no line feed, and parses
      back to the header. */
  lemma HeaderTextParses(h: Header)
    requires WireSafe(h)
    ensures IsAscii(HeaderText(h)) && '\n' !in HeaderText(h) && |HeaderText(h)| > 0
    ensures ParseHeaderNameValues(HeaderText(h)) == Ok(h)
  {
    var joined := Join(h.values, Separator(h.name));
    JoinedSafe(h.values, Separator(h.name));
    AsciiChars(h.name);
    AsciiChars(joined);
    AsciiChars(HeaderText(h));
    CommaText(h);
    ParseJoined(h.name, " ", h.values, " ");
  }

  /** Joining safe values with an ASCII separator free of line feeds gives
      ASCII text free of line feeds. */
  lemma JoinedSafe(values: seq<string>, sep: string)
    requires forall i :: 0 <= i < |values| ==> ValueSafe(values[i])
    requires IsAscii(sep) && '\n' !in sep
    ensures forall c :: c in Join(values, sep) ==> IsAsciiChar(c) && c != '\n'
  {
    forall c | c in Join(values, sep) ensures IsAsciiChar(c) && c != '\n' {
      JoinChars(values, sep, c);
      if c !in sep {
        var i :| 0 <= i < |values| && c in values[i];
        AsciiChars(values[i]);
      } else {
        AsciiChars(sep);
      }
    }
  }

  /** The header text in the shape the parser's round trip takes: a single
      value under `Server` is written as if the separator were a comma. */
  lemma CommaText(h: Header)
    requires |h.values| >= 1 && (h.name == "Server" ==> |h.values| == 1)
    ensures HeaderText(h) == h.name + ":" + " " + Join(h.values, [','] + " ")
  {
    assert [','] + " " == ", ";
    if h.name == "Server" {
      assert Join(h.values, " ") == h.values[0] == Join(h.values, ", ");
    }
  }

  /** The bytes of a header block of wire-safe headers, followed by the blank
      line, read back as the same headers, leaving exactly the bytes after
      the blank line. */
  lemma {:induction false} ReadWrittenHeaders(hs: seq<Header>, rest: seq<byte>)
    requires forall i :: 0 <= i < |hs| ==> WireSafe(hs[i])
    ensures ReadHeaderLines(AsciiBytes(HeaderBlock(hs)) + CRLF + rest) == Ok(HeadersRead(hs, rest))
  {
    if |hs| == 0 {
      assert AsciiBytes(HeaderBlock(hs)) + CRLF + rest == CRLF + rest;
      ReadBlankLine(rest);
    } else {
      var after := AsciiBytes(HeaderBlock(hs[1..])) + CRLF + rest;
      assert AsciiBytes(HeaderBlock(hs)) + CRLF + rest == AsciiBytes(HeaderText(hs[0])) + [CR, LF] + after by {
        assert HeaderBlock(hs) == HeaderText(hs[0]) + "\r\n" + HeaderBlock(hs[1..]);
        LineBytes(HeaderText(hs[0]), HeaderBlock(hs[1..]), rest);
      }
      assert [hs[0]] + hs[1..] == hs;
      ReadWrittenHeaders(hs[1..], rest);
      ReadWrittenHeader(hs[0], after, hs[1..], rest);
    }
  }

  /** The blank line ends the block at once. */
  lemma ReadBlankLine(rest: seq<byte>)
    ensures ReadHeaderLines(CRLF + rest) == Ok(HeadersRead([], rest))
  {
    assert CRLF + rest == [] + [CR, LF] + rest;
    ReadTerminatedLine([], [CR, LF], rest, false);
  }

  /** A wire-safe header line in front of a block that reads back is read
      back with it. */
  lemma ReadWrittenHeader(h: Header, after: seq<byte>, more: seq<Header>, rest: seq<byte>)
    requires WireSafe(h)
    requires ReadHeaderLines(after) == Ok(HeadersRead(more, rest))
    ensures ReadHeaderLines(AsciiBytes(HeaderText(h)) + [CR, LF] + after) == Ok(HeadersRead([h] + more, rest))
  {
    FirstLine(h, after);
    HeaderStep(AsciiBytes(HeaderText(h)) + [CR, LF] + after, h, after, more, rest);
  }

  /** One round of the loop: a non-empty line that parses, then the rest
      of the block. */
  lemma HeaderStep(input: seq<byte>, h: Header, after: seq<byte>, more: seq<Header>, rest: seq<byte>)
    requires ReadLine(input, false).Ok? && ReadLine(input, false).value.rest == after
    requires |ReadLine(input, false).value.text| > 0
    requires ParseHeaderNameValues(Decode(ReadLine(input, false).value.text)) == Ok(h)
    requires ReadHeaderLines(after) == Ok(HeadersRead(more, rest))
    ensures ReadHeaderLines(input) == Ok(HeadersRead([h] + more, rest))
  {
  }

  /** A wire-safe header line is read off the stream as its text, which
      is not empty and parses back to the header. */
  lemma FirstLine(h: Header, after: seq<byte>)
    requires WireSafe(h)
    ensures var bytes := AsciiBytes(HeaderText(h));
            && ReadLine(bytes + [CR, LF] + after, false) == Ok(Line(bytes, after))
            && |bytes| > 0
            && ParseHeaderNameValues(Decode(bytes)) == Ok(h)
  {
    var text := HeaderText(h);
    HeaderTextParses(h);
    ReadAsciiLine(text, after);
  }

  /** An ASCII text without a line feed, sent with CRLF, is read back as
      its bytes, and those bytes decode to the text. */
  lemma ReadAsciiLine(text: string, after: seq<byte>)
    requires IsAscii(text) && '\n' !in text
    ensures ReadLine(AsciiBytes(text) + [CR, LF] + after, false) == Ok(Line(AsciiBytes(text), after))
    ensures Decode(AsciiBytes(text)) == text
  {
    AsciiBytesContains(text, '\n');
    ReadTerminatedLine(AsciiBytes(text), [CR, LF], after, false);
    DecodeAsciiBytes(text);
  }

  /** The bytes of one header line and the rest of the block. */
  lemma LineBytes(text: string, block: string, rest: seq<byte>)
    ensures AsciiBytes(text + "\r\n" + block) + CRLF + rest
         == AsciiBytes(text) + [CR, LF] + (AsciiBytes(block) + CRLF + rest)
  {
    AsciiBytesAppend(text + "\r\n", block);
    AsciiBytesAppend(text, "\r\n");
    assert AsciiBytes("\r\n") == [CR, LF];
  }
}
