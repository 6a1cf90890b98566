/** The client side, `DialMessageHandler`: the request normaliser, the
    status-line parser, the response header loop and the response body
    stream. Dialing, writing the request and copying its content are
    sequential steps around these and are not modelled. */
module DialHandler {
  import opened Outcomes
  import opened Bytes
  import opened Headers
  import opened LineReader
  import opened HeaderBlocks
  import Connection
  import PrefixStreams

  /** `BinaryPrimitives.ReadUInt64LittleEndian`: the first byte is the least
      significant. */
  function LittleEndian(bs: seq<byte>): (r: nat)
    ensures |bs| > 0 ==> r % 0x100 == bs[0] as int
  {
    if |bs| == 0 then 0 else bs[0] as nat + 0x100 * LittleEndian(bs[1..])
  }

  /** Eight bytes read little-endian are equal exactly when the bytes are:
      comparing the number stands for comparing the bytes. */
  lemma {:induction false} LittleEndianInjective(a: seq<byte>, b: seq<byte>)
    requires |a| == |b|
    ensures LittleEndian(a) == LittleEndian(b) <==> a == b
  {
    if |a| > 0 && LittleEndian(a) == LittleEndian(b) {
      var x, y := LittleEndian(a[1..]), LittleEndian(b[1..]);
      assert a[0] == b[0];
      assert 0x100 * x == 0x100 * y;
      LittleEndianInjective(a[1..], b[1..]);
      assert a == [a[0]] + a[1..] && b == [b[0]] + b[1..];
    }
  }

  const Http10: seq<byte> := AsciiBytes("HTTP/1.0")

  /** The status-line prefix as the number the parser compares against. */
  const Http10Word: nat := LittleEndian(Http10)

  /** What the client keeps of a status line: the protocol version is always
      1.0, so only the code and the reason bytes. */
  datatype Status = Status(code: nat, reason: seq<byte>)

  predicate IsDigit(b: byte) {
    '0' as byte <= b <= '9' as byte
  }

  function DigitValue(b: byte): (v: nat)
    requires IsDigit(b)
    ensures v < 10
  {
    (b - '0' as byte) as nat
  }

  /** The shape of an acceptable status line: `HTTP/1.0`, a space, three
      digits, then either nothing or a space and the reason. */
  predicate StatusLineShape(line: seq<byte>) {
    && |line| >= 12
    && line[..8] == Http10 && line[8] == SP
    && IsDigit(line[9]) && IsDigit(line[10]) && IsDigit(line[11])
    && (|line| == 12 || line[12] == SP)
  }

  /** `ParseStatusLine`: the length and the space at index 8 are checked
      first, then the first eight bytes as one little-endian number, then the
      digits, then what follows them. */
  function ParseStatusLine(line: seq<byte>): (r: Result<Status>)
    ensures r.Ok? <==> StatusLineShape(line)
    ensures r.Err? ==> r.error == InvalidResponse
    ensures r.Ok? ==> && r.value.code < 1000
                      && r.value.code == 100 * DigitValue(line[9]) + 10 * DigitValue(line[10]) + DigitValue(line[11])
                      && r.value.reason == (if |line| == 12 then [] else line[13..])
  {
    if |line| < 12 || line[8] != SP then Err(InvalidResponse)
    else if LittleEndian(line[..8]) != Http10Word then Err(InvalidResponse)
    else if !IsDigit(line[9]) || !IsDigit(line[10]) || !IsDigit(line[11]) then Err(InvalidResponse)
    else
      LittleEndianInjective(line[..8], Http10);
      var code := 100 * DigitValue(line[9]) + 10 * DigitValue(line[10]) + DigitValue(line[11]);
      if |line| == 12 then Ok(Status(code, []))
      else if line[12] == SP then Ok(Status(code, line[13..]))
      else Err(InvalidResponse)
  }

  /** The three decimal digits of a code from 100 to 999, as the server's
      `StatusCode.ToString()` writes them. */
  function ThreeDigits(code: nat): (s: string)
    requires 100 <= code <= 999
    ensures |s| == 3 && IsAscii(s)
    ensures forall i :: 0 <= i < 3 ==> '0' <= s[i] <= '9'
  {
    [('0' as int + code / 100) as char, ('0' as int + code / 10 % 10) as char, ('0' as int + code % 10) as char]
  }

  /** The digits of a three-digit code are digits, and read back as the
      code. */
  lemma ThreeDigitsValue(code: nat)
    requires 100 <= code <= 999
    ensures var d := AsciiBytes(ThreeDigits(code));
            && IsDigit(d[0]) && IsDigit(d[1]) && IsDigit(d[2])
            && 100 * DigitValue(d[0]) + 10 * DigitValue(d[1]) + DigitValue(d[2]) == code
  {
    var s := ThreeDigits(code);
    AsciiBytesIndex(s, 0);
    AsciiBytesIndex(s, 1);
    AsciiBytesIndex(s, 2);
  }

  /** The bytes of `HTTP/1.0 code reason`. */
  lemma StatusLineLayout(digits: string, reason: string)
    ensures AsciiBytes("HTTP/1.0" + " " + digits + " " + reason)
         == Http10 + [SP] + AsciiBytes(digits) + [SP] + AsciiBytes(reason)
  {
    AsciiBytesAppend("HTTP/1.0" + " " + digits + " ", reason);
    AsciiBytesAppend("HTTP/1.0" + " " + digits, " ");
    AsciiBytesAppend("HTTP/1.0" + " ", digits);
    AsciiBytesAppend("HTTP/1.0", " ");
  }

  /** A line laid out as `HTTP/1.0 ddd reason` parses to the digits' value
      and the reason bytes. */
  lemma ParseLaidOut(line: seq<byte>, d: seq<byte>, reason: seq<byte>, code: nat)
    requires line == Http10 + [SP] + d + [SP] + reason
    requires |d| == 3 && IsDigit(d[0]) && IsDigit(d[1]) && IsDigit(d[2])
    requires code == 100 * DigitValue(d[0]) + 10 * DigitValue(d[1]) + DigitValue(d[2])
    ensures ParseStatusLine(line) == Ok(Status(code, reason))
  {
    assert |Http10| == 8;
    assert line[..8] == Http10;
    assert line[9..12] == d;
    assert line[13..] == reason;
    assert StatusLineShape(line);
  }

  /** A status line written as `HTTP/1.0 code reason` parses back to the
      code and the reason's bytes, for any three-digit code and any ASCII
      reason (an empty reason included). */
  lemma StatusLineRoundTrip(code: nat, reason: string)
    requires 100 <= code <= 999
    ensures ParseStatusLine(AsciiBytes("HTTP/1.0" + " " + ThreeDigits(code) + " " + reason))
         == Ok(Status(code, AsciiBytes(reason)))
  {
    var line := AsciiBytes("HTTP/1.0" + " " + ThreeDigits(code) + " " + reason);
    StatusLineLayout(ThreeDigits(code), reason);
    ThreeDigitsValue(code);
    ParseLaidOut(line, AsciiBytes(ThreeDigits(code)), AsciiBytes(reason), code);
  }

  /** The bytes of `HTTP/1.0`. */
  lemma Http10Bytes()
    ensures Http10 == [72, 84, 84, 80, 47, 49, 46, 48]
  {
  }

  /** A response from a 1.1 server is refused. */
  lemma RejectsHttp11(reason: seq<byte>)
    ensures ParseStatusLine([72, 84, 84, 80, 47, 49, 46, 49, 32, 50, 48, 48, 32] + reason).Err?
  {
    Http10Bytes();
    var line: seq<byte> := [72, 84, 84, 80, 47, 49, 46, 49, 32, 50, 48, 48, 32] + reason;
    assert line[..8][7] != Http10[7];
  }

  /** The request as the normaliser sees it: the flags are tri-state, as in
      the request header collection. */
  datatype Version = Version(major: nat, minor: nat)
  datatype Request = Request(
    verb: string,
    target: string,
    version: Version,
    transferEncodingChunked: Option<bool>,
    expectContinue: Option<bool>,
    headers: seq<Header>,
    content: Option<seq<Header>>)

  /** `ValidateAndNormalizeRequest`: the request goes out as HTTP/1.0, a
      chunked transfer encoding is refused, and `Expect: 100-continue` is
      switched off; nothing else changes. */
  function ValidateAndNormalizeRequest(req: Request): (r: Result<Request>)
    ensures r.Err? <==> req.transferEncodingChunked == Some(true)
    ensures r.Err? ==> r.error == ChunkedNotSupported
    ensures r.Ok? ==> && r.value.version == Version(1, 0)
                      && r.value.expectContinue != Some(true)
                      && (req.expectContinue != Some(true) ==> r.value.expectContinue == req.expectContinue)
                      && r.value.(version := req.version, expectContinue := req.expectContinue) == req
  {
    var req := req.(version := Version(1, 0));
    if req.transferEncodingChunked == Some(true) then Err(ChunkedNotSupported)
    else if req.expectContinue == Some(true) then Ok(req.(expectContinue := Some(false)))
    else Ok(req)
  }

  /** The status line and the headers of a response, and the bytes after
      the blank line. */
  datatype ResponseHead = ResponseHead(status: Status, headers: seq<Header>, rest: seq<byte>)

  /** The status line, then header lines up to the blank line. A header
      line that does not parse is reported as a header parsing error; the
      stream ending early is an end-of-stream error. */
  function ReadResponseHead(input: seq<byte>): (r: Result<ResponseHead>)
    ensures r.Err? ==> r.error in {EndOfStream, InvalidResponse, ErrorParsingHeader}
    ensures r.Ok? ==> EndsWith(input, r.value.rest)
    ensures var line := ReadLine(input, false);
            && (line.Err? ==> r == Err(EndOfStream))
            && (line.Ok? && !StatusLineShape(line.value.text) ==> r == Err(InvalidResponse))
            && (line.Ok? && StatusLineShape(line.value.text) ==>
                  var block := ReadHeaderLines(line.value.rest);
                  && (block.Err? && block.error == InvalidHeaderFormat ==> r == Err(ErrorParsingHeader))
                  && (block.Err? && block.error == EndOfStream ==> r == Err(EndOfStream))
                  && (block.Ok? ==> r == Ok(ResponseHead(ParseStatusLine(line.value.text).value, block.value.headers, block.value.rest))))
  {
    var line :- ReadLine(input, false);
    var status :- ParseStatusLine(line.text);
    var block := ReadHeaderLines(line.rest);
    if block.Err? then Err(if block.error == InvalidHeaderFormat then ErrorParsingHeader else block.error)
    else
      EndsWithTrans(input, line.rest, block.value.rest);
      Ok(ResponseHead(status, block.value.headers, block.value.rest))
  }

  /** A response: its head and the body stream. */
  datatype Response = Response(status: Status, headers: seq<Header>, body: PrefixStreams.Prefixed)

  /** The response body stream. The line reader buffers ahead: of the
      bytes after the blank line, the first `ahead` are in its buffer and
      the others still in the connection, which has delivered everything in
      front of them. The stream serves the buffered bytes, then the
      connection, bounded by the content length, and so serves the same
      bytes wherever the buffer happened to end. */
  function ResponseBody(rest: seq<byte>, conn: Connection.Conn, ahead: nat, contentLength: Option<nat>): (b: PrefixStreams.Prefixed)
    requires EndsWith(conn.unread, rest)
    ensures b.Valid() && b.Unread() == rest
    ensures b.position == 0 && b.length == contentLength
    ensures b.conn.consumed + b.conn.unread == conn.consumed + conn.unread
    ensures b.conn.(consumed := conn.consumed, unread := conn.unread) == conn
  {
    var k := Min(ahead, |rest|);
    var delivered := conn.unread[..|conn.unread| - |rest| + k];
    assert rest[..k] + rest[k..] == rest;
    assert delivered + rest[k..] == conn.unread by {
      assert conn.unread[|conn.unread| - |rest|..] == rest;
    }
    assert (conn.consumed + delivered) + rest[k..] == conn.consumed + conn.unread;
    PrefixStreams.New(rest[..k], conn.(consumed := conn.consumed + delivered, unread := rest[k..]), contentLength)
  }

  /** The response as the handler hands it out: the head read off the
      connection, and the body stream over what follows it. */
  function ReceiveResponse(conn: Connection.Conn, ahead: nat, contentLength: Option<nat>): (r: Result<Response>)
    ensures var head := ReadResponseHead(conn.unread);
            && (head.Err? ==> r == Err(head.error))
            && (head.Ok? ==> r.Ok? && r.value.status == head.value.status && r.value.headers == head.value.headers
                             && r.value.body.Unread() == head.value.rest
                             && r.value.body.position == 0 && r.value.body.length == contentLength)
  {
    var head :- ReadResponseHead(conn.unread);
    Ok(Response(head.status, head.headers, ResponseBody(head.rest, conn, ahead, contentLength)))
  }
}
