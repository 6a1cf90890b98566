# HttpOverStream wire codec in Dafny

HttpOverStream carries HTTP/1.0 over any byte stream, such as a named pipe.
The client (`DialMessageHandler`) does four things:

- it normalises a request;
- it writes the request head through a buffered `HttpHeaderWriter`;
- it reads the status line and the header lines back one LF-terminated line at a time;
- it hands out the body as a `StreamWithPrefix`. That stream serves the bytes the line reader already buffered, then the connection, bounded by `Content-Length`.

The OWIN server host works the other way round:

- it reads the request line and the header lines with the same line reader and header parser;
- it exposes the request body as a length-bounded `BodyStream`;
- it writes the response head with the same writer.

`Once<T>` runs a piece of setup at most once.

This project models that core as pure functions over byte sequences and small
state records, and proves the following:

- Writer framing. Every writer operation appends exactly its bytes to what the writer has accepted (flushed bytes followed by buffered bytes), at every buffer alignment.
- Reader and parser behaviour. The line reader, the header parser and the status-line parser do what the source does: the same branches, edge cases and errors.
- Body streams. They return, in order, a prefix of what is left of the body, and never read past the declared length.
- Round trips. A request head written by the client's writer is read back by the server's reader. A response head written by the server's writer is read back by the client's reader. In both cases the bytes after the head are left untouched, and every header comes back as written when it is wire-safe (`HeaderBlocks.WireSafe`): its name is ASCII, free of line feeds and colons and without edge white space; it has at least one value; each value is ASCII, free of line feeds and commas and without edge white space; and a `Server` header has exactly one value. A header outside these conditions need not come back as written: a non-ASCII name or value makes the writer fail; a line feed, a colon in the name or a comma in a value moves where the reader cuts; edge white space is trimmed away; a header without values is read back with one empty value (`RoundTrips.NoValuesReadAsEmpty`); and a `Server` header with two or more values is read back as one value, their space-joined text (`RoundTrips.ServerValuesMerge`).

Layout (one module per file):

| file | module | models |
|---|---|---|
| outcomes.dfy | `Outcomes` | `Option`, `Result` with the library's exceptions as error kinds |
| bytes.dfy | `Bytes` | bytes, ASCII encoding and decoding, `Join`, `IndexOf`, `Count` |
| headers.dfy | `Headers` | headers and the wire text of header blocks, request heads and status heads |
| header_writer.dfy | `HeaderWriter` | `HttpHeaderWriter` |
| line_reader.dfy | `LineReader` | `ByLineReader.ReadLineAsync` |
| http_parser.dfy | `HttpParser` | `HttpParser.ParseHeaderNameValues` |
| header_block.dfy | `HeaderBlocks` | the header-line loop shared by client and server, and its round trip |
| connection.dfy | `Connection` | the underlying stream, as bytes delivered and bytes still to deliver |
| body_stream.dfy | `BodyStreams` | `BodyStream` |
| prefix_stream.dfy | `PrefixStreams` | `StreamWithPrefix` |
| dial_handler.dfy | `DialHandler` | `ParseStatusLine`, `ValidateAndNormalizeRequest`, the response head and body |
| server_request.dfy | `ServerRequest` | the OWIN host's `PopulateRequestAsync` |
| round_trips.dfy | `RoundTrips` | writer-to-reader round trips in both directions |
| once.dfy | `OnceGuard` | `Once<T>` |

How I/O is represented:

- The underlying stream is a `Conn` record. A read that the operating system may cut short takes a `grant` parameter: how many bytes the read delivers. The read always returns at least one byte and at most the count asked for, unless the count is zero or the stream is at its end. Every legal behaviour of the real stream is reachable through some `grant`.
- Whether a read's cancellation token had fired is a `cancelled` parameter.
- How far the client's buffered line reader had read ahead is an `ahead` parameter.
- The parsed `Content-Length` is a length parameter.

## Model

| member | source | states |
|---|---|---|
| HeaderWriter.New | src/HttpOverStream/HttpHeaderWriter.cs:21-26 | a fresh writer over a stream holding `out` has nothing buffered and has accepted exactly `out` |
| HeaderWriter.Flush | src/HttpOverStream/HttpHeaderWriter.cs:28-37 | the stream receives exactly the buffered bytes and the buffer is emptied, so nothing written is lost; with nothing buffered nothing changes, so a second flush emits nothing |
| HeaderWriter.WriteByte | src/HttpOverStream/HttpHeaderWriter.cs:39-47 | the byte is appended to what was accepted; with room it is only buffered (nothing reaches the stream); with a full buffer the buffer reaches the stream first and the byte is the only one buffered |
| HeaderWriter.WriteBytes | src/HttpOverStream/HttpHeaderWriter.cs:49-65 | `bytes[offset..offset+size]` is appended, and with the default size -1 everything from `offset` on |
| HeaderWriter.WriteRange | src/HttpOverStream/HttpHeaderWriter.cs:55-64 | a range is appended in order whatever the buffer alignment; a range that fits touches only the buffer and sends nothing to the stream; a range that does not fit sends at least a full buffer to the stream |
| HeaderWriter.OverflowReachesStream | src/HttpOverStream/HttpHeaderWriter.cs:61-64 | the stream keeps everything it had; when the range does not fit, the bytes buffered before and the part of the range that fills the buffer have reached the stream, in that order |
| HeaderWriter.BlockCopy | src/HttpOverStream/HttpHeaderWriter.cs:57-58 | a chunk that fits is appended behind the buffered bytes without touching the stream |
| HeaderWriter.WriteTwoBytes | src/HttpOverStream/HttpHeaderWriter.cs:67-77 | both bytes are appended in order; when both fit nothing reaches the stream |
| HeaderWriter.CopyChars | src/HttpOverStream/HttpHeaderWriter.cs:81-91 | a string that fits succeeds exactly when every char is 7-bit, and then appends its bytes without touching the stream; otherwise it is an invalid-encoding error |
| HeaderWriter.WriteString | src/HttpOverStream/HttpHeaderWriter.cs:79-99 | any string succeeds exactly when it is ASCII (so `"ñ"` fails), and then its bytes are appended in order across buffer splits |
| HeaderWriter.WriteValues | src/HttpOverStream/HttpHeaderWriter.cs:111-124 | the values are appended joined by the separator (none before the first); fails exactly when a value is not ASCII |
| HeaderWriter.WriteHeader | src/HttpOverStream/HttpHeaderWriter.cs:107-126 | one header appends `name: v1<sep>v2...\r\n`; fails exactly when the name or a value is not ASCII |
| HeaderWriter.WriteHeaders | src/HttpOverStream/HttpHeaderWriter.cs:105-127 | a header collection appends the header block, the headers in order |
| HeaderWriter.WriteRequestLine | src/HttpOverStream/HttpHeaderWriter.cs:128-133 | the method, a space, the target and ` HTTP/1.0\r\n` are appended |
| HeaderWriter.WriteContentHeaders | src/HttpOverStream/HttpHeaderWriter.cs:135-138 | the content headers are appended only when there is content |
| HeaderWriter.WriteMethodAndHeaders | src/HttpOverStream/HttpHeaderWriter.cs:128-140 | request line, request headers, content headers when there is content, blank line; fails exactly when one of them is not ASCII |
| HeaderWriter.WriteStatusLine | src/HttpOverStream/HttpHeaderWriter.cs:144-149 | `protocol SP code SP reason CRLF` is appended |
| HeaderWriter.WriteStatusAndHeaders | src/HttpOverStream/HttpHeaderWriter.cs:142-153 | status line, headers, blank line; fails exactly when one of them is not ASCII |
| HeaderWriter.WriteByteWhenFull | src/HttpOverStream.Tests/HttpHeaderWriterTests.cs:17-31 | with a one-byte buffer the first byte stays buffered, the second pushes it out, and a flush completes `[1, 2]` |
| HeaderWriter.VariousAlignments | src/HttpOverStream.Tests/HttpHeaderWriterTests.cs:41-55 | six writes of different lengths through a three-byte buffer come out as bytes 1 to 13 in order, after whatever the stream already held |
| Headers.Separator | src/HttpOverStream/HttpHeaderWriter.cs:112 | the value separator is a single space exactly for `Server`, otherwise `, ` |
| Headers.HeaderBlockAppend | src/HttpOverStream/HttpHeaderWriter.cs:134-138 | writing two header collections one after the other gives the block of their concatenation |
| Bytes.DecodeAsciiBytes | src/HttpOverStream/ByLineReader.cs:41 | decoding the bytes of an ASCII string gives the string back |
| Bytes.AsciiBytesContains | src/HttpOverStream/HttpHeaderWriter.cs:85-89 | an ASCII char's byte occurs in an ASCII string's bytes exactly when the char occurs in the string |
| LineReader.StripCR | src/HttpOverStream/ByLineReader.cs:36-40 | exactly one trailing CR is removed; a line not ending in CR is kept whole |
| LineReader.Scan | src/HttpOverStream/ByLineReader.cs:17-34 | the byte loop succeeds exactly when an LF follows; running dry is a cancelled error if cancellation was requested, an end-of-stream error otherwise |
| LineReader.ScanStopsAtFirstLF | src/HttpOverStream/ByLineReader.cs:17-34 | the loop stops at the first LF: the line is what came before it, and the stream keeps everything after it |
| LineReader.ReadLine | src/HttpOverStream/ByLineReader.cs:12-42 | succeeds exactly when the input holds an LF; the line is the bytes before the first LF minus one trailing CR, and exactly those bytes and the LF are consumed |
| LineReader.ReadTerminatedLine | src/HttpOverStream.Tests/ByLineReaderTests.cs:12-36 | an LF-free line sent with CRLF, or with LF when it does not end in CR, reads back as itself, the rest untouched; with an empty line `"\n"` and `"\r\n"` both read as empty |
| LineReader.ReadLinesTerminated | src/HttpOverStream.Tests/ByLineReaderTests.cs:12-36 | successive reads return every line of an LF- or CRLF-terminated text in order |
| LineReader.LfAndCrLfAgree | src/HttpOverStream.Tests/ByLineReaderTests.cs:12-36 | LF-only and CRLF endings yield the same line sequence |
| HttpParser.TrimStart | src/HttpOverStream/HttpParser.cs:16 | the result is the suffix starting at the first non-white char |
| HttpParser.TrimEnd | src/HttpOverStream/HttpParser.cs:16 | the result is the prefix ending at the last non-white char |
| HttpParser.Trim | src/HttpOverStream/HttpParser.cs:16-19 | the result is the middle of the text between its leading and its trailing white space, and has no edge white space itself; a text without edge white space is unchanged |
| HttpParser.Split | src/HttpOverStream/HttpParser.cs:17-18 | one piece more than there are separators, and no piece holds a separator |
| HttpParser.SplitJoin | src/HttpOverStream/HttpParser.cs:17-18 | joining the pieces with the separator restores the text |
| HttpParser.JoinSplit | src/HttpOverStream/HttpParser.cs:17-18 | splitting separator-free pieces joined by the separator restores the pieces |
| HttpParser.TrimAll | src/HttpOverStream/HttpParser.cs:19-20 | every value, trimmed, in order |
| HttpParser.ParseHeaderNameValues | src/HttpOverStream/HttpParser.cs:9-22 | a line fails exactly when it has no colon, with a format error; the name has no edge white space and no colon (later colons stay in the value text); there is one value more than the commas after the first colon; no value has edge white space |
| HttpParser.ParseAfterColon | src/HttpOverStream/HttpParser.cs:11-20 | for every line with a colon (the text before its first colon is colon-free), the name is that text trimmed and the values are the trimmed comma pieces of the text after the colon |
| HttpParser.ParseJoined | src/HttpOverStream/HttpParser.cs:9-22 | comma-free trimmed values joined by commas, with white space after the colon and after each comma, parse back to the same name and values |
| HeaderBlocks.ReadHeaderLines | src/HttpOverStream.Client/DialMessageHandler.cs:75-94 | for any input, through the first line read: an empty line ends the block with no headers and leaves what follows it; a non-empty line without a colon is a format error; a non-empty line with one gives its parsed header in front of the rest of the block, or the rest's error; no LF left is end of stream; on success the rest is a strict tail of the input |
| HeaderBlocks.HeaderText | src/HttpOverStream/HttpHeaderWriter.cs:107-125 | the written header line is this text followed by CRLF |
| HeaderBlocks.HeaderTextParses | src/HttpOverStream/HttpParser.cs:9-22 | a wire-safe header's text is non-empty ASCII with no LF, and parses back to the header |
| HeaderBlocks.ReadAsciiLine | src/HttpOverStream/ByLineReader.cs:12-42 | an ASCII text without LF sent with CRLF reads back as its bytes, which decode to the text |
| HeaderBlocks.FirstLine | src/HttpOverStream/ByLineReader.cs:12-42 | a written header line is read off the stream as its text, which parses back to the header |
| HeaderBlocks.ReadWrittenHeaders | src/HttpOverStream/HttpHeaderWriter.cs:105-127 | a written header block of wire-safe headers, then the blank line, reads back as the same headers and leaves exactly the bytes after it |
| HeaderBlocks.ReadBlankLine | src/HttpOverStream.Client/DialMessageHandler.cs:77-81 | the blank line ends the block with no headers |
| Connection.Read | src/HttpOverStream/BodyStream.cs:41 | at most the count; none exactly when the count is zero or the stream is at its end; the bytes are the front of what was unread and move to the consumed side |
| Connection.ReadKeepsContents | src/HttpOverStream/BodyStream.cs:41 | a read never changes what the stream holds in total |
| Connection.Write | src/HttpOverStream/StreamWithPrefix.cs:57-64 | the bytes go out after everything written before; nothing else about the connection changes |
| Connection.CloseWrite | src/HttpOverStream/StreamWithPrefix.cs:72-74 | the write side closes only on a stream that supports half-close; nothing else changes |
| Connection.Length | src/HttpOverStream/BodyStream.cs:58 | the total size, for a seekable stream only |
| Connection.Position | src/HttpOverStream/BodyStream.cs:65 | the bytes consumed so far, for a seekable stream only |
| BodyStreams.New | src/HttpOverStream/BodyStream.cs:17-21 | a fresh view keeps the given connection and length, has read nothing and is within its length |
| BodyStreams.BoundedCount | src/HttpOverStream/BodyStream.cs:23-30 | the count unchanged without a length, else the smaller of the count and what is left of the length |
| BodyStreams.Read | src/HttpOverStream/BodyStream.cs:34-44 | a read bounded to zero returns nothing and leaves everything alone; otherwise at most the bounded count, the counter grows by exactly what came back, the bytes are the front of what is left of the body, and `read <= length` is kept; the connection only moves the returned bytes from unread to consumed |
| BodyStreams.RemainingAfterRead | src/HttpOverStream/BodyStream.cs:41-43 | what a read returned plus what is left afterwards is what was left before |
| BodyStreams.Apply | src/HttpOverStream/BodyStream.cs:45-70 | Flush, Seek, SetLength and Write are unsupported; setting the position is an invalid operation |
| BodyStreams.Length | src/HttpOverStream/BodyStream.cs:52-62 | the declared length when there is one, else the underlying stream's length or its refusal |
| BodyStreams.Position | src/HttpOverStream/BodyStream.cs:63-65 | the underlying stream's position, which only a seekable stream reports |
| BodyStreams.ReadWholePayload | src/HttpOverStream.Server.Owin.Tests/EndToEndTests.cs:96-103 | with the length equal to the payload, a large enough read returns the whole payload and the next returns nothing, whatever follows on the stream |
| BodyStreams.ReadMany | src/HttpOverStream/BodyStream.cs:72-82 | any sequence of reads returns, in order, the front of what was left of the body, and the counter matches the bytes returned |
| PrefixStreams.New | src/HttpOverStream/StreamWithPrefix.cs:15-20 | a fresh stream keeps the given prefix, connection and length, is at position 0 and will serve the prefix followed by the connection |
| PrefixStreams.Clip | src/HttpOverStream/StreamWithPrefix.cs:28-31 | the count unchanged without a length, else cut to what is left of the length |
| PrefixStreams.Read | src/HttpOverStream/StreamWithPrefix.cs:26-54 | a read clipped to zero returns nothing and touches neither source; otherwise at most the clipped count, at least as much of the prefix as is left and wanted, the bytes are the front of prefix-then-connection, a request larger than the prefix left gets more than the prefix from a connection that is not at its end, the position advances by exactly what was returned, and `position <= length` is kept; the connection only moves bytes from unread to consumed and is otherwise unchanged |
| PrefixStreams.ReadPrefix | src/HttpOverStream/StreamWithPrefix.cs:36-47 | while prefix bytes are left, at least as many of them as are left and wanted come first; a request larger than the prefix left gets more than the prefix unless the connection is at its end; the position moves by exactly what was returned; the connection only moves bytes from unread to consumed and is otherwise unchanged |
| PrefixStreams.ReadPastPrefix | src/HttpOverStream/StreamWithPrefix.cs:38-47 | a read larger than the prefix left returns all of that prefix first, then the connection's bytes for the rest of the request, and more than the prefix exactly when the connection is not at its end; the connection only moves bytes from unread to consumed and is otherwise unchanged |
| PrefixStreams.ReadConn | src/HttpOverStream/StreamWithPrefix.cs:49-53 | once the prefix is used up, the connection serves the read and the position moves by exactly what it returned; nothing comes back only at the end of the connection; the connection only moves the returned bytes from unread to consumed |
| PrefixStreams.PrefixStep | src/HttpOverStream/StreamWithPrefix.cs:36-40 | taking bytes of the prefix advances the position past exactly them |
| PrefixStreams.Write | src/HttpOverStream/StreamWithPrefix.cs:57-64 | writes go to the connection unchanged; the prefix, position, length and everything else about the connection are untouched |
| PrefixStreams.Apply | src/HttpOverStream/StreamWithPrefix.cs:21-70 | Flush, Seek and SetLength are not implemented; setting the position is not supported |
| PrefixStreams.Length | src/HttpOverStream/StreamWithPrefix.cs:69 | the declared length, or not supported without one |
| PrefixStreams.CloseWrite | src/HttpOverStream/StreamWithPrefix.cs:72-74 | closes the connection's write side when it supports half-close, otherwise a no-op |
| PrefixStreams.ReadMany | src/HttpOverStream/StreamWithPrefix.cs:26-54 | the concatenation of any sequence of reads is a prefix of prefix-then-connection, never longer than the length |
| DialHandler.LittleEndian | src/HttpOverStream.Client/DialMessageHandler.cs:110 | the first byte is the least significant |
| DialHandler.LittleEndianInjective | src/HttpOverStream.Client/DialMessageHandler.cs:110-114 | comparing the eight bytes as one number is comparing the bytes |
| DialHandler.ParseStatusLine | src/HttpOverStream.Client/DialMessageHandler.cs:102-145 | accepts exactly the lines of at least 12 bytes that start `HTTP/1.0 `, then three digits, then nothing or a space; the code is `100a+10b+c` and below 1000; the reason is empty or the bytes after the space; every failure is an invalid-response error |
| DialHandler.ThreeDigitsValue | src/HttpOverStream.Client/DialMessageHandler.cs:117-123 | the decimal digits of a three-digit code read back as the code |
| DialHandler.ParseLaidOut | src/HttpOverStream.Client/DialMessageHandler.cs:102-145 | `HTTP/1.0 ddd reason` parses to the digits' value and the reason bytes |
| DialHandler.StatusLineRoundTrip | src/HttpOverStream.Client/DialMessageHandler.cs:102-145 | a status line written with any code 100-999 and any ASCII reason parses back to that code and reason |
| DialHandler.RejectsHttp11 | src/HttpOverStream.Client/DialMessageHandler.cs:110-114 | a response line starting `HTTP/1.1 200 ` is rejected |
| DialHandler.ValidateAndNormalizeRequest | src/HttpOverStream.Client/DialMessageHandler.cs:147-161 | fails exactly for a chunked request; otherwise the version is 1.0, `Expect: 100-continue` is no longer on, an expect flag that was not on is kept, and nothing else changes |
| DialHandler.ReadResponseHead | src/HttpOverStream.Client/DialMessageHandler.cs:74-94 | for any input: no first line is end of stream; a first line of the wrong shape is an invalid response; a header format error is wrapped as the client's header parsing error, an early end of the header block stays end of stream; otherwise the status is the parsed first line and the headers and rest are the header block's; the rest is the stream's tail |
| DialHandler.ResponseBody | src/HttpOverStream.Client/DialMessageHandler.cs:50-53 | however far the line reader read ahead, the body stream serves exactly the bytes after the blank line, from position 0, bounded by the content length; the connection has delivered exactly the bytes in front of those it still holds, and is otherwise unchanged |
| DialHandler.ReceiveResponse | src/HttpOverStream.Client/DialMessageHandler.cs:74-95 | a head error is the response's error; otherwise the response carries the head's status and headers and a body over exactly the bytes after the head |
| ServerRequest.ReadRequestHead | src/HttpOverStream.Server.Owin/CustomListenerHost.cs:66-90 | for any input: no first line is end of stream; fewer than three space-separated tokens in the first line is a request-line format error; otherwise the verb, target and protocol are the first three tokens, header errors pass through unchanged, and the headers and the rest are the header block's; the rest is a strict tail of the input |
| ServerRequest.ReceiveRequest | src/HttpOverStream.Server.Owin/CustomListenerHost.cs:95-102 | the body is a fresh bounded view whose connection holds exactly the bytes after the head, has delivered exactly the head, and is otherwise unchanged |
| ServerRequest.RequestBody | src/HttpOverStream.Server.Owin/CustomListenerHost.cs:95-102 | the body view starts with nothing read and the given length, over a connection that still holds exactly the bytes after the head, holds the same bytes overall, and is otherwise unchanged |
| ServerRequest.AllHeaders | src/HttpOverStream/HttpHeaderWriter.cs:134-138 | the request's headers then its content's form the written block |
| ServerRequest.RequestLineSplits | src/HttpOverStream.Server.Owin/CustomListenerHost.cs:69-75 | a written request line splits back into the verb, the target and `HTTP/1.0` |
| ServerRequest.ReadWrittenRequest | src/HttpOverStream.Server.Owin/CustomListenerHost.cs:66-90 | the bytes of a request head read back as its verb, target, `HTTP/1.0` and headers, leaving the bytes after it |
| RoundTrips.WireSafeAscii | src/HttpOverStream/HttpHeaderWriter.cs:85-88 | wire-safe headers pass the writer's character check |
| RoundTrips.RequestReachesServer | src/HttpOverStream/HttpHeaderWriter.cs:128-140 | a request written through a fresh writer of any buffer size and flushed is read by the server as the same verb, target, `HTTP/1.0` and headers |
| RoundTrips.ResponseReachesClient | src/HttpOverStream/HttpHeaderWriter.cs:142-153 | a response head written through a fresh writer of any buffer size and flushed is read by the client as the same code, reason bytes and headers, leaving the body bytes |
| RoundTrips.StatusHeadReadBack | src/HttpOverStream.Client/DialMessageHandler.cs:74-94 | the bytes of a status head read back as its status and headers |
| RoundTrips.NoValuesReadAsEmpty | src/HttpOverStream/HttpHeaderWriter.cs:107-126 | a header written without values is read back with one empty value, so it differs from what was written |
| RoundTrips.ServerValuesMerge | src/HttpOverStream/HttpHeaderWriter.cs:112 | a `Server` header with two or more values comes back as one value, their space-joined text, so it differs from what was written |
| OnceGuard.New | src/HttpOverStream.Server.Owin/Once.cs:10-13 | a fresh guard holds its action pending |
| OnceGuard.EnsureDone | src/HttpOverStream.Server.Owin/Once.cs:15-23 | the action runs exactly when it is pending and is taken out before it runs, so it is never pending again; a value it yields is stored and returned; an exception it throws reaches this caller and leaves the stored result as it was; with nothing pending the stored result is returned and nothing changes |
| OnceGuard.SecondCallRepeats | src/HttpOverStream.Server.Owin/Once.cs:17-22 | a second call runs nothing, changes nothing and returns the action's value, or the stored default when the action threw |
| OnceGuard.EnsureDoneMany | src/HttpOverStream.Server.Owin.Tests/OnceTests.cs:16-25 | over any number of calls the action runs exactly once (if it was pending and there was a call); the first call does what the action does, and every later call returns the settled value, never retrying an action that threw |

## Left out

- Asynchrony and `Task` chaining. Every `...Async` method is a sequential function: the writer's `ContinueWith` chains run their steps in order, and `StreamWithPrefix.Read` behaves as `ReadAsync`.
- Dialing, named pipes, listeners, timeouts and the `SendAsync` orchestration: OS behaviour and concurrency. Content copying and the flush and half-close after the request are sequential steps around the modelled parts.
- The OWIN and ASP.NET Core plumbing: building a `Uri` from the target, `PathString`, `QueryString`, and the middleware call. Only the request-line split, the header loop and the body stream are modelled.
- Parsing `Content-Length`. Neither side's model parses it: the server's `long.Parse` of the first value and the client's `Headers.ContentLength` are a length parameter. That length is an `Option<nat>`, so a negative length, which would make the body stream pass a negative count to the stream, is not modelled.
- The client calls a buffered `ByLineReader(stream, 4096)` with `NextLineAsync` and `Remaining`, and `HttpParser.ParseHeaderNameValue` and `HttpParser.GetAsciiString`; their definitions are not part of this model. The client's header loop is modelled with the unbuffered `ReadLine` and `ParseHeaderNameValues`. How far the buffered reader read ahead is the `ahead` parameter, and the reason phrase is kept as raw bytes.
- Sorting response headers into response versus content headers (`TryAddWithoutValidation`): the model keeps one ordered header list.
- The server's header dictionary (`request.Headers.Add`), including what it does with a repeated header name: the model keeps every header line in order.
- LineReader.ReadLine: `Encoding.ASCII.GetString` maps bytes above 0x7F to `'?'`; `Decode` keeps every byte as the char of the same code. Lines of ASCII bytes, which is all the writer produces, decode the same either way.
- HttpParser.Trim: `string.Trim` trims all Unicode white space; the model trims ASCII white space only (space and TAB through CR).
- HeaderWriter.WriteString: on a non-ASCII char the source has already buffered the chars before it, and for a string longer than the free buffer space it has already flushed the earlier part to the stream, so the peer may have received part of the head; the model returns only the error and drops both the buffered and the written part. The same holds for every writer operation built on it.
- HeaderWriter.WriteBytes: `Buffer.BlockCopy` throws an argument exception for an offset past the array, a size below -1, or a range past the array's end; the model requires the offset and size to lie within the bytes, which every caller in the library meets, and does not model that exception.
- HeaderWriter.New: a zero-sized buffer makes every non-empty source write recurse forever; the model requires a buffer of at least one byte.
- Integer widths: counts and lengths are unbounded. The source's `int`/`long` casts (`(int)Math.Min(...)`, `(int)(_length - _position)`) only matter for values beyond 2^31, which are not modelled.
- `CanRead`, `CanSeek`, `CanWrite` and `Close`/`Dispose`: constant answers or resource release, with no logic to prove.
- PrefixStreams.Read: the `Position` getter is the `position` field itself, and `PrefixStreams.Read` states how it moves.
- DialHandler.ParseStatusLine: the source also sets the response version and status code on the response object; the model returns the code and reason, and the version is always 1.0.
- DialHandler.ValidateAndNormalizeRequest: the source sets the version before it throws on a chunked request; the model returns only the error.
- BodyStreams.Read: a cancellation token is passed through to the underlying stream and is not modelled there; it is modelled only in the line reader.
- OnceGuard.EnsureDone: concurrent calls (`Interlocked.Exchange`): only the sequential state machine is modelled. A pending action is represented by what running it does (yield a value or throw; which exception it throws is not kept), and the test's parallel loop by sequential calls.
