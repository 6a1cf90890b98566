/** The buffered header writer: a fixed-capacity buffer in front of the
    output stream. Every write is proved to extend what the writer has
    accepted, `out + buf[..offset]`, by exactly its bytes, whatever the
    buffer alignment. */
module HeaderWriter {
  import opened Outcomes
  import opened Bytes
  import opened Headers

  /** `out` is what has reached the stream, `buf` the whole fixed array
      (bytes past `offset` are stale), `size` its capacity. */
  datatype Writer = Writer(out: seq<byte>, buf: seq<byte>, offset: nat, size: nat) {

    /** A zero-sized buffer makes every non-empty write loop forever, so a
        usable writer has room for at least one byte. */
    predicate Valid() {
      1 <= size && |buf| == size && offset <= size
    }

    /** Everything written so far: flushed bytes, then buffered ones. */
    function Pending(): seq<byte>
      requires Valid()
    {
      out + buf[..offset]
    }
  }

  /** The writer of the constructor, over a stream that already holds `out`. */
  function New(out: seq<byte>, size: nat): (w: Writer)
    requires 1 <= size
    ensures w.Valid() && w.size == size && w.offset == 0
    ensures w.Pending() == out
  {
    Writer(out, seq(size, _ => 0), 0, size)
  }

  /** Hands the buffered bytes to the stream; with nothing buffered nothing
      is emitted. */
  function Flush(w: Writer): (r: Writer)
    requires w.Valid()
    ensures r.Valid() && r.size == w.size && r.offset == 0
    ensures r.out == w.Pending() && r.Pending() == w.Pending()
    ensures w.offset == 0 ==> r == w
  {
    if w.offset == 0 then w
    else w.(out := w.out + w.buf[..w.offset], offset := 0)
  }

  /** Buffers the byte when there is room, otherwise flushes first. */
  function WriteByte(w: Writer, b: byte): (r: Writer)
    requires w.Valid()
    ensures r.Valid() && r.size == w.size
    ensures r.Pending() == w.Pending() + [b]
    ensures w.offset < w.size ==> r.out == w.out && r.offset == w.offset + 1
    ensures w.offset == w.size ==> r.out == w.Pending() && r.offset == 1
    decreases if w.offset < w.size then 0 else 1
  {
    if w.offset < w.size then
      assert w.buf[w.offset := b][..w.offset + 1] == w.buf[..w.offset] + [b];
      w.(buf := w.buf[w.offset := b], offset := w.offset + 1)
    else
      WriteByte(Flush(w), b)
  }

  /** `WriteBytesAsync(bytes, offset, size)`: copies
      `bytes[offset..offset + size]`, where the default size -1 stands for
      everything from `offset` on. */
  function WriteBytes(w: Writer, bytes: seq<byte>, offset: nat := 0, size: int := -1): (r: Writer)
    requires w.Valid()
    requires offset <= |bytes|
    requires size == -1 || 0 <= size <= |bytes| - offset
    ensures r.Valid() && r.size == w.size
    ensures size != -1 ==> r.Pending() == w.Pending() + bytes[offset..offset + size]
    ensures size == -1 ==> r.Pending() == w.Pending() + bytes[offset..]
  {
    if size == -1 then
      assert bytes[offset..offset + (|bytes| - offset)] == bytes[offset..];
      WriteRange(w, bytes, offset, |bytes| - offset)
    else
      WriteRange(w, bytes, offset, size)
  }

  /** The copy for an explicit size: a range that does not fit is split into
      the part that fills the buffer, a flush, and the rest. */
  function WriteRange(w: Writer, bytes: seq<byte>, offset: nat, size: nat): (r: Writer)
    requires w.Valid()
    requires offset + size <= |bytes|
    ensures r.Valid() && r.size == w.size
    ensures r.Pending() == w.Pending() + bytes[offset..offset + size]
    ensures size + w.offset <= w.size ==> r.out == w.out
    ensures size + w.offset > w.size ==> |w.out| + w.size <= |r.out|
    decreases size, w.offset
  {
    if size + w.offset <= w.size then
      BlockCopy(w, bytes[offset..offset + size])
    else
      var remaining := w.size - w.offset;
      // the nested write of `remaining` bytes fits exactly (FillIsBlockCopy)
      var head := Flush(BlockCopy(w, bytes[offset..offset + remaining]));
      var r := WriteRange(head, bytes, offset + remaining, size - remaining);
      SliceSplit(w.Pending(), bytes, offset, offset + remaining, offset + size);
      assert |head.out| == |w.out| + w.size by {
        assert |w.Pending()| == |w.out| + w.offset;
      }
      r
  }

  /** The nested write of the bytes that fill the buffer takes the fitting
      branch: it is the block copy `WriteRange` performs in its place. */
  lemma FillIsBlockCopy(w: Writer, bytes: seq<byte>, offset: nat)
    requires w.Valid()
    requires offset + (w.size - w.offset) <= |bytes|
    ensures WriteRange(w, bytes, offset, w.size - w.offset)
         == BlockCopy(w, bytes[offset..offset + (w.size - w.offset)])
  {
  }

  /** A write that overflows the buffer has filled it and flushed it: the
      bytes pending before, and the part of the range that filled the
      buffer, have reached the stream; nothing already there is lost. */
  lemma OverflowReachesStream(w: Writer, bytes: seq<byte>, offset: nat, size: nat)
    requires w.Valid()
    requires offset + size <= |bytes|
    ensures var r := WriteRange(w, bytes, offset, size);
            && w.out <= r.out
            && (size + w.offset > w.size ==> w.Pending() + bytes[offset..offset + (w.size - w.offset)] <= r.out)
  {
    var r := WriteRange(w, bytes, offset, size);
    var all := w.Pending() + bytes[offset..offset + size];
    assert r.out <= r.Pending() == all;
    if size + w.offset > w.size {
      var filled := w.Pending() + bytes[offset..offset + (w.size - w.offset)];
      assert filled == all[..|filled|];
      assert r.out[..|filled|] == filled;
    }
  }

  /** `Buffer.BlockCopy` of a chunk that fits behind the buffered bytes. */
  function BlockCopy(w: Writer, chunk: seq<byte>): (r: Writer)
    requires w.Valid() && w.offset + |chunk| <= w.size
    ensures r.Valid() && r.size == w.size && r.out == w.out
    ensures r.Pending() == w.Pending() + chunk
  {
    var buf := w.buf[..w.offset] + chunk + w.buf[w.offset + |chunk|..];
    assert buf[..w.offset + |chunk|] == w.buf[..w.offset] + chunk;
    w.(buf := buf, offset := w.offset + |chunk|)
  }

  lemma SliceSplit(p: seq<byte>, s: seq<byte>, i: nat, j: nat, k: nat)
    requires i <= j <= k <= |s|
    ensures p + s[i..j] + s[j..k] == p + s[i..k]
  {
    assert s[i..j] + s[j..k] == s[i..k];
  }

  /** Both bytes go into the buffer at once when they fit, otherwise one
      at a time. */
  function WriteTwoBytes(w: Writer, first: byte, second: byte): (r: Writer)
    requires w.Valid()
    ensures r.Valid() && r.size == w.size
    ensures r.Pending() == w.Pending() + [first, second]
    ensures w.offset + 2 <= w.size ==> r.out == w.out
  {
    if w.offset + 2 <= w.size then
      var buf := w.buf[w.offset := first][w.offset + 1 := second];
      assert buf[..w.offset + 2] == w.buf[..w.offset] + [first, second];
      w.(buf := buf, offset := w.offset + 2)
    else
      WriteByte(WriteByte(w, first), second)
  }

  /** The char-by-char copy of a string that fits the buffer; it stops at
      the first char above 0x7F. */
  function CopyChars(w: Writer, s: string): (r: Result<Writer>)
    requires w.Valid() && w.offset + |s| <= w.size
    ensures r.Ok? <==> IsAscii(s)
    ensures r.Err? ==> r.error == InvalidCharacterEncoding
    ensures r.Ok? ==> r.value.Valid() && r.value.size == w.size && r.value.out == w.out
    ensures r.Ok? ==> r.value.Pending() == w.Pending() + AsciiBytes(s)
    decreases |s|
  {
    if |s| == 0 then Ok(w)
    else if !IsAsciiChar(s[0]) then Err(InvalidCharacterEncoding)
    else
      var buf := w.buf[w.offset := ByteOf(s[0])];
      assert buf[..w.offset + 1] == w.buf[..w.offset] + [ByteOf(s[0])];
      assert AsciiBytes(s) == [ByteOf(s[0])] + AsciiBytes(s[1..]);
      CopyChars(w.(buf := buf, offset := w.offset + 1), s[1..])
  }

  /** Writes a 7-bit string, splitting it at the buffer boundary as often as
      needed; fails on the first char above 0x7F. */
  function WriteString(w: Writer, s: string): (r: Result<Writer>)
    requires w.Valid()
    ensures r.Ok? <==> IsAscii(s)
    ensures r.Err? ==> r.error == InvalidCharacterEncoding
    ensures r.Ok? ==> r.value.Valid() && r.value.size == w.size
    ensures r.Ok? ==> r.value.Pending() == w.Pending() + AsciiBytes(s)
    decreases |s|, w.offset
  {
    if |s| + w.offset <= w.size then CopyChars(w, s)
    else
      var remaining := w.size - w.offset;
      assert s == s[..remaining] + s[remaining..];
      AsciiBytesAppend(s[..remaining], s[remaining..]);
      var head :- WriteString(w, s[..remaining]);
      WriteString(Flush(head), s[remaining..])
  }

  /** The values of one header, each but the first preceded by `sep`. */
  function WriteValues(w: Writer, values: seq<string>, sep: string, first: bool): (r: Result<Writer>)
    requires w.Valid() && IsAscii(sep)
    ensures r.Ok? <==> AllAscii(values)
    ensures r.Err? ==> r.error == InvalidCharacterEncoding
    ensures r.Ok? ==> r.value.Valid() && r.value.size == w.size
    ensures r.Ok? && first ==> r.value.Pending() == w.Pending() + AsciiBytes(Join(values, sep))
    ensures r.Ok? && !first ==> r.value.Pending() == w.Pending() + AsciiBytes(SepPrefixed(values, sep))
    decreases |values|
  {
    if |values| == 0 then Ok(w)
    else
      var w1 := if first then w else WriteString(w, sep).value;
      var w2 :- WriteString(w1, values[0]);
      var r := WriteValues(w2, values[1..], sep, false);
      AllAsciiCons(values);
      ValuesBytes(w.Pending(), values, sep, first);
      r
  }

  /** The bytes of the values, split as `WriteValues` emits them: the
      separator unless first, the first value, then the rest. */
  lemma ValuesBytes(p: seq<byte>, values: seq<string>, sep: string, first: bool)
    requires |values| >= 1
    ensures first ==> p + AsciiBytes(values[0]) + AsciiBytes(SepPrefixed(values[1..], sep))
                      == p + AsciiBytes(Join(values, sep))
    ensures !first ==> p + AsciiBytes(sep) + AsciiBytes(values[0]) + AsciiBytes(SepPrefixed(values[1..], sep))
                       == p + AsciiBytes(SepPrefixed(values, sep))
  {
    var tail := SepPrefixed(values[1..], sep);
    if first {
      JoinFirst(values, sep);
      AsciiBytesAppend(values[0], tail);
    } else {
      AsciiBytesAppend(sep, values[0]);
      AsciiBytesAppend(sep + values[0], tail);
    }
  }

  lemma AllAsciiCons(values: seq<string>)
    requires |values| >= 1
    ensures AllAscii(values) <==> IsAscii(values[0]) && AllAscii(values[1..])
  {
    if IsAscii(values[0]) && AllAscii(values[1..]) {
      forall i | 0 <= i < |values| ensures IsAscii(values[i]) {
        if i > 0 { assert values[i] == values[1..][i - 1]; }
      }
    }
  }

  /** `name ": " values CRLF`. */
  function WriteHeader(w: Writer, h: Header): (r: Result<Writer>)
    requires w.Valid()
    ensures r.Ok? <==> HeaderAscii(h)
    ensures r.Err? ==> r.error == InvalidCharacterEncoding
    ensures r.Ok? ==> r.value.Valid() && r.value.size == w.size
    ensures r.Ok? ==> r.value.Pending() == w.Pending() + AsciiBytes(HeaderLine(h))
  {
    var sep := Separator(h.name);
    var w1 :- WriteString(w, h.name);
    var w2 := WriteTwoBytes(w1, ByteOf(':'), SP);
    var w3 :- WriteValues(w2, h.values, sep, true);
    var w4 := WriteTwoBytes(w3, CR, LF);
    HeaderLineBytes(w.Pending(), h);
    Ok(w4)
  }

  /** The bytes of a header line, piece by piece as the writer emits them. */
  lemma HeaderLineBytes(p: seq<byte>, h: Header)
    ensures p + AsciiBytes(HeaderLine(h))
      == p + AsciiBytes(h.name) + [ByteOf(':'), SP] + AsciiBytes(Join(h.values, Separator(h.name))) + [CR, LF]
  {
    var joined := Join(h.values, Separator(h.name));
    assert HeaderLine(h) == h.name + ": " + joined + "\r\n";
    AppendAscii(p, h.name + ": " + joined, "\r\n");
    AppendAscii(p, h.name + ": ", joined);
    AppendAscii(p, h.name, ": ");
    assert AsciiBytes(": ") == [ByteOf(':'), SP];
    assert AsciiBytes("\r\n") == [CR, LF];
  }

  /** Every header of the collection, in order. */
  function WriteHeaders(w: Writer, hs: seq<Header>): (r: Result<Writer>)
    requires w.Valid()
    ensures r.Ok? <==> HeadersAscii(hs)
    ensures r.Err? ==> r.error == InvalidCharacterEncoding
    ensures r.Ok? ==> r.value.Valid() && r.value.size == w.size
    ensures r.Ok? ==> r.value.Pending() == w.Pending() + AsciiBytes(HeaderBlock(hs))
    decreases |hs|
  {
    if |hs| == 0 then Ok(w)
    else
      var w1 :- WriteHeader(w, hs[0]);
      var r := WriteHeaders(w1, hs[1..]);
      HeadersAsciiCons(hs);
      AppendAscii(w.Pending(), HeaderLine(hs[0]), HeaderBlock(hs[1..]));
      r
  }

  const SpaceHttp10Newline: seq<byte> := AsciiBytes(" HTTP/1.0\r\n")

  /** `verb SP target " HTTP/1.0" CRLF`; the fixed suffix is a byte array
      written with the default size. */
  function WriteRequestLine(w: Writer, verb: string, target: string): (r: Result<Writer>)
    requires w.Valid()
    ensures r.Ok? <==> IsAscii(verb) && IsAscii(target)
    ensures r.Err? ==> r.error == InvalidCharacterEncoding
    ensures r.Ok? ==> r.value.Valid() && r.value.size == w.size
    ensures r.Ok? ==> r.value.Pending() == w.Pending() + AsciiBytes(RequestLine(verb, target))
  {
    var w1 :- WriteString(w, verb);
    var w2 := WriteByte(w1, SP);
    var w3 :- WriteString(w2, target);
    var w4 := WriteBytes(w3, SpaceHttp10Newline);
    RequestLineBytes(w.Pending(), verb, target);
    Ok(w4)
  }

  lemma RequestLineBytes(p: seq<byte>, verb: string, target: string)
    ensures p + AsciiBytes(RequestLine(verb, target))
      == p + AsciiBytes(verb) + [SP] + AsciiBytes(target) + SpaceHttp10Newline[0..]
  {
    assert AsciiBytes(" ") == [SP];
    assert SpaceHttp10Newline[0..] == AsciiBytes(" HTTP/1.0\r\n");
    AppendAscii(p, verb + " " + target, " HTTP/1.0\r\n");
    AppendAscii(p, verb + " ", target);
    AppendAscii(p, verb, " ");
  }

  lemma HeadersAsciiCons(hs: seq<Header>)
    requires |hs| >= 1
    ensures HeadersAscii(hs) <==> HeaderAscii(hs[0]) && HeadersAscii(hs[1..])
  {
    if HeaderAscii(hs[0]) && HeadersAscii(hs[1..]) {
      forall i | 0 <= i < |hs| ensures HeaderAscii(hs[i]) {
        if i > 0 { assert hs[i] == hs[1..][i - 1]; }
      }
    }
  }

  /** The request line, the request headers, the content headers when the
      request has content, and the blank line. */
  function WriteMethodAndHeaders(w: Writer, verb: string, target: string, headers: seq<Header>,
                                 content: Option<seq<Header>>): (r: Result<Writer>)
    requires w.Valid()
    ensures r.Ok? <==> IsAscii(verb) && IsAscii(target) && HeadersAscii(headers)
                       && (content.Some? ==> HeadersAscii(content.value))
    ensures r.Err? ==> r.error == InvalidCharacterEncoding
    ensures r.Ok? ==> r.value.Valid() && r.value.size == w.size
    ensures r.Ok? ==> r.value.Pending() == w.Pending() + AsciiBytes(RequestHead(verb, target, headers, content))
  {
    var w1 :- WriteRequestLine(w, verb, target);
    var w2 :- WriteHeaders(w1, headers);
    var w3 :- WriteContentHeaders(w2, content);
    var w4 := WriteTwoBytes(w3, CR, LF);
    RequestHeadBytes(w.Pending(), verb, target, headers, content);
    Ok(w4)
  }

  /** The content headers, only when the request has content. */
  function WriteContentHeaders(w: Writer, content: Option<seq<Header>>): (r: Result<Writer>)
    requires w.Valid()
    ensures r.Ok? <==> (content.Some? ==> HeadersAscii(content.value))
    ensures r.Err? ==> r.error == InvalidCharacterEncoding
    ensures r.Ok? ==> r.value.Valid() && r.value.size == w.size
    ensures r.Ok? ==> r.value.Pending() == w.Pending() + AsciiBytes(ContentBlock(content))
  {
    match content
    case None => Ok(w)
    case Some(c) => WriteHeaders(w, c)
  }

  lemma RequestHeadBytes(p: seq<byte>, verb: string, target: string, headers: seq<Header>, content: Option<seq<Header>>)
    ensures p + AsciiBytes(RequestHead(verb, target, headers, content))
      == p + AsciiBytes(RequestLine(verb, target)) + AsciiBytes(HeaderBlock(headers))
         + AsciiBytes(ContentBlock(content)) + [CR, LF]
  {
    var a1 := RequestLine(verb, target) + HeaderBlock(headers);
    assert AsciiBytes("\r\n") == [CR, LF];
    AppendAscii(p, a1 + ContentBlock(content), "\r\n");
    AppendAscii(p, a1, ContentBlock(content));
    AppendAscii(p, RequestLine(verb, target), HeaderBlock(headers));
  }

  /** `protocol SP code SP reason CRLF`. */
  function WriteStatusLine(w: Writer, protocol: string, statusCode: string, reasonPhrase: string): (r: Result<Writer>)
    requires w.Valid()
    ensures r.Ok? <==> IsAscii(protocol) && IsAscii(statusCode) && IsAscii(reasonPhrase)
    ensures r.Err? ==> r.error == InvalidCharacterEncoding
    ensures r.Ok? ==> r.value.Valid() && r.value.size == w.size
    ensures r.Ok? ==> r.value.Pending() == w.Pending() + AsciiBytes(StatusLine(protocol, statusCode, reasonPhrase))
  {
    var w1 :- WriteString(w, protocol);
    var w2 := WriteByte(w1, SP);
    var w3 :- WriteString(w2, statusCode);
    var w4 := WriteByte(w3, SP);
    var w5 :- WriteString(w4, reasonPhrase);
    var w6 := WriteTwoBytes(w5, CR, LF);
    StatusLineBytes(w.Pending(), protocol, statusCode, reasonPhrase);
    Ok(w6)
  }

  lemma StatusLineBytes(p: seq<byte>, protocol: string, statusCode: string, reasonPhrase: string)
    ensures p + AsciiBytes(StatusLine(protocol, statusCode, reasonPhrase))
      == p + AsciiBytes(protocol) + [SP] + AsciiBytes(statusCode) + [SP] + AsciiBytes(reasonPhrase) + [CR, LF]
  {
    var a1 := protocol + " ";
    var a2 := a1 + statusCode;
    var a3 := a2 + " ";
    var a4 := a3 + reasonPhrase;
    assert AsciiBytes(" ") == [SP];
    assert AsciiBytes("\r\n") == [CR, LF];
    AppendAscii(p, a4, "\r\n");
    AppendAscii(p, a3, reasonPhrase);
    AppendAscii(p, a2, " ");
    AppendAscii(p, a1, statusCode);
    AppendAscii(p, protocol, " ");
  }

  /** The status line, the headers and the blank line. */
  function WriteStatusAndHeaders(w: Writer, protocol: string, statusCode: string, reasonPhrase: string,
                                 headers: seq<Header>): (r: Result<Writer>)
    requires w.Valid()
    ensures r.Ok? <==> IsAscii(protocol) && IsAscii(statusCode) && IsAscii(reasonPhrase) && HeadersAscii(headers)
    ensures r.Err? ==> r.error == InvalidCharacterEncoding
    ensures r.Ok? ==> r.value.Valid() && r.value.size == w.size
    ensures r.Ok? ==> r.value.Pending() == w.Pending() + AsciiBytes(StatusHead(protocol, statusCode, reasonPhrase, headers))
  {
    var w1 :- WriteStatusLine(w, protocol, statusCode, reasonPhrase);
    var w2 :- WriteHeaders(w1, headers);
    var w3 := WriteTwoBytes(w2, CR, LF);
    StatusHeadBytes(w.Pending(), protocol, statusCode, reasonPhrase, headers);
    Ok(w3)
  }

  lemma StatusHeadBytes(p: seq<byte>, protocol: string, statusCode: string, reasonPhrase: string, headers: seq<Header>)
    ensures p + AsciiBytes(StatusHead(protocol, statusCode, reasonPhrase, headers))
      == p + AsciiBytes(StatusLine(protocol, statusCode, reasonPhrase)) + AsciiBytes(HeaderBlock(headers)) + [CR, LF]
  {
    var line := StatusLine(protocol, statusCode, reasonPhrase);
    assert AsciiBytes("\r\n") == [CR, LF];
    AppendAscii(p, line + HeaderBlock(headers), "\r\n");
    AppendAscii(p, line, HeaderBlock(headers));
  }

  /** With room for one byte, the first byte stays buffered, the second
      pushes the first out, and a flush emits the second. */
  lemma WriteByteWhenFull()
    ensures var w1 := WriteByte(New([], 1), 1);
            var w2 := WriteByte(w1, 2);
            w1.out == [] && w2.out == [1] && Flush(w2).out == [1, 2]
  {
    var w1 := WriteByte(New([], 1), 1);
    assert w1.Pending() == [1];
  }

  /** Writes of 2, 1, 1, 3, 2 and 4 bytes through a three-byte buffer meet
      every alignment, and come out in order after whatever the stream
      already held. */
  lemma VariousAlignments(out: seq<byte>)
    ensures var w := WriteBytes(WriteBytes(WriteBytes(WriteBytes(WriteBytes(WriteBytes(
                       New(out, 3), [1, 2]), [3]), [4]), [5, 6, 7]), [8, 9]), [10, 11, 12, 13]);
            Flush(w).out == out + [1, 2, 3, 4, 5, 6, 7, 8, 9, 10, 11, 12, 13]
  {
    var all: seq<byte> := [1, 2, 3, 4, 5, 6, 7, 8, 9, 10, 11, 12, 13];
    var w0 := New(out, 3);
    assert w0.Pending() == out + all[..0];
    assert all[0..2] == [1, 2] && all[2..3] == [3] && all[3..4] == [4];
    assert all[4..7] == [5, 6, 7] && all[7..9] == [8, 9] && all[9..13] == [10, 11, 12, 13];
    var w1 := Appended(w0, out, all, 0, 2);
    var w2 := Appended(w1, out, all, 2, 3);
    var w3 := Appended(w2, out, all, 3, 4);
    var w4 := Appended(w3, out, all, 4, 7);
    var w5 := Appended(w4, out, all, 7, 9);
    var w6 := Appended(w5, out, all, 9, 13);
  }

  /** One more write, of the next slice of `all`, after `all[..from]` is
      pending behind `out`, leaves `all[..to]` pending. */
  lemma Appended(w: Writer, out: seq<byte>, all: seq<byte>, from: nat, to: nat) returns (r: Writer)
    requires w.Valid() && from <= to <= |all|
    requires w.Pending() == out + all[..from]
    ensures r == WriteBytes(w, all[from..to])
    ensures r.Valid() && r.size == w.size && r.Pending() == out + all[..to]
    ensures to == |all| ==> r.Pending() == out + all
  {
    r := WriteBytes(w, all[from..to]);
    assert all[..from] + all[from..to] == all[..to];
  }
}
