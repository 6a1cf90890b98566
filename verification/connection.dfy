/** The byte stream a body stream reads from: the bytes it has delivered,
    the bytes it will still deliver, and what has been written to it. How
    many bytes one read delivers is the operating system's choice; it comes
    in as the `grant` parameter, and the read returns at least one byte
    (at most the count asked for) unless the count is zero or the stream is
    at its end. */
module Connection {
  import opened Outcomes
  import opened Bytes

  datatype Conn = Conn(
    consumed: seq<byte>,
    unread: seq<byte>,
    written: seq<byte>,
    canHalfClose: bool,
    writeClosed: bool,
    seekable: bool)

  /** The bytes one read returned and the state after it. */
  datatype Got<S> = Got(bytes: seq<byte>, next: S)

  /** `Stream.Read(buffer, offset, count)`. */
  function Read(c: Conn, count: nat, grant: nat): (r: Got<Conn>)
    ensures |r.bytes| <= count
    ensures |r.bytes| == 0 <==> count == 0 || |c.unread| == 0
    ensures r.bytes + r.next.unread == c.unread
    ensures r.next == c.(consumed := c.consumed + r.bytes, unread := r.next.unread)
  {
    var n := if count == 0 then 0 else Min(Min(Max(grant, 1), count), |c.unread|);
    assert c.unread[..n] + c.unread[n..] == c.unread;
    Got(c.unread[..n], c.(consumed := c.consumed + c.unread[..n], unread := c.unread[n..]))
  }

  /** `Stream.Write`: the bytes go out after everything written before. */
  function Write(c: Conn, bytes: seq<byte>): (r: Conn)
    ensures |r.written| == |c.written| + |bytes|
    ensures r.written[..|c.written|] == c.written && r.written[|c.written|..] == bytes
    ensures r.consumed == c.consumed && r.unread == c.unread
    ensures r.(written := c.written) == c
  {
    c.(written := c.written + bytes)
  }

  /** `IWithCloseWriteSupport.CloseWriteAsync`, when the stream supports it;
      a stream without half-close support is left as it is. */
  function CloseWrite(c: Conn): (r: Conn)
    ensures r.writeClosed <==> c.writeClosed || c.canHalfClose
    ensures r.(writeClosed := c.writeClosed) == c
  {
    if c.canHalfClose then c.(writeClosed := true) else c
  }

  /** `Stream.Length`: the total size, for a seekable stream only. */
  function Length(c: Conn): (r: Result<nat>)
    ensures r.Ok? <==> c.seekable
    ensures r.Ok? ==> r.value == |c.consumed| + |c.unread|
    ensures r.Err? ==> r.error == NotSupported
  {
    if c.seekable then Ok(|c.consumed + c.unread|) else Err(NotSupported)
  }

  /** `Stream.Position`: how far reading has got, for a seekable stream only. */
  function Position(c: Conn): (r: Result<nat>)
    ensures r.Ok? <==> c.seekable
    ensures r.Ok? ==> r.value == |c.consumed|
    ensures r.Err? ==> r.error == NotSupported
  {
    if c.seekable then Ok(|c.consumed|) else Err(NotSupported)
  }

  /** Reading never changes how much the stream holds in total. */
  lemma ReadKeepsContents(c: Conn, count: nat, grant: nat)
    ensures var r := Read(c, count, grant);
            r.next.consumed + r.next.unread == c.consumed + c.unread
  {
    var r := Read(c, count, grant);
    assert r.next.consumed + r.next.unread == c.consumed + (r.bytes + r.next.unread);
  }
}
