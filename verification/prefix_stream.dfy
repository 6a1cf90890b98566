/** `StreamWithPrefix`: the bytes already read ahead off a connection,
    followed by the connection itself, as one read-only stream that stops
    after an optional length. The position counts bytes from both sources.
    `Read` and `ReadAsync` behave the same and are one function here. */
module PrefixStreams {
  import opened Outcomes
  import opened Bytes
  import Connection

  datatype Prefixed = Prefixed(prefix: seq<byte>, conn: Connection.Conn, length: Option<nat>, position: nat) {
    /** Never more read than the length allows. */
    predicate Valid() {
      length.Some? ==> position <= length.value
    }

    /** The part of the prefix not yet returned. */
    function PrefixLeft(): seq<byte> {
      if position < |prefix| then prefix[position..] else []
    }

    /** Everything a reader may still get, before the length cut. */
    function Unread(): seq<byte> {
      PrefixLeft() + conn.unread
    }
  }

  /** A fresh stream: nothing returned yet. */
  function New(prefix: seq<byte>, conn: Connection.Conn, length: Option<nat>): (p: Prefixed)
    ensures p.Valid() && p.position == 0
    ensures p.Unread() == prefix + conn.unread
    ensures p.prefix == prefix && p.conn == conn && p.length == length
  {
    Prefixed(prefix, conn, length, 0)
  }

  /** The count cut to what the length leaves; unchanged without a length. */
  function Clip(p: Prefixed, count: nat): (r: nat)
    requires p.Valid()
    ensures r <= count
    ensures p.length.None? ==> r == count
    ensures p.length.Some? ==> r <= p.length.value - p.position && (r == count || r == p.length.value - p.position)
  {
    if p.length.Some? && p.length.value - p.position < count then p.length.value - p.position else count
  }

  /** `ReadAsync`. A read clipped to zero returns nothing and touches
      neither source. Otherwise the prefix serves first; if the request is
      larger than what is left of it, the rest of the request is read from
      the connection in the same call. */
  function Read(p: Prefixed, count: nat, grant: nat): (r: Connection.Got<Prefixed>)
    requires p.Valid()
    ensures r.next.Valid()
    ensures Clip(p, count) == 0 ==> r.bytes == [] && r.next == p
    ensures |r.bytes| <= Clip(p, count)
    ensures r.next.position == p.position + |r.bytes|
    ensures r.bytes + r.next.Unread() == p.Unread()
    ensures r.next.prefix == p.prefix && r.next.length == p.length
    ensures |r.bytes| >= Min(Clip(p, count), |p.PrefixLeft()|)
    ensures |r.bytes| == 0 <==> Clip(p, count) == 0 || |p.Unread()| == 0
    ensures Clip(p, count) > |p.PrefixLeft()| && |p.conn.unread| > 0 ==> |r.bytes| > |p.PrefixLeft()|
    ensures r.next.conn.(consumed := p.conn.consumed, unread := p.conn.unread) == p.conn
    ensures r.next.conn.consumed + r.next.conn.unread == p.conn.consumed + p.conn.unread
  {
    var n := Clip(p, count);
    if n == 0 then Connection.Got([], p)
    else if p.position < |p.prefix| then ReadPrefix(p, n, grant)
    else ReadConn(p, n, grant)
  }

  /** A read of `n > 0` bytes while prefix bytes are left: as many as
      wanted come from the prefix, and the rest of the request, if any, is
      a second read, which finds the prefix used up and goes to the
      connection; that read returns something unless the connection is at
      its end. */
  function ReadPrefix(p: Prefixed, n: nat, grant: nat): (r: Connection.Got<Prefixed>)
    requires p.Valid() && 0 < n && p.position < |p.prefix|
    requires p.length.Some? ==> n <= p.length.value - p.position
    ensures r.next.Valid()
    ensures |r.bytes| <= n && |r.bytes| >= Min(n, |p.PrefixLeft()|) && |r.bytes| > 0
    ensures r.next.position == p.position + |r.bytes|
    ensures r.bytes + r.next.Unread() == p.Unread()
    ensures r.next.prefix == p.prefix && r.next.length == p.length
    ensures n > |p.PrefixLeft()| && |p.conn.unread| > 0 ==> |r.bytes| > |p.PrefixLeft()|
    ensures r.next.conn.(consumed := p.conn.consumed, unread := p.conn.unread) == p.conn
    ensures r.next.conn.consumed + r.next.conn.unread == p.conn.consumed + p.conn.unread
  {
    var left := |p.prefix| - p.position;
    if n <= left then
      PrefixStep(p, n);
      Connection.Got(p.prefix[p.position..p.position + n], p.(position := p.position + n))
    else
      ReadPastPrefix(p, n, grant)
  }

  /** A read larger than the prefix left: all of it, then a read of the
      rest of the request from the connection, which adds something
      exactly when the connection is not at its end. */
  function ReadPastPrefix(p: Prefixed, n: nat, grant: nat): (r: Connection.Got<Prefixed>)
    requires p.Valid() && p.position < |p.prefix| && |p.prefix| - p.position < n
    requires p.length.Some? ==> n <= p.length.value - p.position
    ensures r.next.Valid()
    ensures |p.prefix| - p.position <= |r.bytes| <= n
    ensures r.bytes[..|p.prefix| - p.position] == p.prefix[p.position..]
    ensures |r.bytes| > |p.prefix| - p.position <==> |p.conn.unread| > 0
    ensures r.next.position == p.position + |r.bytes|
    ensures r.bytes + r.next.Unread() == p.Unread()
    ensures r.next.prefix == p.prefix && r.next.length == p.length
    ensures r.next.conn.(consumed := p.conn.consumed, unread := p.conn.unread) == p.conn
    ensures r.next.conn.consumed + r.next.conn.unread == p.conn.consumed + p.conn.unread
  {
    var chunk := p.prefix[p.position..];
    var p1 := p.(position := |p.prefix|);
    UsedUp(p, p1);
    var g := ReadConn(p1, n - |chunk|, grant);
    Glue(chunk, g.bytes, g.next.Unread(), p.conn.unread);
    ConnFrame(p.conn, g.bytes, g.next.conn);
    Connection.Got(chunk + g.bytes, g.next)
  }

  /** A read of `n > 0` bytes once the prefix is used up goes to the
      connection, and the position follows what it returned. */
  function ReadConn(p: Prefixed, n: nat, grant: nat): (r: Connection.Got<Prefixed>)
    requires p.Valid() && 0 < n && |p.prefix| <= p.position
    requires p.length.Some? ==> n <= p.length.value - p.position
    ensures r.next.Valid()
    ensures |r.bytes| <= n
    ensures r.next.position == p.position + |r.bytes|
    ensures r.bytes + r.next.Unread() == p.Unread()
    ensures r.next.prefix == p.prefix && r.next.length == p.length
    ensures |r.bytes| == 0 <==> |p.Unread()| == 0
    ensures r.next.conn == p.conn.(consumed := p.conn.consumed + r.bytes, unread := r.next.conn.unread)
  {
    var g := Connection.Read(p.conn, n, grant);
    Connection.Got(g.bytes, p.(conn := g.next, position := p.position + |g.bytes|))
  }

  /** Taking `k` bytes of the prefix moves the position past them. */
  lemma PrefixStep(p: Prefixed, k: nat)
    requires p.position + k <= |p.prefix|
    ensures p.prefix[p.position..p.position + k] + p.(position := p.position + k).Unread() == p.Unread()
  {
    var q := p.(position := p.position + k);
    assert p.PrefixLeft() == p.prefix[p.position..p.position + k] + q.PrefixLeft();
  }

  /** Once the position reaches the end of the prefix, the prefix left was
      all of it from the old position, and only the connection is left. */
  lemma UsedUp(p: Prefixed, q: Prefixed)
    requires p.position < |p.prefix| && q == p.(position := |p.prefix|)
    ensures p.PrefixLeft() == p.prefix[p.position..]
    ensures p.Unread() == p.prefix[p.position..] + p.conn.unread
    ensures q.Unread() == p.conn.unread
  {
  }

  /** The chunk in front of what a read returned from the rest. */
  lemma Glue(chunk: seq<byte>, bytes: seq<byte>, left: seq<byte>, rest: seq<byte>)
    requires bytes + left == rest
    ensures (chunk + bytes) + left == chunk + rest
    ensures (chunk + bytes)[..|chunk|] == chunk
  {
    assert (chunk + bytes) + left == chunk + (bytes + left);
  }

  /** A connection read moves bytes from unread to consumed and changes
      nothing else. */
  lemma ConnFrame(c: Connection.Conn, bytes: seq<byte>, next: Connection.Conn)
    requires next == c.(consumed := c.consumed + bytes, unread := next.unread)
    requires bytes + next.unread == c.unread
    ensures next.(consumed := c.consumed, unread := c.unread) == c
    ensures next.consumed + next.unread == c.consumed + c.unread
  {
    assert next.consumed + next.unread == c.consumed + (bytes + next.unread);
  }

  /** `Write`/`WriteAsync` go to the connection unchanged. */
  function Write(p: Prefixed, bytes: seq<byte>): (r: Prefixed)
    ensures r.conn.written == p.conn.written + bytes
    ensures r.Unread() == p.Unread() && r.position == p.position
    ensures r.(conn := p.conn) == p
    ensures r.conn.(written := p.conn.written) == p.conn
  {
    p.(conn := Connection.Write(p.conn, bytes))
  }

  /** The operations the stream refuses. */
  datatype Refused = Flush | Seek | SetLength | SetPosition

  /** Flush, Seek and SetLength are not implemented; setting the position
      is not supported. */
  function Apply(p: Prefixed, op: Refused): (r: Result<Prefixed>)
    ensures r.Err?
    ensures r.error == NotSupported <==> op == SetPosition
    ensures r.error == NotSupported || r.error == NotImplemented
  {
    if op == SetPosition then Err(NotSupported) else Err(NotImplemented)
  }

  /** `Length`: the length given at construction, if there is one. */
  function Length(p: Prefixed): (r: Result<nat>)
    ensures r.Ok? <==> p.length.Some?
    ensures r.Ok? ==> r.value == p.length.value
    ensures r.Err? ==> r.error == NotSupported
  {
    if p.length.Some? then Ok(p.length.value) else Err(NotSupported)
  }

  /** `CloseWriteAsync`: closes the connection's write side if it supports
      half-close; otherwise nothing happens. */
  function CloseWrite(p: Prefixed): (r: Prefixed)
    ensures r.conn.writeClosed <==> p.conn.writeClosed || p.conn.canHalfClose
    ensures r.(conn := p.conn) == p
    ensures !p.conn.canHalfClose ==> r == p
  {
    p.(conn := Connection.CloseWrite(p.conn))
  }

  /** Reads of a given sequence of counts and grants, one after another.
      Everything returned is, in order, the start of the prefix followed by
      the connection, never longer than the length. */
  method ReadMany(p: Prefixed, counts: seq<nat>, grants: seq<nat>) returns (data: seq<byte>, last: Prefixed)
    requires p.Valid() && |grants| == |counts|
    ensures last.Valid() && last.prefix == p.prefix && last.length == p.length
    ensures data + last.Unread() == p.Unread()
    ensures data == p.Unread()[..|data|]
    ensures last.position == p.position + |data|
    ensures p.length.Some? ==> |data| <= p.length.value - p.position
  {
    data, last := [], p;
    var i := 0;
    while i < |counts|
      invariant 0 <= i <= |counts|
      invariant last.Valid() && last.prefix == p.prefix && last.length == p.length
      invariant data + last.Unread() == p.Unread()
      invariant last.position == p.position + |data|
    {
      var g := Read(last, counts[i], grants[i]);
      Extend(data, g.bytes, g.next.Unread(), last.Unread(), p.Unread());
      data, last := data + g.bytes, g.next;
      i := i + 1;
    }
    assert data == p.Unread()[..|data|];
  }

  /** Bytes read off the front of what was left join what came before. */
  lemma Extend(data: seq<byte>, bytes: seq<byte>, rest: seq<byte>, left: seq<byte>, whole: seq<byte>)
    requires bytes + rest == left && data + left == whole
    ensures (data + bytes) + rest == whole
  {
    assert (data + bytes) + rest == data + (bytes + rest);
  }
}
