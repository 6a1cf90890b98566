/** `BodyStream`: a read-only view of a connection that stops after the
    declared body length. Without a declared length it passes reads through
    unchanged. `Read` and `ReadAsync` behave the same and are one function
    here. */
module BodyStreams {
  import opened Outcomes
  import opened Bytes
  import Connection

  /** The underlying stream, the declared length and the number of bytes
      read through this view so far. */
  datatype Body = Body(conn: Connection.Conn, length: Option<nat>, read: nat) {
    /** Never more read than declared. */
    predicate Valid() {
      length.Some? ==> read <= length.value
    }
  }

  /** A fresh view over `conn`: nothing read yet. */
  function New(conn: Connection.Conn, length: Option<nat>): (b: Body)
    ensures b.Valid() && b.read == 0
    ensures b.conn == conn && b.length == length
  {
    Body(conn, length, 0)
  }

  /** How many bytes a read of `count` may ask the underlying stream for:
      all of them without a declared length, otherwise no more than what is
      left of the body. */
  function BoundedCount(b: Body, count: nat): (r: nat)
    requires b.Valid()
    ensures r <= count
    ensures b.length.None? ==> r == count
    ensures b.length.Some? ==> r <= b.length.value - b.read && (r == count || r == b.length.value - b.read)
  {
    if b.length.None? then count else Min(count, b.length.value - b.read)
  }

  /** What is left of the body: everything the connection still holds, cut
      at the declared length. */
  function Remaining(b: Body): (r: seq<byte>)
    requires b.Valid()
    ensures b.length.None? ==> r == b.conn.unread
    ensures b.length.Some? ==> |r| <= b.length.value - b.read
  {
    if b.length.None? then b.conn.unread
    else b.conn.unread[..Min(|b.conn.unread|, b.length.value - b.read)]
  }

  /** `Read`/`ReadAsync`: a read bounded to zero returns nothing and leaves
      the connection alone; otherwise the bounded count goes to the
      connection and the counter grows by what came back. */
  function Read(b: Body, count: nat, grant: nat): (r: Connection.Got<Body>)
    requires b.Valid()
    ensures r.next.Valid()
    ensures BoundedCount(b, count) == 0 ==> r.bytes == [] && r.next == b
    ensures |r.bytes| <= BoundedCount(b, count)
    ensures r.next.read == b.read + |r.bytes|
    ensures r.bytes + r.next.conn.unread == b.conn.unread
    ensures r.bytes + Remaining(r.next) == Remaining(b)
    ensures r.next.length == b.length
    ensures |r.bytes| == 0 <==> BoundedCount(b, count) == 0 || |b.conn.unread| == 0
    ensures r.next.conn == b.conn.(consumed := b.conn.consumed + r.bytes, unread := r.next.conn.unread)
  {
    var n := BoundedCount(b, count);
    if n == 0 then Connection.Got([], b)
    else
      var g := Connection.Read(b.conn, n, grant);
      var next := b.(conn := g.next, read := b.read + |g.bytes|);
      RemainingAfterRead(b, g.bytes, next);
      Connection.Got(g.bytes, next)
  }

  lemma RemainingAfterRead(b: Body, bytes: seq<byte>, next: Body)
    requires b.Valid() && next.Valid()
    requires next.length == b.length && next.read == b.read + |bytes|
    requires bytes + next.conn.unread == b.conn.unread
    ensures bytes + Remaining(next) == Remaining(b)
  {
    if b.length.Some? {
      var u := b.conn.unread;
      var m := Min(|u|, b.length.value - b.read);
      assert next.conn.unread == u[|bytes|..];
      assert Remaining(next) == u[|bytes|..m];
      assert u[..m] == bytes + u[|bytes|..m];
    }
  }

  /** The operations a read-only, non-seekable stream refuses. */
  datatype Refused = Flush | Seek | SetLength | Write | SetPosition

  /** Flush, Seek, SetLength and Write are not supported; setting the
      position is an invalid operation. */
  function Apply(b: Body, op: Refused): (r: Result<Body>)
    ensures r.Err?
    ensures r.error == CannotSeek <==> op == SetPosition
    ensures r.error == CannotSeek || r.error == NotSupported
  {
    if op == SetPosition then Err(CannotSeek) else Err(NotSupported)
  }

  /** `Length`: the declared length; without one, the length of the
      underlying stream (which may itself refuse). */
  function Length(b: Body): (r: Result<nat>)
    ensures b.length.Some? ==> r == Ok(b.length.value)
    ensures b.length.None? ==> r == Connection.Length(b.conn)
  {
    // The view's own start offset is never assigned and stays 0.
    if b.length.None? then Connection.Length(b.conn) else Ok(b.length.value)
  }

  /** `Position` reads the underlying stream's position. */
  function Position(b: Body): (r: Result<nat>)
    ensures r.Ok? <==> b.conn.seekable
    ensures r.Ok? ==> r.value == |b.conn.consumed|
  {
    Connection.Position(b.conn)
  }

  /** With the declared length equal to the payload, a read for at least the
      payload that the connection serves in one go returns all of it, and
      the next read returns nothing, whatever follows on the connection. */
  lemma ReadWholePayload(conn: Connection.Conn, payload: seq<byte>, count: nat, grant: nat, count2: nat, grant2: nat)
    requires conn.unread[..Min(|conn.unread|, |payload|)] == payload
    requires count >= |payload| && grant >= |payload|
    ensures var b := New(conn, Some(|payload|));
            var first := Read(b, count, grant);
            first.bytes == payload && Read(first.next, count2, grant2).bytes == []
  {
    var b := New(conn, Some(|payload|));
    var first := Read(b, count, grant);
    assert |conn.unread| >= |payload|;
    assert first.bytes == conn.unread[..|payload|];
  }

  /** Reads of a given sequence of counts and grants, one after another. The
      bytes returned are always the start of what was left of the body,
      and never more than the declared length. */
  method ReadMany(b: Body, counts: seq<nat>, grants: seq<nat>) returns (data: seq<byte>, last: Body)
    requires b.Valid() && |grants| == |counts|
    ensures last.Valid() && last.length == b.length
    ensures data + Remaining(last) == Remaining(b)
    ensures last.read == b.read + |data|
  {
    data, last := [], b;
    var i := 0;
    while i < |counts|
      invariant 0 <= i <= |counts|
      invariant last.Valid() && last.length == b.length
      invariant data + Remaining(last) == Remaining(b)
      invariant last.read == b.read + |data|
    {
      var g := Read(last, counts[i], grants[i]);
      data, last := data + g.bytes, g.next;
      i := i + 1;
    }
  }
}
