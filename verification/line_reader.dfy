/** `ReadLineAsync`: reads a stream one byte at a time up to the first LF and
    strips one trailing CR. The stream is the byte sequence it will deliver;
    whether cancellation was requested when it ran dry is a parameter. */
module LineReader {
  import opened Outcomes
  import opened Bytes

  /** A line read off the stream (without its terminator) and what the
      stream still holds after it. */
  datatype Line = Line(text: seq<byte>, rest: seq<byte>)

  predicate EndsWithCR(bs: seq<byte>) {
    |bs| > 0 && bs[|bs| - 1] == CR
  }

  /** Removes one trailing CR, if any; interior CRs stay. */
  function StripCR(bs: seq<byte>): (r: seq<byte>)
    ensures EndsWithCR(bs) ==> r + [CR] == bs
    ensures !EndsWithCR(bs) ==> r == bs
  {
    if EndsWithCR(bs) then bs[..|bs| - 1] else bs
  }

  /** The read loop: `acc` holds the bytes read so far in this call. A read
      that returns nothing before the LF is an error: the cancellation error
      if cancellation was requested, end of stream otherwise. */
  function Scan(acc: seq<byte>, input: seq<byte>, cancelled: bool): (r: Result<Line>)
    ensures r.Ok? <==> LF in input
    ensures r.Err? ==> r.error == (if cancelled then Cancelled else EndOfStream)
    decreases |input|
  {
    if |input| == 0 then Err(if cancelled then Cancelled else EndOfStream)
    else if input[0] == LF then Ok(Line(StripCR(acc), input[1..]))
    else
      assert input == [input[0]] + input[1..];
      Scan(acc + [input[0]], input[1..], cancelled)
  }

  /** The loop stops at the first LF: it returns everything read before it
      and leaves everything after it. */
  lemma {:induction false} ScanStopsAtFirstLF(acc: seq<byte>, input: seq<byte>, cancelled: bool)
    requires LF in input
    ensures var k := IndexOf(input, LF);
            Scan(acc, input, cancelled) == Ok(Line(StripCR(acc + input[..k]), input[k + 1..]))
    decreases |input|
  {
    if input[0] == LF {
      assert acc + input[..0] == acc;
    } else {
      assert input == [input[0]] + input[1..];
      ScanStopsAtFirstLF(acc + [input[0]], input[1..], cancelled);
      ShiftPrefix(acc, input, IndexOf(input[1..], LF));
    }
  }

  /** Moving the first byte of the input onto the bytes read so far. */
  lemma ShiftPrefix(acc: seq<byte>, input: seq<byte>, k: nat)
    requires k < |input| - 1
    ensures acc + input[..k + 1] == acc + [input[0]] + input[1..][..k]
    ensures input[k + 2..] == input[1..][k + 1..]
  {
    assert input[..k + 1] == [input[0]] + input[1..][..k];
  }

  /** One line: the bytes before the first LF, minus one trailing CR; the
      LF itself is consumed and nothing after it. */
  function ReadLine(input: seq<byte>, cancelled: bool): (r: Result<Line>)
    ensures r.Ok? <==> LF in input
    ensures r.Err? ==> r.error == (if cancelled then Cancelled else EndOfStream)
    ensures r.Ok? ==> var k := IndexOf(input, LF);
                      && input == input[..k] + [LF] + r.value.rest
                      && r.value.text == StripCR(input[..k])
  {
    if LF in input then
      ScanFromStart(input, cancelled);
      Scan([], input, cancelled)
    else Scan([], input, cancelled)
  }

  /** Scanning from an empty line splits the input at its first LF. */
  lemma ScanFromStart(input: seq<byte>, cancelled: bool)
    requires LF in input
    ensures var k := IndexOf(input, LF);
            && input == input[..k] + [LF] + input[k + 1..]
            && Scan([], input, cancelled) == Ok(Line(StripCR(input[..k]), input[k + 1..]))
  {
    var k := IndexOf(input, LF);
    ScanStopsAtFirstLF([], input, cancelled);
    assert [] + input[..k] == input[..k];
    assert input == input[..k] + [LF] + input[k + 1..];
  }

  /** A line that carries no LF, followed by its terminator, is read back as
      itself, and the bytes after the terminator are left in the stream.
      With a bare LF terminator the line must not end in CR (that CR would
      be taken for part of the terminator); with CRLF any line comes back. */
  lemma ReadTerminatedLine(line: seq<byte>, eol: seq<byte>, rest: seq<byte>, cancelled: bool)
    requires LF !in line
    requires (eol == [LF] && !EndsWithCR(line)) || eol == [CR, LF]
    ensures ReadLine(line + eol + rest, cancelled) == Ok(Line(line, rest))
  {
    var before := if eol == [LF] then line else line + [CR];
    assert line + eol + rest == before + [LF] + rest;
    var input := before + [LF] + rest;
    IndexOfAfter(before, LF, rest);
    ScanStopsAtFirstLF([], input, cancelled);
    assert [] + input[..|before|] == before;
    assert input[|before| + 1..] == rest;
    assert StripCR(before) == line;
  }

  /** Successive lines until the stream is exhausted. */
  function ReadLines(input: seq<byte>, cancelled: bool): (r: Result<seq<seq<byte>>>)
    decreases |input|
  {
    if |input| == 0 then Ok([])
    else
      var line :- ReadLine(input, cancelled);
      var lines :- ReadLines(line.rest, cancelled);
      Ok([line.text] + lines)
  }

  /** Every line followed by the terminator `eol`. */
  function Terminated(lines: seq<seq<byte>>, eol: seq<byte>): seq<byte> {
    if |lines| == 0 then [] else lines[0] + eol + Terminated(lines[1..], eol)
  }

  /** Lines without LF are read back one by one from their CRLF-terminated
      concatenation, and from their LF-terminated concatenation as long as
      none of them ends in CR. */
  lemma {:induction false} ReadLinesTerminated(lines: seq<seq<byte>>, eol: seq<byte>, cancelled: bool)
    requires eol == [LF] || eol == [CR, LF]
    requires forall i :: 0 <= i < |lines| ==> LF !in lines[i]
    requires eol == [LF] ==> forall i :: 0 <= i < |lines| ==> !EndsWithCR(lines[i])
    ensures ReadLines(Terminated(lines, eol), cancelled) == Ok(lines)
  {
    if |lines| > 0 {
      var rest := Terminated(lines[1..], eol);
      ReadTerminatedLine(lines[0], eol, rest, cancelled);
      ReadLinesTerminated(lines[1..], eol, cancelled);
      assert [lines[0]] + lines[1..] == lines;
    }
  }

  /** LF-only and CRLF line endings yield the same line sequence. */
  lemma LfAndCrLfAgree(lines: seq<seq<byte>>, cancelled: bool)
    requires forall i :: 0 <= i < |lines| ==> LF !in lines[i] && !EndsWithCR(lines[i])
    ensures ReadLines(Terminated(lines, [LF]), cancelled) == ReadLines(Terminated(lines, [CR, LF]), cancelled)
  {
    ReadLinesTerminated(lines, [LF], cancelled);
    ReadLinesTerminated(lines, [CR, LF], cancelled);
  }
}
