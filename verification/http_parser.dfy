/** `HttpParser.ParseHeaderNameValues`: a header line split at its first
    colon into a trimmed name and the comma-separated, trimmed values. */
module HttpParser {
  import opened Outcomes
  import opened Bytes
  import opened Headers

  /** `char.IsWhiteSpace`, restricted to ASCII: space and TAB through CR. */
  predicate IsWhiteSpace(c: char) {
    c == ' ' || ('\t' <= c <= '\r')
  }

  /** Neither the first nor the last char is white space. */
  predicate NoEdgeSpace(s: string) {
    |s| == 0 || (!IsWhiteSpace(s[0]) && !IsWhiteSpace(s[|s| - 1]))
  }

  /** Drops the leading white space: the result is the suffix of `s` that
      starts at its first non-white char. */
  function TrimStart(s: string): (r: string)
    ensures |r| <= |s| && r == s[|s| - |r|..]
    ensures forall i :: 0 <= i < |s| - |r| ==> IsWhiteSpace(s[i])
    ensures |r| > 0 ==> !IsWhiteSpace(r[0])
  {
    if |s| > 0 && IsWhiteSpace(s[0]) then TrimStart(s[1..]) else s
  }

  /** Drops the trailing white space: the result is the prefix of `s` that
      ends at its last non-white char. */
  function TrimEnd(s: string): (r: string)
    ensures |r| <= |s| && r == s[..|r|]
    ensures forall i :: |r| <= i < |s| ==> IsWhiteSpace(s[i])
    ensures |r| > 0 ==> !IsWhiteSpace(r[|r| - 1])
  {
    if |s| > 0 && IsWhiteSpace(s[|s| - 1]) then TrimEnd(s[..|s| - 1]) else s
  }

  /** `s[i..j]` is what lies between the leading and the trailing white
      space of `s`. */
  predicate Between(s: string, i: int, j: int) {
    && 0 <= i <= j <= |s|
    && (forall k :: 0 <= k < i ==> IsWhiteSpace(s[k]))
    && (forall k :: j <= k < |s| ==> IsWhiteSpace(s[k]))
  }

  /** `string.Trim()`: the middle of `s` between its leading and its
      trailing white space, itself without edge white space; text already
      without edge white space is left as it is. */
  function Trim(s: string): (r: string)
    ensures NoEdgeSpace(r)
    ensures exists i, j :: Between(s, i, j) && r == s[i..j]
    ensures NoEdgeSpace(s) ==> r == s
  {
    var t := TrimStart(s);
    var r := TrimEnd(t);
    assert |r| > 0 ==> r[0] == t[0];
    TrimMiddle(s, t, r);
    r
  }

  /** A suffix after leading white space, cut before trailing white space,
      is the middle of `s`. */
  lemma TrimMiddle(s: string, t: string, r: string)
    requires |t| <= |s| && t == s[|s| - |t|..] && forall k :: 0 <= k < |s| - |t| ==> IsWhiteSpace(s[k])
    requires |r| <= |t| && r == t[..|r|] && forall k :: |r| <= k < |t| ==> IsWhiteSpace(t[k])
    ensures Between(s, |s| - |t|, |s| - |t| + |r|) && r == s[|s| - |t|..|s| - |t| + |r|]
  {
    var i := |s| - |t|;
    forall k | i + |r| <= k < |s| ensures IsWhiteSpace(s[k]) {
      assert s[k] == t[k - i];
    }
  }

  /** `string.Split(sep)`: the pieces between consecutive separators, one
      more piece than there are separators. */
  function Split(s: string, sep: char): (r: seq<string>)
    ensures |r| == Count(s, sep) + 1
    ensures forall i :: 0 <= i < |r| ==> sep !in r[i]
  {
    if |s| == 0 then [[]]
    else
      var t := Split(s[1..], sep);
      if s[0] == sep then [[]] + t
      else [[s[0]] + t[0]] + t[1..]
  }

  /** Joining the pieces with the separator gives the text back. */
  lemma {:induction false} SplitJoin(s: string, sep: char)
    ensures Join(Split(s, sep), [sep]) == s
  {
    if |s| > 0 {
      var t := Split(s[1..], sep);
      SplitJoin(s[1..], sep);
      if s[0] == sep {
        assert Split(s, sep) == [[]] + t;
        assert ([[]] + t)[1..] == t;
      } else {
        var r := [[s[0]] + t[0]] + t[1..];
        assert Split(s, sep) == r;
        JoinFirst(r, [sep]);
        JoinFirst(t, [sep]);
        assert r[1..] == t[1..];
      }
    }
  }

  /** A text without the separator is a single piece. */
  lemma {:induction false} SplitNoSeparator(a: string, sep: char)
    requires sep !in a
    ensures Split(a, sep) == [a]
  {
    if |a| > 0 {
      SplitNoSeparator(a[1..], sep);
      assert [a[0]] + a[1..] == a;
    }
  }

  /** A separator-free piece followed by the separator splits off first. */
  lemma {:induction false} SplitFirstPiece(a: string, sep: char, b: string)
    requires sep !in a
    ensures Split(a + [sep] + b, sep) == [a] + Split(b, sep)
  {
    if |a| == 0 {
      assert a + [sep] + b == [sep] + b;
      assert ([sep] + b)[1..] == b;
    } else {
      assert (a + [sep] + b)[1..] == a[1..] + [sep] + b;
      SplitFirstPiece(a[1..], sep, b);
      assert [a[0]] + a[1..] == a;
    }
  }

  /** Splitting undoes joining, as long as no piece holds the separator and
      there is at least one piece. */
  lemma {:induction false} JoinSplit(parts: seq<string>, sep: char)
    requires |parts| >= 1
    requires forall i :: 0 <= i < |parts| ==> sep !in parts[i]
    ensures Split(Join(parts, [sep]), sep) == parts
  {
    if |parts| == 1 {
      SplitNoSeparator(parts[0], sep);
    } else {
      JoinSplit(parts[1..], sep);
      SplitFirstPiece(parts[0], sep, Join(parts[1..], [sep]));
      assert [parts[0]] + parts[1..] == parts;
    }
  }

  /** Every string trimmed, in order. */
  function TrimAll(ss: seq<string>): (r: seq<string>)
    ensures |r| == |ss|
    ensures forall i :: 0 <= i < |ss| ==> r[i] == Trim(ss[i])
    ensures forall i :: 0 <= i < |r| ==> NoEdgeSpace(r[i])
  {
    seq(|ss|, i requires 0 <= i < |ss| => Trim(ss[i]))
  }

  /** Trimming leaves text without edge white space as it is. */
  lemma TrimAllNoEdgeSpace(ss: seq<string>)
    requires forall i :: 0 <= i < |ss| ==> NoEdgeSpace(ss[i])
    ensures TrimAll(ss) == ss
  {
    forall i | 0 <= i < |ss| ensures TrimAll(ss)[i] == ss[i] {
      assert Trim(ss[i]) == ss[i];
    }
  }

  /** A header line: the name before the first colon and the values after
      it, split on every comma; a line without a colon is malformed. */
  function ParseHeaderNameValues(line: string): (r: Result<Header>)
    ensures r.Err? <==> ':' !in line
    ensures r.Err? ==> r.error == InvalidHeaderFormat
    ensures r.Ok? ==> var pos := IndexOf(line, ':');
                      && NoEdgeSpace(r.value.name)
                      && ':' !in r.value.name
                      && |r.value.values| == Count(line[pos + 1..], ',') + 1
                      && forall i :: 0 <= i < |r.value.values| ==> NoEdgeSpace(r.value.values[i])
  {
    var pos := IndexOf(line, ':');
    if pos == -1 then Err(InvalidHeaderFormat)
    else
      Ok(Header(Trim(line[..pos]), TrimAll(Split(line[pos + 1..], ','))))
  }

  /** Nothing but white space. */
  predicate AllWhite(s: string) {
    forall i :: 0 <= i < |s| ==> IsWhiteSpace(s[i])
  }

  /** Any line holding a colon is a colon-free text, the colon, and the
      rest: its name is that text trimmed, and its values the trimmed
      comma-separated pieces of the rest. */
  lemma ParseAfterColon(name: string, text: string)
    requires ':' !in name
    ensures ParseHeaderNameValues(name + [':'] + text) == Ok(Header(Trim(name), TrimAll(Split(text, ','))))
  {
    var line := name + [':'] + text;
    IndexOfAfter(name, ':', text);
    assert line[..|name|] == name;
    assert line[|name| + 1..] == text;
  }

  /** The name and values come back out of `name ":" pad v1 "," gap v2 ...`
      when the name has no colon and nothing has edge white space or holds a
      comma: the white space `pad` after the colon and `gap` after each comma
      is trimmed away. */
  lemma ParseJoined(name: string, pad: string, values: seq<string>, gap: string)
    requires ':' !in name && NoEdgeSpace(name)
    requires |values| >= 1
    requires forall i :: 0 <= i < |values| ==> ',' !in values[i] && NoEdgeSpace(values[i])
    requires AllWhite(pad) && AllWhite(gap)
    ensures ParseHeaderNameValues(name + ":" + pad + Join(values, [','] + gap)) == Ok(Header(name, values))
  {
    var text := pad + Join(values, [','] + gap);
    var line := name + ":" + pad + Join(values, [','] + gap);
    assert line == name + [':'] + text;
    assert TrimAll(Split(text, ',')) == values by {
      PaddedJoinSplit(pad, values, gap);
    }
    ParsedAs(line, name, text, values);
  }

  /** A line that is a colon-free, edge-space-free name, a colon and a text
      whose trimmed comma pieces are `values` parses to that header. */
  lemma ParsedAs(line: string, name: string, text: string, values: seq<string>)
    requires line == name + [':'] + text
    requires ':' !in name && NoEdgeSpace(name)
    requires TrimAll(Split(text, ',')) == values
    ensures ParseHeaderNameValues(line) == Ok(Header(name, values))
  {
    ParseAfterColon(name, text);
    assert Trim(name) == name;
  }

  /** Splitting `pad v1 "," gap v2 ...` on commas and trimming gives the
      values back. */
  lemma PaddedJoinSplit(pad: string, values: seq<string>, gap: string)
    requires |values| >= 1
    requires forall i :: 0 <= i < |values| ==> ',' !in values[i] && NoEdgeSpace(values[i])
    requires AllWhite(pad) && AllWhite(gap)
    ensures TrimAll(Split(pad + Join(values, [','] + gap), ',')) == values
  {
    var padded := PadAll(values, pad, gap);
    PadJoin(values, pad, gap);
    PaddedPieces(values, pad, gap);
    JoinSplit(padded, ',');
  }

  /** Each padded piece is comma-free and trims back to its value. */
  lemma PaddedPieces(values: seq<string>, pad: string, gap: string)
    requires |values| >= 1
    requires forall i :: 0 <= i < |values| ==> ',' !in values[i] && NoEdgeSpace(values[i])
    requires AllWhite(pad) && AllWhite(gap)
    ensures forall i :: 0 <= i < |values| ==> ',' !in PadAll(values, pad, gap)[i]
    ensures TrimAll(PadAll(values, pad, gap)) == values
  {
    var padded := PadAll(values, pad, gap);
    forall i | 0 <= i < |values| ensures ',' !in padded[i] && Trim(padded[i]) == values[i] {
      TrimPadded(if i == 0 then pad else gap, values[i]);
    }
  }

  /** The values with `pad` in front of the first and `gap` in front of the
      others: the pieces between the commas. */
  function PadAll(values: seq<string>, pad: string, gap: string): (r: seq<string>)
    requires |values| >= 1
    ensures |r| == |values|
    ensures r[0] == pad + values[0]
    ensures forall i :: 1 <= i < |r| ==> r[i] == gap + values[i]
  {
    [pad + values[0]] + if |values| == 1 then [] else PadAll(values[1..], gap, gap)
  }

  lemma {:induction false} PadJoin(values: seq<string>, pad: string, gap: string)
    requires |values| >= 1
    ensures pad + Join(values, [','] + gap) == Join(PadAll(values, pad, gap), [','])
    decreases |values|
  {
    if |values| > 1 {
      var rest := values[1..];
      var tail := Join(rest, [','] + gap);
      var padded := PadAll(values, pad, gap);
      assert Join(values, [','] + gap) == values[0] + ([','] + gap) + tail;
      assert padded == [pad + values[0]] + PadAll(rest, gap, gap);
      assert padded[1..] == PadAll(rest, gap, gap);
      assert Join(padded, [',']) == (pad + values[0]) + [','] + Join(PadAll(rest, gap, gap), [',']);
      PadJoin(rest, gap, gap);
      Regroup(pad, values[0], gap, tail);
    }
  }

  /** `pad + (v + ("," + gap) + tail)` regrouped as `(pad + v) + "," + (gap + tail)`. */
  lemma Regroup(pad: string, v: string, gap: string, tail: string)
    ensures pad + (v + ([','] + gap) + tail) == (pad + v) + [','] + (gap + tail)
  {
  }

  /** White space in front of a value without edge white space is trimmed
      off again. */
  lemma {:induction false} TrimPadded(pad: string, value: string)
    requires AllWhite(pad) && NoEdgeSpace(value)
    ensures ',' in value <==> ',' in pad + value
    ensures Trim(pad + value) == value
  {
    if |pad| > 0 {
      assert (pad + value)[1..] == pad[1..] + value;
      TrimPadded(pad[1..], value);
      assert TrimStart(pad + value) == TrimStart(pad[1..] + value);
    } else {
      assert pad + value == value;
    }
  }
}
