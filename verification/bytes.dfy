/** Bytes, ASCII text and the small sequence helpers every codec shares. */
module Bytes {

  newtype byte = x: int | 0 <= x < 0x100

  const LF: byte := 10
  const CR: byte := 13
  const SP: byte := 32
  const CRLF: seq<byte> := [CR, LF]

  /** The writer accepts a char only if `c & 0xFF80` is zero, i.e. c is 7-bit. */
  predicate IsAsciiChar(c: char) {
    (c as int) < 0x80
  }

  predicate IsAscii(s: string) {
    forall i :: 0 <= i < |s| ==> IsAsciiChar(s[i])
  }

  lemma AsciiConcat(a: string, b: string)
    requires IsAscii(a) && IsAscii(b)
    ensures IsAscii(a + b)
  {
    forall i | 0 <= i < |a + b| ensures IsAsciiChar((a + b)[i]) {
      if i >= |a| {
        assert (a + b)[i] == b[i - |a|];
      }
    }
  }

  /** The C# cast `(byte)c`: keeps the low eight bits. */
  function ByteOf(c: char): (b: byte)
    ensures IsAsciiChar(c) ==> b as int == c as int
  {
    (c as int % 0x100) as byte
  }

  /** The bytes a string puts on the wire, char by char. */
  function AsciiBytes(s: string): (r: seq<byte>)
    ensures |r| == |s|
  {
    if |s| == 0 then [] else [ByteOf(s[0])] + AsciiBytes(s[1..])
  }

  /** ASCII decoding of received bytes (the mapping of bytes above 0x7F to
      '?' is not part of the model: every byte keeps its code). */
  function Decode(bs: seq<byte>): (r: string)
    ensures |r| == |bs|
  {
    if |bs| == 0 then [] else [(bs[0] as int) as char] + Decode(bs[1..])
  }

  lemma {:induction false} AsciiBytesAppend(a: string, b: string)
    ensures AsciiBytes(a + b) == AsciiBytes(a) + AsciiBytes(b)
  {
    if |a| > 0 {
      assert (a + b)[1..] == a[1..] + b;
      AsciiBytesAppend(a[1..], b);
    } else {
      assert a + b == b;
    }
  }

  /** `AsciiBytesAppend` behind an existing prefix, in the left-nested shape
      the writer's postconditions take. */
  lemma AppendAscii(p: seq<byte>, a: string, b: string)
    ensures p + AsciiBytes(a + b) == p + AsciiBytes(a) + AsciiBytes(b)
  {
    AsciiBytesAppend(a, b);
  }

  lemma {:induction false} AsciiBytesIndex(s: string, i: int)
    requires 0 <= i < |s|
    ensures AsciiBytes(s)[i] == ByteOf(s[i])
  {
    if i > 0 {
      AsciiBytesIndex(s[1..], i - 1);
    }
  }

  /** Decoding undoes encoding on ASCII text. */
  lemma {:induction false} DecodeAsciiBytes(s: string)
    requires IsAscii(s)
    ensures Decode(AsciiBytes(s)) == s
  {
    if |s| > 0 {
      assert IsAscii(s[1..]) by {
        forall i | 0 <= i < |s[1..]| ensures IsAsciiChar(s[1..][i]) {
          assert s[1..][i] == s[i + 1];
        }
      }
      DecodeAsciiBytes(s[1..]);
      assert AsciiBytes(s)[1..] == AsciiBytes(s[1..]);
    }
  }

  /** The char c occurs in s exactly when its byte occurs in the encoding. */
  lemma AsciiBytesContains(s: string, c: char)
    requires IsAscii(s) && IsAsciiChar(c)
    ensures ByteOf(c) in AsciiBytes(s) <==> c in s
  {
    if ByteOf(c) in AsciiBytes(s) {
      var i :| 0 <= i < |s| && AsciiBytes(s)[i] == ByteOf(c);
      AsciiBytesIndex(s, i);
      assert s[i] == c;
    }
    if c in s {
      var i :| 0 <= i < |s| && s[i] == c;
      AsciiBytesIndex(s, i);
    }
  }

  /** `parts[0] + sep + parts[1] + ... + sep + parts[n-1]`; empty for no parts. */
  function Join(parts: seq<string>, sep: string): string {
    if |parts| == 0 then []
    else if |parts| == 1 then parts[0]
    else parts[0] + sep + Join(parts[1..], sep)
  }

  /** `sep + parts[0] + sep + parts[1] + ...`: the text of the values after
      the first one. */
  function SepPrefixed(parts: seq<string>, sep: string): string {
    if |parts| == 0 then [] else sep + parts[0] + SepPrefixed(parts[1..], sep)
  }

  lemma {:induction false} JoinFirst(parts: seq<string>, sep: string)
    requires |parts| >= 1
    ensures Join(parts, sep) == parts[0] + SepPrefixed(parts[1..], sep)
  {
    if |parts| == 1 {
      assert parts[0] + SepPrefixed(parts[1..], sep) == parts[0] + [];
    } else {
      JoinFirst(parts[1..], sep);
      assert parts[1..][1..] == parts[2..];
    }
  }

  /** The last part closes the joined text. */
  lemma {:induction false} JoinLast(parts: seq<string>, sep: string)
    requires |parts| >= 2
    ensures Join(parts, sep) == Join(parts[..|parts| - 1], sep) + sep + parts[|parts| - 1]
  {
    var n := |parts|;
    if n > 2 {
      JoinLast(parts[1..], sep);
      assert parts[1..][..n - 2] == parts[..n - 1][1..];
    }
  }

  /** A char of a joined text comes from the separator or from a part. */
  lemma {:induction false} JoinChars(parts: seq<string>, sep: string, c: char)
    requires c in Join(parts, sep)
    ensures c in sep || exists i :: 0 <= i < |parts| && c in parts[i]
  {
    if |parts| > 1 {
      if c !in parts[0] && c !in sep {
        JoinChars(parts[1..], sep, c);
        var i :| 0 <= i < |parts[1..]| && c in parts[1..][i];
        assert c in parts[i + 1];
      }
    }
  }

  /** ASCII text is text of ASCII chars only. */
  lemma AsciiChars(s: string)
    ensures IsAscii(s) <==> forall c :: c in s ==> IsAsciiChar(c)
  {
    if forall c :: c in s ==> IsAsciiChar(c) {
      forall i | 0 <= i < |s| ensures IsAsciiChar(s[i]) {
        assert s[i] in s;
      }
    }
  }

  /** Index of the first occurrence of x, or -1 (String.IndexOf). */
  function IndexOf<T(==)>(s: seq<T>, x: T): (r: int)
    ensures r == -1 <==> x !in s
    ensures r != -1 ==> 0 <= r < |s| && s[r] == x && x !in s[..r]
  {
    if |s| == 0 then -1
    else if s[0] == x then 0
    else
      var k := IndexOf(s[1..], x);
      if k == -1 then -1
      else
        assert s[..k + 1] == [s[0]] + s[1..][..k];
        k + 1
  }

  /** The first x is the one right after a stretch without x. */
  lemma {:induction false} IndexOfAfter<T>(a: seq<T>, x: T, b: seq<T>)
    requires x !in a
    ensures IndexOf(a + [x] + b, x) == |a|
  {
    if |a| > 0 {
      assert (a + [x] + b)[1..] == a[1..] + [x] + b;
      IndexOfAfter(a[1..], x, b);
    }
  }

  /** `t` is the tail end of `s`. */
  predicate EndsWith<T(==)>(s: seq<T>, t: seq<T>) {
    |t| <= |s| && s[|s| - |t|..] == t
  }

  lemma EndsWithTrans<T>(a: seq<T>, b: seq<T>, c: seq<T>)
    requires EndsWith(a, b) && EndsWith(b, c)
    ensures EndsWith(a, c)
  {
    assert a[|a| - |c|..] == a[|a| - |b|..][|b| - |c|..];
  }

  /** Number of occurrences of x in s. */
  function Count<T(==)>(s: seq<T>, x: T): nat {
    if |s| == 0 then 0 else (if s[0] == x then 1 else 0) + Count(s[1..], x)
  }
}
