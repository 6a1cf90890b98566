/** The header model and the text each header block, request head and status
    head occupies on the wire: the reference the buffered writer is proved
    against. */
module Headers {
  import opened Outcomes
  import opened Bytes

  /** One entry of a header collection: a name and its ordered values. */
  datatype Header = Header(name: string, values: seq<string>)

  /** Values are joined by ", ", except under `Server`, where a single space
      is used. */
  function Separator(name: string): (sep: string)
    ensures IsAscii(sep)
    ensures name == "Server" <==> sep == " "
    ensures name != "Server" ==> sep == ", "
  {
    if name == "Server" then " " else ", "
  }

  function HeaderLine(h: Header): string {
    h.name + ": " + Join(h.values, Separator(h.name)) + "\r\n"
  }

  function HeaderBlock(hs: seq<Header>): string {
    if |hs| == 0 then [] else HeaderLine(hs[0]) + HeaderBlock(hs[1..])
  }

  /** `METHOD SP target " HTTP/1.0" CRLF`, headers, content headers when there
      is content, blank line. */
  function RequestHead(verb: string, target: string, headers: seq<Header>, content: Option<seq<Header>>): string {
    RequestLine(verb, target) + HeaderBlock(headers) + ContentBlock(content) + "\r\n"
  }

  function RequestLine(verb: string, target: string): string {
    verb + " " + target + " HTTP/1.0\r\n"
  }

  /** The content headers are written only when the request has content. */
  function ContentBlock(content: Option<seq<Header>>): string {
    if content.Some? then HeaderBlock(content.value) else []
  }

  /** `protocol SP code SP reason CRLF`, headers, blank line. */
  function StatusHead(protocol: string, code: string, reason: string, headers: seq<Header>): string {
    StatusLine(protocol, code, reason) + HeaderBlock(headers) + "\r\n"
  }

  function StatusLine(protocol: string, code: string, reason: string): string {
    protocol + " " + code + " " + reason + "\r\n"
  }

  predicate AllAscii(ss: seq<string>) {
    forall i :: 0 <= i < |ss| ==> IsAscii(ss[i])
  }

  predicate HeaderAscii(h: Header) {
    IsAscii(h.name) && AllAscii(h.values)
  }

  predicate HeadersAscii(hs: seq<Header>) {
    forall i :: 0 <= i < |hs| ==> HeaderAscii(hs[i])
  }

  lemma {:induction false} HeaderBlockAppend(a: seq<Header>, b: seq<Header>)
    ensures HeaderBlock(a + b) == HeaderBlock(a) + HeaderBlock(b)
  {
    if |a| == 0 {
      assert a + b == b;
    } else {
      assert (a + b)[1..] == a[1..] + b;
      HeaderBlockAppend(a[1..], b);
    }
  }
}
