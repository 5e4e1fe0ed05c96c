/** The HTTP/1.1 message codec of crates/connect_proxy/src/http1.rs as functions on byte strings:
    what a read returns together with the bytes it leaves unread, and what a write emits. */
module Http1 {
  import opened Wrappers
  import opened Utf8
  import opened Text
  import opened Replace

  datatype Header = Header(name: string, value: string)
  datatype HttpMessage = HttpMessage(startLine: string, headers: seq<Header>, body: Bytes)

  datatype HttpError = InvalidUtf8 | EmptyStartLine | UnexpectedEof | InvalidChunkSize | BodyTooLarge | SizeOverflow

  /** The outcome of a read: a value and the unread remainder, or the error that ends the connection. */
  datatype Parsed<+T> = Done(value: T, rest: Bytes) | Failed(error: HttpError)

  const NEWLINE: Byte := 10

  // ----- reading -----

  /** Length of the first line of `b`, its newline included; all of `b` when there is no newline. */
  function LineEnd(b: Bytes): (n: nat)
    ensures n <= |b|
    ensures b != [] ==> 1 <= n
    ensures NEWLINE !in b[..n] ==> n == |b|
  {
    if b == [] then 0 else if b[0] == NEWLINE then 1 else 1 + LineEnd(b[1..])
  }

  /** `read_line`: the empty string at end of input. */
  function ReadLine(b: Bytes): (r: Parsed<string>)
    ensures r.Done? ==> |r.rest| <= |b| && (r.value != "" ==> |r.rest| < |b|) && (b != [] ==> r.value != "")
  {
    var n := LineEnd(b);
    match Decode(b[..n])
    case None => Failed(InvalidUtf8)
    case Some(s) => Done(s, b[n..])
  }

  function ReadExact(b: Bytes, n: nat): Parsed<Bytes> {
    if n <= |b| then Done(b[..n], b[n..]) else Failed(UnexpectedEof)
  }

  /** One header line without its line ending; a line without a colon is skipped. */
  function ParseHeader(line: string): seq<Header> {
    if ':' in line then
      var name := Before(line, ':');
      [Header(Trim(name), Trim(line[|name| + 1..]))]
    else []
  }

  function ReadHeaders(b: Bytes): (r: Parsed<seq<Header>>)
    ensures r.Done? ==> |r.rest| <= |b|
    decreases |b|
  {
    match ReadLine(b)
    case Failed(e) => Failed(e)
    case Done(raw, rest) =>
      var line := TrimEol(raw);
      if line == "" then Done([], rest)
      else match ReadHeaders(rest)
        case Failed(e) => Failed(e)
        case Done(more, rest') => Done(ParseHeader(line) + more, rest')
  }

  predicate Named(h: Header, name: string) {
    EqIgnoreAsciiCase(h.name, name)
  }

  predicate ChunkedHeader(h: Header) {
    Named(h, "transfer-encoding") && Contains(ToLower(h.value), "chunked")
  }

  predicate IsChunked(headers: seq<Header>) {
    exists h :: h in headers && ChunkedHeader(h)
  }

  /** The first Content-Length header decides; an unparsable one counts as absent. */
  function ContentLength(headers: seq<Header>): (r: Option<nat>)
    ensures r.Some? ==> r.value < USIZE_END
  {
    if headers == [] then None
    else if Named(headers[0], "content-length") then ParseUsize(headers[0].value, 10)
    else ContentLength(headers[1..])
  }

  function ParseChunkSize(line: string): (r: Option<nat>)
    ensures r.Some? ==> line != ""
  {
    ParseUsize(Trim(Before(line, ';')), 16)
  }

  /** After the zero chunk: trailer lines up to a blank line or the end of input. */
  function SkipTrailers(b: Bytes): (r: Parsed<()>)
    ensures r.Done? ==> |r.rest| <= |b|
    decreases |b|
  {
    match ReadLine(b)
    case Failed(e) => Failed(e)
    case Done(raw, rest) =>
      if TrimEol(raw) == "" then Done((), rest) else SkipTrailers(rest)
  }

  /** `read_chunked_body` with `got` already decoded. A size that overflows the 64-bit running total
      aborts the connection task (the sum itself, or the allocation that follows it). */
  function ReadChunked(b: Bytes, maxBody: nat, got: Bytes): (r: Parsed<Bytes>)
    ensures r.Done? ==> |r.rest| + |r.value| < |b| + |got|
    decreases |b|
  {
    match ReadLine(b)
    case Failed(e) => Failed(e)
    case Done(raw, rest) =>
      match ParseChunkSize(TrimEol(raw))
      case None => Failed(InvalidChunkSize)
      case Some(size) =>
        if size == 0 then
          match SkipTrailers(rest)
          case Failed(e) => Failed(e)
          case Done(_, rest') => Done(got, rest')
        else if |got| + size >= USIZE_END then Failed(SizeOverflow)
        else if |got| + size > maxBody then Failed(BodyTooLarge)
        else if |rest| < size + 2 then Failed(UnexpectedEof)
        else ReadChunked(rest[size + 2..], maxBody, got + rest[..size])
  }

  function Min(a: nat, b: nat): nat {
    if a < b then a else b
  }

  /** RFC 7230 section 3.3.3 as the code has it: chunked, else Content-Length (capped), else to the end
      of input when the caller allows it, else empty. */
  function ReadBody(headers: seq<Header>, b: Bytes, maxBody: nat, closeDelimited: bool): Parsed<Bytes> {
    if IsChunked(headers) then ReadChunked(b, maxBody, [])
    else match ContentLength(headers)
      case Some(n) => ReadExact(b, Min(n, maxBody))
      case None =>
        if closeDelimited then
          var n := Min(|b|, maxBody);
          Done(b[..n], b[n..])
        else Done([], b)
  }

  /** The message once its body has been read. */
  function WithHead(startLine: string, headers: seq<Header>, r: Parsed<Bytes>): Parsed<Option<HttpMessage>> {
    match r
    case Failed(e) => Failed(e)
    case Done(body, rest) => Done(Some(HttpMessage(startLine, headers, body)), rest)
  }

  /** `read_message`; None when the input is already at its end. */
  function ReadMessage(b: Bytes, maxBody: nat, closeDelimited: bool): (r: Parsed<Option<HttpMessage>>)
  {
    match ReadLine(b)
    case Failed(e) => Failed(e)
    case Done(raw, rest) =>
      if raw == "" then Done(None, rest)
      else
        var startLine := TrimEnd(raw);
        if startLine == "" then Failed(EmptyStartLine)
        else match ReadHeaders(rest)
          case Failed(e) => Failed(e)
          case Done(headers, rest') =>
            WithHead(startLine, headers, ReadBody(headers, rest', maxBody, closeDelimited))
  }

  // ----- writing -----

  function Line(s: string): Bytes {
    Encode(s + "\r\n")
  }

  function HeaderLines(headers: seq<Header>): Bytes {
    if headers == [] then [] else Line(headers[0].name + ": " + headers[0].value) + HeaderLines(headers[1..])
  }

  /** The headers a writer keeps: every stale Content-Length goes. */
  function KeptHeaders(headers: seq<Header>): (r: seq<Header>)
    ensures forall h :: h in r <==> h in headers && !Named(h, "content-length")
  {
    if headers == [] then []
    else (if Named(headers[0], "content-length") then [] else [headers[0]]) + KeptHeaders(headers[1..])
  }

  function LengthHeader(n: nat): Header {
    Header("Content-Length", Decimal(n))
  }

  /** `m` as it is framed on the wire. */
  function Reframed(m: HttpMessage): HttpMessage {
    m.(headers := KeptHeaders(m.headers) + [LengthHeader(|m.body|)])
  }

  /** `write_message`. */
  function Render(m: HttpMessage): Bytes {
    Line(m.startLine) + HeaderLines(Reframed(m).headers) + Line("") + m.body
  }
}
