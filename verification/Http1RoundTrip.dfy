/** What the codec promises: reading inverts writing exactly on the messages that can be framed,
    over whole pipelines; a cut body is an error; re-framing a chunked message fails. */
module Http1RoundTrip {
  import opened Wrappers
  import opened Utf8
  import opened Text
  import opened Http1

  // ----- lines -----

  lemma {:induction false} LineEndAt(p: Bytes, rest: Bytes)
    requires NEWLINE !in p
    ensures LineEnd(p + [NEWLINE] + rest) == |p| + 1
  {
    if p == [] {
      assert ([] + [NEWLINE] + rest)[0] == NEWLINE;
    } else {
      LineEndAt(p[1..], rest);
      assert (p + [NEWLINE] + rest)[1..] == p[1..] + [NEWLINE] + rest;
    }
  }

  lemma ReadLineOf(l: string, rest: Bytes)
    requires '\n' !in l
    ensures ReadLine(Line(l) + rest) == Done(l + "\r\n", rest)
  {
    var p := Encode(l + "\r");
    assert l + "\r\n" == (l + "\r") + "\n";
    EncodeConcat(l + "\r", "\n");
    assert Encode("\n") == EncodeChar('\n') + Encode("") == [NEWLINE];
    AsciiByteIn(l + "\r", NEWLINE);
    LineEndAt(p, rest);
    var b := Line(l) + rest;
    assert b == p + [NEWLINE] + rest;
    assert b[..|p| + 1] == Line(l) && b[|p| + 1..] == rest;
    DecodeEncode(l + "\r\n");
  }

  lemma {:induction false} LineEndIsFirst(b: Bytes)
    ensures b != [] ==> NEWLINE !in b[..LineEnd(b) - 1]
  {
    if b != [] && b[0] != NEWLINE && b[1..] != [] {
      LineEndIsFirst(b[1..]);
      var n := LineEnd(b[1..]);
      assert b[..n] == [b[0]] + b[1..][..n - 1];
    }
  }

  lemma NotInFront(front: Bytes, last: Bytes, x: Byte)
    requires 1 <= |last| && x !in (front + last)[..|front + last| - 1]
    ensures x !in front
  {
    var shortened := (front + last)[..|front + last| - 1];
    assert forall i :: 0 <= i < |front| ==> front[i] == shortened[i];
  }

  lemma {:induction false} TrimmingDropsLastNewline(s: string, p: char -> bool)
    requires p('\n')
    requires s == "" || '\n' !in s[..|s| - 1]
    ensures '\n' !in TrimEndBy(s, p)
  {
    if s != "" {
      var k := |s| - 1;
      assert s == s[..k] + [s[k]];
      if p(s[k]) {
        assert TrimEndBy(s, p) == TrimEndBy(s[..k], p);
      }
    }
  }

  lemma EncodedNotEmpty(s: string)
    requires s != ""
    ensures |Encode(s)| >= 1
  {
    assert Encode(s) == EncodeChar(s[0]) + Encode(s[1..]);
  }

  lemma InnerOfLine(line: Bytes, raw: string)
    requires Decode(line) == Some(raw) && raw != "" && line != []
    requires NEWLINE !in line[..|line| - 1]
    ensures '\n' !in raw[..|raw| - 1]
  {
    hide Encode, Decode;
    var front, last := raw[..|raw| - 1], [raw[|raw| - 1]];
    EncodedNotEmpty(last);
    EncodeDecode(line);
    EncodeConcat(front, last);
    assert raw == front + last;
    assert line == Encode(front) + Encode(last);
    NotInFront(Encode(front), Encode(last), NEWLINE);
    AsciiByteIn(front, NEWLINE);
  }

  /** A line that was read carries at most one newline, at its end. */
  lemma LineHasNoInnerNewline(b: Bytes)
    requires ReadLine(b).Done?
    ensures '\n' !in TrimEol(ReadLine(b).value) && '\n' !in TrimEnd(ReadLine(b).value)
  {
    if ReadLine(b).value != "" {
      var n := LineEnd(b);
      LineEndIsFirst(b);
      assert b[..n][..n - 1] == b[..n - 1];
      InnerOfLine(b[..n], ReadLine(b).value);
    }
    TrimmingDropsLastNewline(ReadLine(b).value, IsEol);
    TrimmingDropsLastNewline(ReadLine(b).value, IsWhitespace);
  }

  // ----- the messages a writer can frame -----

  predicate CleanStart(s: string) {
    s != "" && '\n' !in s && !IsWhitespace(s[|s| - 1])
  }

  predicate CleanHeader(h: Header) {
    Trimmed(h.name) && Trimmed(h.value) && ':' !in h.name && '\n' !in h.name && '\n' !in h.value
  }

  predicate CleanHeaders(headers: seq<Header>) {
    forall h :: h in headers ==> CleanHeader(h)
  }

  /** Start line and kept headers survive trimming and line splitting, no kept header announces
      chunked framing, and the body fits. Content-Length headers are free: they are dropped. */
  predicate Framable(m: HttpMessage, maxBody: nat) {
    && CleanStart(m.startLine)
    && CleanHeaders(KeptHeaders(m.headers))
    && !IsChunked(KeptHeaders(m.headers))
    && |m.body| <= maxBody
  }

  // ----- reading back a written head -----

  lemma ParseHeaderLine(h: Header)
    requires CleanHeader(h)
    ensures ParseHeader(h.name + ": " + h.value) == [h]
  {
    var l := h.name + ": " + h.value;
    assert l == h.name + [':'] + (" " + h.value);
    BeforeFirst(h.name, ':', " " + h.value);
    assert l[|h.name| + 1..] == " " + h.value;
    TrimIsTrimmed(h.name);
    TrimSpace(h.value);
    assert l[|h.name|] == ':';
  }

  function PrependHeaders(headers: seq<Header>, r: Parsed<seq<Header>>): Parsed<seq<Header>> {
    match r
    case Done(more, rest) => Done(headers + more, rest)
    case Failed(e) => Failed(e)
  }

  lemma PrependNothing(r: Parsed<seq<Header>>)
    ensures PrependHeaders([], r) == r
  {
    if r.Done? {
      assert [] + r.value == r.value;
    }
  }

  lemma HeaderLineThen(h: Header, tail: Bytes)
    requires CleanHeader(h)
    ensures ReadHeaders(Line(h.name + ": " + h.value) + tail) == PrependHeaders([h], ReadHeaders(tail))
  {
    var l := h.name + ": " + h.value;
    ReadLineOf(l, tail);
    assert l[|l| - 1] == if h.value == "" then ' ' else h.value[|h.value| - 1];
    TrimEolOfLine(l);
    ParseHeaderLine(h);
  }

  lemma HeaderLinesSplit(headers: seq<Header>, end: Bytes)
    requires headers != []
    ensures HeaderLines(headers) + end
            == Line(headers[0].name + ": " + headers[0].value) + (HeaderLines(headers[1..]) + end)
  {
  }

  lemma {:induction false} HeaderLinesAppend(headers: seq<Header>, h: Header)
    ensures HeaderLines(headers + [h]) == HeaderLines(headers) + Line(h.name + ": " + h.value)
  {
    hide Line;
    if headers == [] {
      assert [h][1..] == [] && [] + [h] == [h];
    } else {
      HeaderLinesAppend(headers[1..], h);
      assert (headers + [h])[1..] == headers[1..] + [h];
    }
  }

  lemma PrependTwice(h: Header, more: seq<Header>, r: Parsed<seq<Header>>)
    ensures PrependHeaders([h], PrependHeaders(more, r)) == PrependHeaders([h] + more, r)
  {
    if r.Done? {
      assert [h] + (more + r.value) == [h] + more + r.value;
    }
  }

  /** Written header lines are read back, whatever the rest of the head turns out to be. */
  lemma {:induction false} HeadersThen(headers: seq<Header>, tail: Bytes)
    requires CleanHeaders(headers)
    ensures ReadHeaders(HeaderLines(headers) + tail) == PrependHeaders(headers, ReadHeaders(tail))
  {
    hide ReadHeaders, CleanHeader, Line, PrependHeaders;
    if headers == [] {
      assert HeaderLines([]) + tail == tail;
      PrependNothing(ReadHeaders(tail));
    } else {
      HeadersThen(headers[1..], tail);
      HeaderLinesSplit(headers, tail);
      HeaderLineThen(headers[0], HeaderLines(headers[1..]) + tail);
      PrependTwice(headers[0], headers[1..], ReadHeaders(tail));
      assert [headers[0]] + headers[1..] == headers;
    }
  }

  lemma HeadOfMessageBack(headers: seq<Header>, rest: Bytes)
    requires CleanHeaders(headers)
    ensures ReadHeaders(HeaderLines(headers) + (Line("") + rest)) == Done(headers, rest)
  {
    ReadLineOf("", rest);
    TrimEolOfLine("");
    HeadersThen(headers, Line("") + rest);
    assert headers + [] == headers;
  }

  lemma LengthHeaderIsClean(n: nat)
    ensures CleanHeader(LengthHeader(n)) && !ChunkedHeader(LengthHeader(n)) && Named(LengthHeader(n), "content-length")
  {
    hide Print, ToLower;
    LengthHeaderName(n);
  }

  lemma LengthHeaderName(n: nat)
    ensures Named(LengthHeader(n), "content-length") && !Named(LengthHeader(n), "transfer-encoding")
  {
    assert |"Content-Length"| != |"transfer-encoding"|;
  }

  lemma {:induction false} ContentLengthOfKept(headers: seq<Header>, last: Header)
    requires Named(last, "content-length")
    ensures ContentLength(KeptHeaders(headers) + [last]) == ParseUsize(last.value, 10)
  {
    var kept := KeptHeaders(headers);
    if headers == [] {
      assert (kept + [last])[0] == last;
    } else {
      ContentLengthOfKept(headers[1..], last);
      if !Named(headers[0], "content-length") {
        assert (kept + [last])[1..] == KeptHeaders(headers[1..]) + [last];
      } else {
        assert kept == KeptHeaders(headers[1..]);
      }
    }
  }

  /** The message once its headers have been read. */
  function WithHeaders(start: string, r: Parsed<seq<Header>>, maxBody: nat, closeDelimited: bool)
    : Parsed<Option<HttpMessage>>
  {
    if r.Done? then WithHead(start, r.value, ReadBody(r.value, r.rest, maxBody, closeDelimited)) else Failed(r.error)
  }

  lemma StartLineThen(start: string, tail: Bytes, maxBody: nat, closeDelimited: bool)
    requires CleanStart(start)
    ensures ReadMessage(Line(start) + tail, maxBody, closeDelimited)
            == WithHeaders(start, ReadHeaders(tail), maxBody, closeDelimited)
  {
    hide ReadHeaders, ReadBody;
    ReadLineOf(start, tail);
    TrimEndOfLine(start);
  }

  /** A clean head on the wire is read as sent, whatever body framing follows from it. */
  lemma MessageBack(start: string, headers: seq<Header>, after: Bytes, maxBody: nat, closeDelimited: bool)
    requires CleanStart(start) && CleanHeaders(headers)
    ensures ReadMessage(Line(start) + (HeaderLines(headers) + (Line("") + after)), maxBody, closeDelimited)
            == WithHead(start, headers, ReadBody(headers, after, maxBody, closeDelimited))
  {
    StartLineThen(start, HeaderLines(headers) + (Line("") + after), maxBody, closeDelimited);
    HeadOfMessageBack(headers, after);
  }

  /** The headers a writer emits announce the body's length and nothing else about framing. */
  lemma ReframedHeaders(m: HttpMessage)
    requires CleanHeaders(KeptHeaders(m.headers))
    ensures CleanHeaders(Reframed(m).headers)
    ensures ContentLength(Reframed(m).headers) == if |m.body| < USIZE_END then Some(|m.body|) else None
    ensures IsChunked(Reframed(m).headers) <==> IsChunked(KeptHeaders(m.headers))
  {
    LengthHeaderIsClean(|m.body|);
    ContentLengthOfKept(m.headers, LengthHeader(|m.body|));
    ParsePrint(|m.body|, 10);
  }

  lemma RenderSplit(m: HttpMessage, rest: Bytes)
    ensures Render(m) + rest == Line(m.startLine) + (HeaderLines(Reframed(m).headers) + (Line("") + (m.body + rest)))
  {
  }

  // ----- what any read returns -----

  lemma TrimKeepsOut(s: string, c: char)
    requires c !in s
    ensures c !in Trim(s)
  {
  }

  lemma TrimmedPartsAreClean(name: string, value: string)
    requires ':' !in name && '\n' !in name && '\n' !in value
    ensures CleanHeader(Header(Trim(name), Trim(value)))
  {
    TrimIsTrimmed(name);
    TrimIsTrimmed(value);
    TrimKeepsOut(name, ':');
    TrimKeepsOut(name, '\n');
    TrimKeepsOut(value, '\n');
  }

  lemma ParseHeaderIsClean(line: string)
    requires '\n' !in line
    ensures forall i :: 0 <= i < |ParseHeader(line)| ==> CleanHeader(ParseHeader(line)[i])
  {
    if ':' in line {
      var name := Before(line, ':');
      TrimmedPartsAreClean(name, line[|name| + 1..]);
    }
  }

  lemma {:induction false} ReadHeadersAreClean(b: Bytes)
    requires ReadHeaders(b).Done?
    ensures CleanHeaders(ReadHeaders(b).value)
    decreases |b|
  {
    var Done(raw, rest) := ReadLine(b);
    var line := TrimEol(raw);
    if line != "" {
      ReadHeadersAreClean(rest);
      LineHasNoInnerNewline(b);
      ParseHeaderIsClean(line);
    }
  }

  /** Every message a read returns has a clean start line and clean headers, whatever the input. */
  lemma ReadMessageIsClean(b: Bytes, maxBody: nat, closeDelimited: bool)
    requires ReadMessage(b, maxBody, closeDelimited).Done? && ReadMessage(b, maxBody, closeDelimited).value.Some?
    ensures var m := ReadMessage(b, maxBody, closeDelimited).value.value;
            CleanStart(m.startLine) && CleanHeaders(m.headers)
  {
    LineHasNoInnerNewline(b);
    ReadHeadersAreClean(ReadLine(b).rest);
  }

  lemma {:induction false} ChunkedWithinLimit(b: Bytes, maxBody: nat, got: Bytes)
    requires |got| <= maxBody && ReadChunked(b, maxBody, got).Done?
    ensures |ReadChunked(b, maxBody, got).value| <= maxBody
    decreases |b|
  {
    var Done(raw, rest) := ReadLine(b);
    var size := ParseChunkSize(TrimEol(raw)).value;
    if size != 0 {
      ChunkedWithinLimit(rest[size + 2..], maxBody, got + rest[..size]);
    }
  }

  lemma BodyWithinLimit(headers: seq<Header>, b: Bytes, maxBody: nat, closeDelimited: bool)
    requires ReadBody(headers, b, maxBody, closeDelimited).Done?
    ensures |ReadBody(headers, b, maxBody, closeDelimited).value| <= maxBody
    ensures |ReadBody(headers, b, maxBody, closeDelimited).rest| <= |b|
  {
    if IsChunked(headers) {
      ChunkedWithinLimit(b, maxBody, []);
    }
  }

  /** No read returns a body over the limit, and a read that returns a message consumes input. */
  lemma ReadMessageWithinLimit(b: Bytes, maxBody: nat, closeDelimited: bool)
    requires ReadMessage(b, maxBody, closeDelimited).Done? && ReadMessage(b, maxBody, closeDelimited).value.Some?
    ensures |ReadMessage(b, maxBody, closeDelimited).value.value.body| <= maxBody
    ensures |ReadMessage(b, maxBody, closeDelimited).rest| < |b|
  {
    var line := ReadLine(b);
    var head := ReadHeaders(line.rest);
    BodyWithinLimit(head.value, head.rest, maxBody, closeDelimited);
  }

  // ----- the round trip -----

  /** Reading a written message with a clean head reaches its body with exactly the re-framed headers. */
  lemma WrittenBack(m: HttpMessage, rest: Bytes, maxBody: nat, closeDelimited: bool)
    requires CleanStart(m.startLine) && CleanHeaders(KeptHeaders(m.headers))
    ensures ReadMessage(Render(m) + rest, maxBody, closeDelimited)
            == WithHead(m.startLine, Reframed(m).headers,
                ReadBody(Reframed(m).headers, m.body + rest, maxBody, closeDelimited))
    ensures ContentLength(Reframed(m).headers) == if |m.body| < USIZE_END then Some(|m.body|) else None
    ensures IsChunked(Reframed(m).headers) <==> IsChunked(KeptHeaders(m.headers))
  {
    ReframedHeaders(m);
    RenderSplit(m, rest);
    MessageBack(m.startLine, Reframed(m).headers, m.body + rest, maxBody, closeDelimited);
  }

  /** Reading back a written message yields the same start line, the kept headers with one correct
      Content-Length at the end, the same body, and exactly the bytes that follow it: for every message
      that can be framed and for no other, whatever follows on the connection. */
  lemma RoundTripIff(m: HttpMessage, rest: Bytes, maxBody: nat, closeDelimited: bool)
    requires maxBody < USIZE_END
    ensures ReadMessage(Render(m) + rest, maxBody, closeDelimited) == Done(Some(Reframed(m)), rest)
            <==> Framable(m, maxBody)
  {
    var r := ReadMessage(Render(m) + rest, maxBody, closeDelimited);
    if Framable(m, maxBody) {
      WrittenBack(m, rest, maxBody, closeDelimited);
      assert (m.body + rest)[..|m.body|] == m.body && (m.body + rest)[|m.body|..] == rest;
    }
    if r == Done(Some(Reframed(m)), rest) {
      ReadMessageIsClean(Render(m) + rest, maxBody, closeDelimited);
      ReadMessageWithinLimit(Render(m) + rest, maxBody, closeDelimited);
      assert forall h :: h in KeptHeaders(m.headers) ==> h in Reframed(m).headers;
      WrittenBack(m, rest, maxBody, closeDelimited);
    }
  }

  /** A body over the limit is not refused, unlike a chunked one: its front is taken for the body, and its tail
      stays unread in front of what follows. */
  lemma OversizedBody(m: HttpMessage, rest: Bytes, maxBody: nat, closeDelimited: bool)
    requires CleanStart(m.startLine) && CleanHeaders(KeptHeaders(m.headers)) && !IsChunked(KeptHeaders(m.headers))
    requires maxBody < |m.body| < USIZE_END
    ensures ReadMessage(Render(m) + rest, maxBody, closeDelimited)
            == Done(Some(Reframed(m).(body := m.body[..maxBody])), m.body[maxBody..] + rest)
  {
    hide ReadMessage, Render, CleanStart, CleanHeader, IsChunked, ContentLength;
    WrittenBack(m, rest, maxBody, closeDelimited);
    assert (m.body + rest)[..maxBody] == m.body[..maxBody];
    assert (m.body + rest)[maxBody..] == m.body[maxBody..] + rest;
  }

  /** Everything a connection delivers until it closes or fails. */
  function ReadAll(b: Bytes, maxBody: nat, closeDelimited: bool): (r: (seq<HttpMessage>, Option<HttpError>))
    decreases |b|
  {
    match ReadMessage(b, maxBody, closeDelimited)
    case Failed(e) => ([], Some(e))
    case Done(None, _) => ([], None)
    case Done(Some(m), rest) =>
      ReadMessageWithinLimit(b, maxBody, closeDelimited);
      var (ms, end) := ReadAll(rest, maxBody, closeDelimited);
      ([m] + ms, end)
  }

  /** What each message looks like on the wire. */
  function Wires(ms: seq<HttpMessage>): (r: seq<Bytes>)
    ensures |r| == |ms| && forall i :: 0 <= i < |r| ==> r[i] == Render(ms[i])
  {
    seq(|ms|, i requires 0 <= i < |ms| => Render(ms[i]))
  }

  function Concat(parts: seq<Bytes>): Bytes {
    if parts == [] then [] else parts[0] + Concat(parts[1..])
  }

  function ReframedAll(ms: seq<HttpMessage>): (r: seq<HttpMessage>)
    ensures |r| == |ms| && forall i :: 0 <= i < |ms| ==> r[i] == Reframed(ms[i])
  {
    if ms == [] then [] else [Reframed(ms[0])] + ReframedAll(ms[1..])
  }

  /** Pipelining: the concatenation of any number of written messages reads back as those messages, in
      order, re-framed, ending in a clean close. */
  lemma {:induction false} PipelineRoundTrip(ms: seq<HttpMessage>, maxBody: nat, closeDelimited: bool)
    requires maxBody < USIZE_END
    requires forall m :: m in ms ==> Framable(m, maxBody)
    ensures ReadAll(Concat(Wires(ms)), maxBody, closeDelimited) == (ReframedAll(ms), None)
  {
    if ms != [] {
      assert Wires(ms)[1..] == Wires(ms[1..]);
      RoundTripIff(ms[0], Concat(Wires(ms[1..])), maxBody, closeDelimited);
      PipelineRoundTrip(ms[1..], maxBody, closeDelimited);
    }
  }

  lemma RenderCut(m: HttpMessage, k: nat)
    requires k <= |m.body|
    ensures |m.body| <= |Render(m)|
    ensures Render(m)[..|Render(m)| - |m.body| + k]
            == Line(m.startLine) + (HeaderLines(Reframed(m).headers) + (Line("") + m.body[..k]))
  {
    var head := Line(m.startLine) + HeaderLines(Reframed(m).headers) + Line("");
    assert Render(m) == head + m.body;
    assert (head + m.body)[..|head| + k] == head + m.body[..k];
  }

  /** A connection that closes inside the body of a framable message surfaces as an error. */
  lemma CutBodyIsError(m: HttpMessage, k: nat, maxBody: nat, closeDelimited: bool)
    requires maxBody < USIZE_END && Framable(m, maxBody)
    requires k < |m.body|
    ensures |m.body| <= |Render(m)|
    ensures ReadMessage(Render(m)[..|Render(m)| - |m.body| + k], maxBody, closeDelimited) == Failed(UnexpectedEof)
  {
    ReframedHeaders(m);
    RenderCut(m, k);
    MessageBack(m.startLine, Reframed(m).headers, m.body[..k], maxBody, closeDelimited);
  }

  /** A cut inside the head need not be one: a start line alone reads as a complete message without
      headers or body. */
  lemma CutHeadIsAccepted(s: string, maxBody: nat, closeDelimited: bool)
    requires CleanStart(s)
    ensures ReadMessage(Line(s), maxBody, closeDelimited) == Done(Some(HttpMessage(s, [], [])), [])
  {
    assert Line(s) == Line(s) + [];
    ReadLineOf(s, []);
    TrimEndOfLine(s);
    assert ReadLine([]) == Done("", []);
    assert ReadHeaders([]) == Done([], []);
  }

  // ----- re-framing -----

  function WithoutTransferEncoding(headers: seq<Header>): (r: seq<Header>)
    ensures forall h :: h in r <==> h in headers && !Named(h, "transfer-encoding")
  {
    if headers == [] then []
    else (if Named(headers[0], "transfer-encoding") then [] else [headers[0]]) + WithoutTransferEncoding(headers[1..])
  }

  lemma ChunkedIsNotLength(headers: seq<Header>)
    ensures IsChunked(KeptHeaders(headers)) <==> IsChunked(headers)
  {
    forall h | h in headers && ChunkedHeader(h)
      ensures h in KeptHeaders(headers)
    {
      assert |h.name| == |"transfer-encoding"| != |"content-length"|;
    }
  }

  /** Re-framing what was read: whatever stream a message came from, writing it and reading it again
      gives it back, re-framed, exactly when it did not arrive chunked. */
  lemma ReframeIff(b: Bytes, m: HttpMessage, rest: Bytes, maxBody: nat, closeDelimited: bool, again: bool)
    requires maxBody < USIZE_END
    requires ReadMessage(b, maxBody, closeDelimited).Done? && ReadMessage(b, maxBody, closeDelimited).value == Some(m)
    ensures ReadMessage(Render(m) + rest, maxBody, again) == Done(Some(Reframed(m)), rest) <==> !IsChunked(m.headers)
  {
    ReadMessageIsClean(b, maxBody, closeDelimited);
    ReadMessageWithinLimit(b, maxBody, closeDelimited);
    ChunkedIsNotLength(m.headers);
    RoundTripIff(m, rest, maxBody, again);
  }

  /** With Transfer-Encoding dropped as well, re-framing keeps start line and body of every message read. */
  lemma ReframeWithoutTransferEncoding(b: Bytes, m: HttpMessage, rest: Bytes, maxBody: nat, closeDelimited: bool,
      again: bool)
    requires maxBody < USIZE_END
    requires ReadMessage(b, maxBody, closeDelimited).Done? && ReadMessage(b, maxBody, closeDelimited).value == Some(m)
    ensures var m' := m.(headers := WithoutTransferEncoding(m.headers));
            ReadMessage(Render(m') + rest, maxBody, again) == Done(Some(Reframed(m')), rest)
            && Reframed(m').startLine == m.startLine && Reframed(m').body == m.body
  {
    var m' := m.(headers := WithoutTransferEncoding(m.headers));
    ReadMessageIsClean(b, maxBody, closeDelimited);
    ReadMessageWithinLimit(b, maxBody, closeDelimited);
    RoundTripIff(m', rest, maxBody, again);
  }
}
