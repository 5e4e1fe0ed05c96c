/** The codec as it runs: a buffered connection whose unread bytes shrink line by line, and a writer
    that assembles one message in an output buffer. Each method is proved against Http1. */
module Http1Io {
  import opened Wrappers
  import opened Utf8
  import opened Text
  import opened Http1
  import opened Http1RoundTrip
  import opened Http1Chunked

  datatype Result<+T> = Ok(value: T) | Err(error: HttpError)

  /** A call returned what the specification says and left what it says unread. */
  ghost predicate Agrees<T>(r: Result<T>, unread: Bytes, spec: Parsed<T>) {
    match spec
    case Done(v, rest) => r == Ok(v) && unread == rest
    case Failed(e) => r == Err(e)
  }

  lemma PrependStep(b: Bytes, headers: seq<Header>, raw: string, rest: Bytes)
    requires Http1.ReadLine(b) == Done(raw, rest) && TrimEol(raw) != ""
    ensures PrependHeaders(headers, ReadHeaders(b))
            == PrependHeaders(headers + ParseHeader(TrimEol(raw)), ReadHeaders(rest))
  {
    hide Http1.ReadLine, ParseHeader, TrimEol;
    if ReadHeaders(rest).Done? {
      assert headers + (ParseHeader(TrimEol(raw)) + ReadHeaders(rest).value)
          == headers + ParseHeader(TrimEol(raw)) + ReadHeaders(rest).value;
    }
  }

  lemma KeptStep(headers: seq<Header>, i: nat)
    requires i < |headers|
    ensures KeptHeaders(headers[i..])
            == (if Named(headers[i], "content-length") then [] else [headers[i]]) + KeptHeaders(headers[i + 1..])
  {
    assert headers[i..][1..] == headers[i + 1..];
  }

  lemma HeaderLinesFirst(out: Bytes, h: Header, more: seq<Header>)
    ensures out + HeaderLines([h] + more) == out + (Encode(h.name + ": " + h.value) + [13, 10]) + HeaderLines(more)
  {
    LineIsTextAndEnd(h.name + ": " + h.value);
    assert ([h] + more)[1..] == more;
  }

  lemma LengthHeaderLine(m: HttpMessage)
    ensures HeaderLines(Reframed(m).headers)
            == HeaderLines(KeptHeaders(m.headers)) + (Encode("Content-Length" + ": " + Decimal(|m.body|)) + [13, 10])
  {
    HeaderLinesAppend(KeptHeaders(m.headers), LengthHeader(|m.body|));
    LineIsTextAndEnd("Content-Length" + ": " + Decimal(|m.body|));
  }

  lemma RenderParts(m: HttpMessage, first: Bytes, lines: Bytes, length: Bytes)
    requires first == Line(m.startLine) && HeaderLines(Reframed(m).headers) == lines + length
    ensures first + lines + length + [13, 10] + m.body == Render(m)
  {
    EmptyLine();
    assert first + lines + length == first + (lines + length);
  }

  class Connection {
    var unread: Bytes

    constructor (input: Bytes)
      ensures unread == input
    {
      unread := input;
    }

    method ReadLine() returns (r: Result<string>)
      modifies this
      ensures Agrees(r, unread, Http1.ReadLine(old(unread)))
      ensures |unread| <= |old(unread)|
    {
      var n := LineEnd(unread);
      var line := Decode(unread[..n]);
      unread := unread[n..];
      if line == None {
        return Err(InvalidUtf8);
      }
      return Ok(line.value);
    }

    method ReadExact(n: nat) returns (r: Result<Bytes>)
      modifies this
      ensures Agrees(r, unread, Http1.ReadExact(old(unread), n))
      ensures |unread| <= |old(unread)|
    {
      if |unread| < n {
        unread := [];
        return Err(UnexpectedEof);
      }
      r := Ok(unread[..n]);
      unread := unread[n..];
    }

    method ReadMessage(maxBody: nat, closeDelimited: bool) returns (r: Result<Option<HttpMessage>>)
      modifies this
      ensures Agrees(r, unread, Http1.ReadMessage(old(unread), maxBody, closeDelimited))
    {
      var first := ReadLine();
      if first.Err? {
        return Err(first.error);
      }
      if first.value == "" {
        return Ok(None);
      }
      var startLine := TrimEnd(first.value);
      if startLine == "" {
        return Err(EmptyStartLine);
      }

      var head := ReadHeaderLines();
      if head.Err? {
        return Err(head.error);
      }
      var body := ReadBody(head.value, maxBody, closeDelimited);
      if body.Err? {
        return Err(body.error);
      }
      return Ok(Some(HttpMessage(startLine, head.value, body.value)));
    }

    method ReadHeaderLines() returns (r: Result<seq<Header>>)
      modifies this
      ensures Agrees(r, unread, ReadHeaders(old(unread)))
    {
      var headers: seq<Header> := [];
      PrependNothing(ReadHeaders(unread));
      while true
        invariant ReadHeaders(old(unread)) == PrependHeaders(headers, ReadHeaders(unread))
        decreases |unread|
      {
        ghost var before := unread;
        var raw := ReadLine();
        if raw.Err? {
          return Err(raw.error);
        }
        var line := TrimEol(raw.value);
        if line == "" {
          assert headers + [] == headers;
          return Ok(headers);
        }
        PrependStep(before, headers, raw.value, unread);
        headers := headers + ParseHeader(line);
      }
    }

    method ReadBody(headers: seq<Header>, maxBody: nat, closeDelimited: bool) returns (r: Result<Bytes>)
      modifies this
      ensures Agrees(r, unread, Http1.ReadBody(headers, old(unread), maxBody, closeDelimited))
    {
      if IsChunked(headers) {
        r := ReadChunkedBody(maxBody);
        return;
      }
      var contentLength := ContentLength(headers);
      if contentLength.Some? {
        r := ReadExact(Min(contentLength.value, maxBody));
      } else if closeDelimited {
        var n := Min(|unread|, maxBody);
        r := Ok(unread[..n]);
        unread := unread[n..];
      } else {
        r := Ok([]);
      }
    }

    method ReadChunkedBody(maxBody: nat) returns (r: Result<Bytes>)
      modifies this
      ensures Agrees(r, unread, ReadChunked(old(unread), maxBody, []))
    {
      var body := [];
      while true
        invariant ReadChunked(old(unread), maxBody, []) == ReadChunked(unread, maxBody, body)
        decreases |unread|
      {
        var raw := ReadLine();
        if raw.Err? {
          return Err(raw.error);
        }
        var size := ParseChunkSize(TrimEol(raw.value));
        if size == None {
          return Err(InvalidChunkSize);
        }
        if size.value == 0 {
          var trailers := ReadTrailers();
          if trailers.Err? {
            return Err(trailers.error);
          }
          return Ok(body);
        }
        if |body| + size.value >= USIZE_END {
          return Err(SizeOverflow);
        }
        if |body| + size.value > maxBody {
          return Err(BodyTooLarge);
        }
        ghost var rest := unread;
        var data := ReadExact(size.value);
        if data.Err? {
          return Err(data.error);
        }
        var crlf := ReadExact(2);
        if crlf.Err? {
          return Err(crlf.error);
        }
        assert unread == rest[size.value + 2..];
        body := body + data.value;
      }
    }

    method ReadTrailers() returns (r: Result<()>)
      modifies this
      ensures Agrees(r, unread, SkipTrailers(old(unread)))
    {
      while true
        invariant SkipTrailers(old(unread)) == SkipTrailers(unread)
        decreases |unread|
      {
        var raw := ReadLine();
        if raw.Err? {
          return Err(raw.error);
        }
        if TrimEol(raw.value) == "" {
          return Ok(());
        }
      }
    }
  }

  class Writer {
    var sent: Bytes

    constructor ()
      ensures sent == []
    {
      sent := [];
    }

    method WriteMessage(message: HttpMessage)
      modifies this
      ensures sent == old(sent) + Render(message)
    {
      var out := Encode(message.startLine);
      out := out + [13, 10];
      out := AppendHeaders(out, message.headers);
      var length := Encode("Content-Length" + ": " + Decimal(|message.body|)) + [13, 10];
      out := out + length;
      out := out + [13, 10];
      out := out + message.body;
      LineIsTextAndEnd(message.startLine);
      LengthHeaderLine(message);
      RenderParts(message, Encode(message.startLine) + [13, 10], HeaderLines(KeptHeaders(message.headers)), length);
      sent := sent + out;
    }

    static method AppendHeaders(buffer: Bytes, headers: seq<Header>) returns (out: Bytes)
      ensures out == buffer + HeaderLines(KeptHeaders(headers))
    {
      out := buffer;
      assert headers[0..] == headers;
      for i := 0 to |headers|
        invariant out + HeaderLines(KeptHeaders(headers[i..])) == buffer + HeaderLines(KeptHeaders(headers))
      {
        var h := headers[i];
        KeptStep(headers, i);
        assert [] + KeptHeaders(headers[i + 1..]) == KeptHeaders(headers[i + 1..]);
        if !Named(h, "content-length") {
          HeaderLinesFirst(out, h, KeptHeaders(headers[i + 1..]));
          out := out + (Encode(h.name + ": " + h.value) + [13, 10]);
        }
      }
    }
  }
}
