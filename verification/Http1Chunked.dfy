/** Chunked transfer coding (RFC 7230 section 4.1): decoding inverts every chunking. */
module Http1Chunked {
  import opened Wrappers
  import opened Utf8
  import opened Text
  import opened Replace
  import opened Http1
  import opened Http1RoundTrip

  /** One chunk as a sender may write it: a size line of its choice and the data. */
  datatype Chunk = Chunk(sizeLine: string, data: Bytes)

  /** `line` announces `n` bytes: any digits, case, padding or extension the decoder accepts. */
  predicate Announces(line: string, n: nat) {
    '\n' !in line && (line == "" || !IsEol(line[|line| - 1])) && ParseChunkSize(line) == Some(n)
  }

  predicate ValidChunk(c: Chunk) {
    c.data != [] && Announces(c.sizeLine, |c.data|)
  }

  predicate ValidChunks(chunks: seq<Chunk>) {
    forall i :: 0 <= i < |chunks| ==> ValidChunk(chunks[i])
  }

  predicate NonBlankLines(lines: seq<string>) {
    forall i :: 0 <= i < |lines| ==> '\n' !in lines[i] && TrimEol(lines[i] + "\r\n") != ""
  }

  function Lines(ls: seq<string>): Bytes {
    if ls == [] then [] else Line(ls[0]) + Lines(ls[1..])
  }

  function ChunkBytes(c: Chunk): Bytes {
    Line(c.sizeLine) + c.data + Line("")
  }

  /** A complete chunked body: the chunks, the zero chunk, the trailers and a blank line. */
  function EncodeChunked(chunks: seq<Chunk>, lastLine: string, trailers: seq<string>): Bytes {
    ChunkList(chunks) + (Line(lastLine) + (Lines(trailers) + Line("")))
  }

  function ChunkList(chunks: seq<Chunk>): Bytes {
    if chunks == [] then [] else ChunkBytes(chunks[0]) + ChunkList(chunks[1..])
  }

  function Data(chunks: seq<Chunk>): Bytes {
    if chunks == [] then [] else chunks[0].data + Data(chunks[1..])
  }

  lemma ParseHexSize(line: string, n: nat)
    requires n < USIZE_END && Before(line, ';') == Print(n, 16)
    ensures ParseChunkSize(line) == Some(n)
  {
    TrimIsTrimmed(Print(n, 16));
    ParsePrint(n, 16);
  }

  /** The size lines RFC 7230 senders write: hexadecimal size, optional extension. */
  lemma CanonicalSizeLine(n: nat, ext: string)
    requires n < USIZE_END
    requires ext == "" || (ext[0] == ';' && '\n' !in ext && !IsEol(ext[|ext| - 1]))
    ensures Announces(Print(n, 16) + ext, n)
  {
    hide Print, ParseChunkSize;
    var hex := Print(n, 16);
    var line := hex + ext;
    if ext == "" {
      assert line == hex;
    } else {
      assert line == hex + [';'] + ext[1..];
      BeforeFirst(hex, ';', ext[1..]);
      assert line[|line| - 1] == ext[|ext| - 1];
    }
    ParseHexSize(line, n);
  }

  lemma {:induction false} TrailersSkipped(trailers: seq<string>, rest: Bytes)
    requires NonBlankLines(trailers)
    ensures SkipTrailers(Lines(trailers) + (Line("") + rest)) == Done((), rest)
  {
    if trailers == [] {
      assert Lines([]) + (Line("") + rest) == Line("") + rest;
      ReadLineOf("", rest);
      TrimEolOfLine("");
    } else {
      var tail := Lines(trailers[1..]) + (Line("") + rest);
      assert Lines(trailers) + (Line("") + rest) == Line(trailers[0]) + tail;
      ReadLineOf(trailers[0], tail);
      TrailersSkipped(trailers[1..], rest);
    }
  }

  lemma SizeLineBack(line: string, n: nat, tail: Bytes)
    requires Announces(line, n)
    ensures ReadLine(Line(line) + tail) == Done(line + "\r\n", tail)
    ensures ParseChunkSize(TrimEol(line + "\r\n")) == Some(n)
  {
    ReadLineOf(line, tail);
    TrimEolOfLine(line);
  }

  lemma EmptyLine()
    ensures Line("") == [13, 10]
  {
    assert "" + "\r\n" == "\r" + "\n";
    EncodeConcat("\r", "\n");
    assert Encode("\r") == EncodeChar('\r') + Encode("");
    assert Encode("\n") == EncodeChar('\n') + Encode("");
  }

  lemma LineIsTextAndEnd(s: string)
    ensures Line(s) == Encode(s) + [13, 10]
  {
    EmptyLine();
    assert "" + "\r\n" == "\r\n";
    EncodeConcat(s, "\r\n");
  }

  lemma ReadChunkedStep(b: Bytes, raw: string, data: Bytes, crlf: Bytes, tail: Bytes, maxBody: nat, got: Bytes)
    requires ReadLine(b) == Done(raw, data + (crlf + tail)) && |crlf| == 2
    requires data != [] && ParseChunkSize(TrimEol(raw)) == Some(|data|)
    ensures ReadChunked(b, maxBody, got)
            == if |got| + |data| >= USIZE_END then Failed(SizeOverflow)
               else if |got| + |data| > maxBody then Failed(BodyTooLarge)
               else ReadChunked(tail, maxBody, got + data)
  {
    var rest := data + (crlf + tail);
    assert rest[..|data|] == data && rest[|data| + 2..] == tail;
  }

  lemma OneChunkBack(c: Chunk, tail: Bytes, maxBody: nat, got: Bytes)
    requires ValidChunk(c)
    ensures ReadChunked(ChunkBytes(c) + tail, maxBody, got)
            == if |got| + |c.data| >= USIZE_END then Failed(SizeOverflow)
               else if |got| + |c.data| > maxBody then Failed(BodyTooLarge)
               else ReadChunked(tail, maxBody, got + c.data)
  {
    hide ReadChunked, Http1.ReadLine, Line, ParseChunkSize, TrimEol;
    var after := c.data + (Line("") + tail);
    assert ChunkBytes(c) + tail == Line(c.sizeLine) + after;
    SizeLineBack(c.sizeLine, |c.data|, after);
    EmptyLine();
    ReadChunkedStep(ChunkBytes(c) + tail, c.sizeLine + "\r\n", c.data, Line(""), tail, maxBody, got);
  }

  lemma ChunkListSplit(chunks: seq<Chunk>, end: Bytes, got: Bytes)
    requires chunks != []
    ensures ChunkList(chunks) + end == ChunkBytes(chunks[0]) + (ChunkList(chunks[1..]) + end)
    ensures got + chunks[0].data + Data(chunks[1..]) == got + Data(chunks)
  {
  }

  lemma LastChunkBack(lastLine: string, trailers: seq<string>, rest: Bytes, maxBody: nat, got: Bytes)
    requires Announces(lastLine, 0) && NonBlankLines(trailers)
    ensures ReadChunked(Line(lastLine) + (Lines(trailers) + (Line("") + rest)), maxBody, got) == Done(got, rest)
  {
    SizeLineBack(lastLine, 0, Lines(trailers) + (Line("") + rest));
    TrailersSkipped(trailers, rest);
  }

  predicate Refused(r: Parsed<Bytes>) {
    r == Failed(BodyTooLarge) || r == Failed(SizeOverflow)
  }

  lemma {:induction false} ChunkedFrom(chunks: seq<Chunk>, end: Bytes, rest: Bytes, maxBody: nat, got: Bytes)
    requires ValidChunks(chunks)
    requires forall g :: ReadChunked(end, maxBody, g) == Done(g, rest)
    requires |got| <= maxBody < USIZE_END
    ensures |got| + |Data(chunks)| <= maxBody ==>
            ReadChunked(ChunkList(chunks) + end, maxBody, got) == Done(got + Data(chunks), rest)
    ensures |got| + |Data(chunks)| > maxBody ==> Refused(ReadChunked(ChunkList(chunks) + end, maxBody, got))
  {
    if chunks == [] {
      assert got + [] == got && [] + end == end;
    } else {
      ChunkListSplit(chunks, end, got);
      OneChunkBack(chunks[0], ChunkList(chunks[1..]) + end, maxBody, got);
      if |got| + |chunks[0].data| <= maxBody {
        ChunkedFrom(chunks[1..], end, rest, maxBody, got + chunks[0].data);
      }
    }
  }

  lemma EncodeChunkedSplit(chunks: seq<Chunk>, lastLine: string, trailers: seq<string>, rest: Bytes)
    ensures EncodeChunked(chunks, lastLine, trailers) + rest
            == ChunkList(chunks) + (Line(lastLine) + (Lines(trailers) + (Line("") + rest)))
  {
  }

  /** For every split of a body into non-empty chunks, whatever the size lines, extensions and trailers:
      decoding returns the body and leaves exactly the bytes after the blank line when the body fits,
      and refuses it otherwise. */
  lemma ChunkedInverts(chunks: seq<Chunk>, lastLine: string, trailers: seq<string>, rest: Bytes, maxBody: nat)
    requires ValidChunks(chunks) && Announces(lastLine, 0) && NonBlankLines(trailers)
    requires maxBody < USIZE_END
    ensures ReadChunked(EncodeChunked(chunks, lastLine, trailers) + rest, maxBody, []) == Done(Data(chunks), rest)
            <==> |Data(chunks)| <= maxBody
    ensures Refused(ReadChunked(EncodeChunked(chunks, lastLine, trailers) + rest, maxBody, []))
            <==> |Data(chunks)| > maxBody
  {
    var end := Line(lastLine) + (Lines(trailers) + (Line("") + rest));
    forall g ensures ReadChunked(end, maxBody, g) == Done(g, rest) {
      LastChunkBack(lastLine, trailers, rest, maxBody, g);
    }
    ChunkedFrom(chunks, end, rest, maxBody, []);
    assert [] + Data(chunks) == Data(chunks);
    EncodeChunkedSplit(chunks, lastLine, trailers, rest);
  }

  /** A chunked message reads back with the headers as sent and the decoded body. */
  lemma ChunkedMessageBack(start: string, headers: seq<Header>, chunks: seq<Chunk>, lastLine: string,
      trailers: seq<string>, rest: Bytes, maxBody: nat, closeDelimited: bool)
    requires CleanStart(start) && CleanHeaders(headers) && IsChunked(headers)
    requires ValidChunks(chunks) && Announces(lastLine, 0) && NonBlankLines(trailers)
    requires |Data(chunks)| <= maxBody < USIZE_END
    ensures ReadMessage(ChunkedWire(start, headers, chunks, lastLine, trailers) + rest, maxBody, closeDelimited)
            == Done(Some(HttpMessage(start, headers, Data(chunks))), rest)
  {
    var body := EncodeChunked(chunks, lastLine, trailers);
    ChunkedInverts(chunks, lastLine, trailers, rest, maxBody);
    MessageBack(start, headers, body + rest, maxBody, closeDelimited);
    WireSplit(start, headers, body, rest);
  }

  lemma WireSplit(start: string, headers: seq<Header>, body: Bytes, rest: Bytes)
    ensures Line(start) + (HeaderLines(headers) + (Line("") + body)) + rest
            == Line(start) + (HeaderLines(headers) + (Line("") + (body + rest)))
  {
  }

  function ChunkedWire(start: string, headers: seq<Header>, chunks: seq<Chunk>, lastLine: string,
      trailers: seq<string>): Bytes {
    Line(start) + (HeaderLines(headers) + (Line("") + EncodeChunked(chunks, lastLine, trailers)))
  }

  /** The codec's header comment promises that a chunked body is re-framed on write. It is not: the write
      drops only Content-Length, so the one-chunk body "hello", read and written again, still carries
      Transfer-Encoding, and the next read takes "hello" for a chunk size and fails. */
  lemma ReframedChunkedBodyIsLost(maxBody: nat)
    requires 5 <= maxBody < USIZE_END
    ensures var te := Header("transfer-encoding", "chunked");
            var m := HttpMessage("P", [te], Encode("hello"));
            && ReadMessage(ChunkedWire("P", [te], [Chunk(Print(5, 16), Encode("hello"))], Print(0, 16), []),
                           maxBody, false)
               == Done(Some(m), [])
            && ReadMessage(Render(m), maxBody, false) == Failed(InvalidChunkSize)
  {
    hide ReadMessage, Render, ChunkedWire, Encode, Print;
    var te := Header("transfer-encoding", "chunked");
    KeptTransferEncoding(te);
    HelloIsLost("P", te, maxBody);
  }

  /** The same behind any start line and with any header that announces chunks. */
  lemma HelloIsLost(start: string, te: Header, maxBody: nat)
    requires CleanStart(start) && CleanHeader(te) && ChunkedHeader(te) && 5 <= maxBody < USIZE_END
    ensures var m := HttpMessage(start, [te], Encode("hello"));
            && ReadMessage(ChunkedWire(start, [te], [Chunk(Print(5, 16), Encode("hello"))], Print(0, 16), []),
                           maxBody, false)
               == Done(Some(m), [])
            && ReadMessage(Render(m), maxBody, false) == Failed(InvalidChunkSize)
  {
    hide ReadMessage, Render, ChunkedWire, Encode, Print, ReadChunked, ChunkedHeader, CleanHeader, CleanStart;
    HelloIsRead(start, te, maxBody);
    var m := HttpMessage(start, [te], Encode("hello"));
    SingleKept(te);
    WrittenBack(m, [], maxBody, false);
    HelloIsNoChunkSize(maxBody);
    assert Render(m) + [] == Render(m) && m.body + [] == m.body;
  }

  lemma HelloChunks(chunks: seq<Chunk>, data: Bytes)
    requires chunks == [Chunk(Print(5, 16), data)] && |data| == 5
    ensures ValidChunks(chunks) && Data(chunks) == data && Announces(Print(0, 16), 0)
  {
    CanonicalSizeLine(5, "");
    CanonicalSizeLine(0, "");
    assert Print(5, 16) + "" == Print(5, 16) && Print(0, 16) + "" == Print(0, 16);
    assert chunks[1..] == [];
  }

  lemma HelloIsRead(start: string, te: Header, maxBody: nat)
    requires CleanStart(start) && CleanHeader(te) && ChunkedHeader(te) && 5 <= maxBody < USIZE_END
    ensures ReadMessage(ChunkedWire(start, [te], [Chunk(Print(5, 16), Encode("hello"))], Print(0, 16), []),
                        maxBody, false)
            == Done(Some(HttpMessage(start, [te], Encode("hello"))), [])
  {
    hide *;
    var data := Encode("hello");
    var chunks := [Chunk(Print(5, 16), data)];
    HelloLength();
    HelloChunks(chunks, data);
    SingleKept(te);
    NoLines();
    ChunkedMessageBack(start, [te], chunks, Print(0, 16), [], [], maxBody, false);
    var wire := ChunkedWire(start, [te], chunks, Print(0, 16), []);
    assert wire + [] == wire;
  }

  lemma HelloLength()
    ensures |Encode("hello")| == 5
  {
    HelloBytes();
  }

  lemma NoLines()
    ensures NonBlankLines([])
  {
  }

  lemma SingleKept(h: Header)
    requires CleanHeader(h) && ChunkedHeader(h)
    ensures CleanHeaders([h]) && IsChunked([h]) && KeptHeaders([h]) == [h]
  {
    assert h in [h];
    assert |h.name| == |"transfer-encoding"| != |"content-length"|;
    assert [h][1..] == [];
  }

  lemma KeptTransferEncoding(te: Header)
    requires te == Header("transfer-encoding", "chunked")
    ensures CleanHeaders([te]) && IsChunked([te]) && KeptHeaders([te]) == [te]
  {
    LowerChunked();
    SingleKept(te);
  }

  lemma LowerChunked()
    ensures Contains(ToLower("chunked"), "chunked")
  {
    var l := ToLower("chunked");
    assert l == "chunked";
    assert l[0..7] == l;
    assert OccursAt("chunked", l, 0);
  }

  lemma HelloBytes()
    ensures Encode("hello") == [104, 101, 108, 108, 111]
  {
    assert Encode("") == [];
    assert Encode("o") == EncodeChar('o') + Encode("");
    assert Encode("lo") == EncodeChar('l') + Encode("o") by { assert "lo"[1..] == "o"; }
    assert Encode("llo") == EncodeChar('l') + Encode("lo") by { assert "llo"[1..] == "lo"; }
    assert Encode("ello") == EncodeChar('e') + Encode("llo") by { assert "ello"[1..] == "llo"; }
    assert Encode("hello") == EncodeChar('h') + Encode("ello") by { assert "hello"[1..] == "ello"; }
  }

  lemma HelloIsNoChunkSize(maxBody: nat)
    ensures ReadChunked(Encode("hello"), maxBody, []) == Failed(InvalidChunkSize)
  {
    var b := Encode("hello");
    HelloBytes();
    DecodeEncode("hello");
    LineEndOfWhole(b);
    assert b[..5] == b && b[5..] == [];
    assert ReadLine(b) == Done("hello", []);
    NoChunkSize("hello");
  }

  lemma NotANumber(s: string, radix: nat)
    requires s != "" && DigitValue(s[|s| - 1]) == None
    ensures ParseUsize(s, radix) == None
  {
    var digits := if s[0] == '+' then s[1..] else s;
    if digits != "" {
      assert digits[|digits| - 1] == s[|s| - 1];
    }
  }

  lemma NoChunkSize(s: string)
    requires s != "" && Trimmed(s) && ';' !in s && !IsEol(s[|s| - 1]) && DigitValue(s[|s| - 1]) == None
    ensures ParseChunkSize(TrimEol(s)) == None
  {
    BeforeAll(s, ';');
    TrimIsTrimmed(s);
    NotANumber(s, 16);
  }

  lemma BeforeAll(s: string, c: char)
    requires c !in s
    ensures Before(s, c) == s
  {
  }

  lemma {:induction false} LineEndOfWhole(b: Bytes)
    requires NEWLINE !in b
    ensures LineEnd(b) == |b|
  {
    if b != [] {
      LineEndOfWhole(b[1..]);
    }
  }
}
