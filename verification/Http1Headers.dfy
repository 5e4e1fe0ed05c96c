/** What selects the framing of a body, independent of how a sender spells it: the case of names and values, the
    first length, signs, padding and upper-case digits, bare newlines. */
module Http1Headers {
  import opened Wrappers
  import opened Utf8
  import opened Text
  import opened Replace
  import opened Http1
  import opened Http1RoundTrip
  import opened Http1Chunked
  import opened Http1Cut
  import opened Http1CutAny

  // ----- case -----

  /** The same headers, but for the case of their names. */
  predicate SameUpToCase(headers: seq<Header>, others: seq<Header>) {
    && |headers| == |others|
    && forall i :: 0 <= i < |headers| ==>
         headers[i].value == others[i].value && EqIgnoreAsciiCase(headers[i].name, others[i].name)
  }

  lemma SameNamed(h: Header, other: Header, name: string)
    requires EqIgnoreAsciiCase(h.name, other.name)
    ensures Named(h, name) <==> Named(other, name)
  {
  }

  lemma SameChunked(headers: seq<Header>, others: seq<Header>)
    requires SameUpToCase(headers, others)
    ensures IsChunked(headers) ==> IsChunked(others)
  {
    hide EqIgnoreAsciiCase;
    if IsChunked(headers) {
      var h :| h in headers && ChunkedHeader(h);
      var i :| 0 <= i < |headers| && headers[i] == h;
      SameNamed(h, others[i], "transfer-encoding");
      assert others[i] in others;
    }
  }

  lemma {:induction false} SameLength(headers: seq<Header>, others: seq<Header>)
    requires SameUpToCase(headers, others)
    ensures ContentLength(headers) == ContentLength(others)
  {
    hide EqIgnoreAsciiCase;
    if headers != [] {
      SameNamed(headers[0], others[0], "content-length");
      SameLength(headers[1..], others[1..]);
    }
  }

  /** Framing does not depend on the case of header names: the same bytes give the same body. */
  lemma FramingIgnoresCase(headers: seq<Header>, others: seq<Header>, b: Bytes, maxBody: nat, closeDelimited: bool)
    requires SameUpToCase(headers, others)
    ensures ReadBody(headers, b, maxBody, closeDelimited) == ReadBody(others, b, maxBody, closeDelimited)
  {
    hide EqIgnoreAsciiCase, ReadChunked;
    assert SameUpToCase(others, headers) by {
      SameUpToCaseBack(headers, others);
    }
    SameChunked(headers, others);
    SameChunked(others, headers);
    SameLength(headers, others);
  }

  lemma SameUpToCaseBack(headers: seq<Header>, others: seq<Header>)
    requires SameUpToCase(headers, others)
    ensures SameUpToCase(others, headers)
  {
  }

  lemma SameCase(s: string, t: string, u: string)
    requires EqIgnoreAsciiCase(t, u)
    ensures EqIgnoreAsciiCase(s, t) <==> EqIgnoreAsciiCase(s, u)
  {
  }

  lemma TransferEncodingCase()
    ensures EqIgnoreAsciiCase("Transfer-Encoding", "transfer-encoding")
  {
  }

  lemma ContentLengthCase()
    ensures EqIgnoreAsciiCase("Content-Length", "content-length")
  {
  }

  /** `chunked`, in any case, at offset i. */
  predicate ChunkedAt(value: string, i: nat) {
    i + 7 <= |value| && EqIgnoreAsciiCase(value[i..i + 7], "chunked")
  }

  /** In a value of ASCII characters, `chunked` counts wherever it stands and in any case. */
  lemma ChunkedIff(h: Header)
    requires Ascii(h.value)
    ensures ChunkedHeader(h)
            <==> EqIgnoreAsciiCase(h.name, "Transfer-Encoding") && exists i: nat :: ChunkedAt(h.value, i)
  {
    hide Find, FindFrom, EqIgnoreAsciiCase;
    TransferEncodingCase();
    SameCase(h.name, "Transfer-Encoding", "transfer-encoding");
    var low := ToLower(h.value);
    forall i: nat ensures OccursAt("chunked", low, i) <==> ChunkedAt(h.value, i) {
      if i + 7 <= |h.value| {
        LowerSlice(h.value, i);
      }
    }
  }

  lemma LowerSlice(s: string, i: nat)
    requires Ascii(s) && i + 7 <= |s|
    ensures ToLower(s)[i..i + 7] == "chunked" <==> EqIgnoreAsciiCase(s[i..i + 7], "chunked")
  {
    var part, low := s[i..i + 7], ToLower(s)[i..i + 7];
    assert forall k :: 0 <= k < 7 ==> low[k] == LowerAscii(part[k]);
    assert forall k :: 0 <= k < 7 ==> LowerAscii("chunked"[k]) == "chunked"[k];
    assert low == "chunked" <==> forall k :: 0 <= k < 7 ==> low[k] == "chunked"[k];
  }

  /** The ordinary header, as clients send it. */
  lemma OrdinaryChunked()
    ensures var te := Header("Transfer-Encoding", "chunked"); CleanHeader(te) && ChunkedHeader(te)
  {
    hide Contains, Find;
    LowerChunked();
    TransferEncodingCase();
  }

  /** A message with the ordinary header is read by its chunks, and is lost when it is written and read again. */
  lemma OrdinaryChunkedMessage(maxBody: nat)
    requires 5 <= maxBody < USIZE_END
    ensures var te := Header("Transfer-Encoding", "chunked");
            var m := HttpMessage("POST /v1/chat HTTP/1.1", [te], Encode("hello"));
            && ReadMessage(ChunkedWire(m.startLine, [te], [Chunk(Print(5, 16), Encode("hello"))], Print(0, 16), []),
                           maxBody, false)
               == Done(Some(m), [])
            && ReadMessage(Render(m), maxBody, false) == Failed(InvalidChunkSize)
  {
    hide ReadMessage, Render, ChunkedHeader, CleanHeader, ChunkedWire, Encode, Print;
    OrdinaryChunked();
    StartIsClean();
    HelloIsLost("POST /v1/chat HTTP/1.1", Header("Transfer-Encoding", "chunked"), maxBody);
  }

  lemma StartIsClean()
    ensures CleanStart("POST /v1/chat HTTP/1.1")
  {
  }

  // ----- lengths -----

  /** The first Content-Length decides, and one that does not parse counts as none. */
  lemma {:induction false} FirstLength(front: seq<Header>, h: Header, back: seq<Header>)
    requires EqIgnoreAsciiCase(h.name, "Content-Length")
    requires forall g :: g in front ==> !EqIgnoreAsciiCase(g.name, "Content-Length")
    ensures ContentLength(front + [h] + back) == ParseUsize(h.value, 10)
  {
    hide EqIgnoreAsciiCase, ParseUsize;
    ContentLengthCase();
    SameCase(h.name, "Content-Length", "content-length");
    if front == [] {
      assert front + [h] + back == [h] + back;
    } else {
      SameCase(front[0].name, "Content-Length", "content-length");
      FirstLength(front[1..], h, back);
      assert (front + [h] + back)[1..] == front[1..] + [h] + back;
    }
  }

  /** A number may have one plus sign. */
  lemma PlusSign(s: string, radix: nat)
    ensures s != "" && s[0] != '+' ==> ParseUsize("+" + s, radix) == ParseUsize(s, radix)
    ensures ParseUsize("+", radix) == None && ParseUsize("", radix) == None
    ensures ParseUsize("++" + s, radix) == None
  {
    assert ("+" + s)[1..] == s && "+"[1..] == "";
    assert ("++" + s)[1..] == "+" + s;
    FrontNoDigit('+', s, radix);
  }

  lemma {:induction false} FrontNoDigit(c: char, s: string, radix: nat)
    requires DigitValue(c) == None
    ensures PositionalValue([c] + s, radix) == None
  {
    if s == "" {
      assert [c] + s == [c] && [c][..0] == "";
    } else {
      FrontNoDigit(c, s[..|s| - 1], radix);
      assert ([c] + s)[..|s|] == [c] + s[..|s| - 1];
    }
  }

  /** Digits above nine may be upper or lower case. */
  lemma {:induction false} DigitsIgnoreCase(s: string, t: string, radix: nat)
    requires EqIgnoreAsciiCase(s, t)
    ensures PositionalValue(s, radix) == PositionalValue(t, radix)
  {
    if s != "" {
      var k := |s| - 1;
      assert EqIgnoreAsciiCase(s[..k], t[..k]);
      DigitsIgnoreCase(s[..k], t[..k], radix);
      SameDigit(s[k], t[k]);
    }
  }

  lemma SameDigit(c: char, d: char)
    requires LowerAscii(c) == LowerAscii(d)
    ensures DigitValue(c) == DigitValue(d)
  {
  }

  // ----- chunk sizes -----

  predicate Blank(s: string) {
    forall i :: 0 <= i < |s| ==> IsWhitespace(s[i])
  }

  lemma {:induction false} TrimPadding(pad: string, s: string, pad': string)
    requires Blank(pad) && Blank(pad') && s != "" && Trimmed(s)
    ensures Trim(pad + s + pad') == s
  {
    TrimEndPadding(pad + s, pad');
    TrimStartPadding(pad, s);
  }

  lemma {:induction false} TrimEndPadding(s: string, pad: string)
    requires Blank(pad) && s != "" && !IsWhitespace(s[|s| - 1])
    ensures TrimEnd(s + pad) == s
  {
    hide IsWhitespace;
    if pad == "" {
      assert s + pad == s;
    } else {
      var k := |pad| - 1;
      TrimEndPadding(s, pad[..k]);
      assert (s + pad)[..|s + pad| - 1] == s + pad[..k];
      assert TrimEndBy(s + pad, IsWhitespace) == TrimEndBy(s + pad[..k], IsWhitespace);
    }
  }

  lemma {:induction false} TrimStartPadding(pad: string, s: string)
    requires Blank(pad) && s != "" && !IsWhitespace(s[0])
    ensures TrimStartBy(pad + s, IsWhitespace) == s
  {
    hide IsWhitespace;
    if pad == "" {
      assert pad + s == s;
    } else {
      TrimStartPadding(pad[1..], s);
      assert (pad + s)[1..] == pad[1..] + s;
    }
  }

  /** A chunk size with any padding and extension is the number between them, in either case of its digits. */
  lemma PaddedSize(pad: string, s: string, pad': string, ext: string, n: nat)
    requires Blank(pad) && Blank(pad') && ';' !in pad + s + pad' && (ext == "" || ext[0] == ';')
    requires n < USIZE_END && EqIgnoreAsciiCase(s, Print(n, 16))
    ensures ParseChunkSize(pad + s + pad' + ext) == Some(n)
  {
    hide Print, PositionalValue, IsWhitespace, Before, Trim, Blank, DigitValue;
    var size := pad + s + pad';
    assert Before(size + ext, ';') == size by {
      if ext == "" {
        assert size + ext == size;
        BeforeAll(size, ';');
      } else {
        assert size + ext == size + [';'] + ext[1..];
        BeforeFirst(size, ';', ext[1..]);
      }
    }
    DigitsIgnoreCase(s, Print(n, 16), 16);
    PrintedEnds(n, s);
    TrimPadding(pad, s, pad');
  }

  lemma PrintedEnds(n: nat, s: string)
    requires EqIgnoreAsciiCase(s, Print(n, 16))
    ensures s != "" && Trimmed(s) && s[0] != '+'
  {
    hide Print, IsWhitespace;
    var hex := Print(n, 16);
    PrintedDigits(n, 16, 0);
    PrintedDigits(n, 16, |hex| - 1);
    SameDigit(s[0], hex[0]);
    SameDigit(s[|s| - 1], hex[|hex| - 1]);
    DigitIsPlain(s[0]);
    DigitIsPlain(s[|s| - 1]);
  }

  // ----- bodies without a length, and bare newlines -----

  /** A head of any sender that announces nothing: a request then has no body, and what follows it is left for the next
      message; a response has all that arrives up to the limit. */
  lemma BodyWithoutLength(start: string, lines: seq<string>, arriving: Bytes, maxBody: nat, closeDelimited: bool)
    requires CleanStart(start) && NonBlankLines(lines) && NoFraming(HeadersOf(lines))
    ensures var n := if !closeDelimited then 0 else if |arriving| <= maxBody then |arriving| else maxBody;
            ReadMessage(Line(start) + (Block(lines) + arriving), maxBody, closeDelimited)
            == Done(Some(HttpMessage(start, HeadersOf(lines), arriving[..n])), arriving[n..])
  {
    hide Line, Block, ReadMessage, ReadHeaders, CleanStart, IsChunked, ContentLength;
    StartLineThen(start, Block(lines) + arriving, maxBody, closeDelimited);
    BlockThen(lines, arriving);
    assert arriving[..0] == [] && arriving[0..] == arriving;
  }

  /** A line may end with a bare newline. */
  lemma BareNewline(l: string, tail: Bytes)
    requires '\n' !in l
    ensures Http1.ReadLine(Encode(l + "\n") + tail) == Done(l + "\n", tail)
    ensures TrimEol(l + "\n") == TrimEol(l + "\r\n") && TrimEnd(l + "\n") == TrimEnd(l + "\r\n")
    ensures ReadHeaders(Encode(l + "\n") + tail) == ReadHeaders(Line(l) + tail)
  {
    hide Decode, Encode, Line, TrimEndBy, ParseHeader;
    BareLine(l, tail);
    BareTrims(l);
    ReadLineOf(l, tail);
  }

  lemma BareLine(l: string, tail: Bytes)
    requires '\n' !in l
    ensures Http1.ReadLine(Encode(l + "\n") + tail) == Done(l + "\n", tail)
  {
    hide Decode;
    EncodeConcat(l, "\n");
    assert Encode("\n") == EncodeChar('\n') + Encode("") == [NEWLINE];
    AsciiByteIn(l, NEWLINE);
    LineEndAt(Encode(l), tail);
    var b := Encode(l + "\n") + tail;
    assert b == Encode(l) + [NEWLINE] + tail;
    assert b[..|Encode(l)| + 1] == Encode(l + "\n") && b[|Encode(l)| + 1..] == tail;
    DecodeEncode(l + "\n");
  }

  lemma TrimLast(s: string, c: char, p: char -> bool)
    requires p(c)
    ensures TrimEndBy(s + [c], p) == TrimEndBy(s, p)
  {
    assert (s + [c])[..|s|] == s;
  }

  lemma BareTrims(l: string)
    ensures TrimEol(l + "\n") == TrimEol(l + "\r\n") && TrimEnd(l + "\n") == TrimEnd(l + "\r\n")
  {
    hide TrimEndBy;
    assert l + "\r\n" == (l + "\r") + "\n";
    TrimLast(l, '\n', IsEol);
    TrimLast(l + "\r", '\n', IsEol);
    TrimLast(l, '\r', IsEol);
    TrimLast(l, '\n', IsWhitespace);
    TrimLast(l + "\r", '\n', IsWhitespace);
    TrimLast(l, '\r', IsWhitespace);
  }

  // ----- what a writer keeps -----

  lemma KeptFirst(h: Header, back: seq<Header>)
    ensures KeptHeaders([h] + back)
            == (if EqIgnoreAsciiCase(h.name, "Content-Length") then [] else [h]) + KeptHeaders(back)
  {
    hide EqIgnoreAsciiCase;
    ContentLengthCase();
    SameCase(h.name, "Content-Length", "content-length");
    assert ([h] + back)[1..] == back;
  }

  /** A writer drops the lengths, in any case, and keeps all other headers in their order. */
  lemma KeptInOrder(front: seq<Header>, h: Header, back: seq<Header>)
    ensures KeptHeaders(front + ([h] + back))
            == KeptHeaders(front)
               + ((if EqIgnoreAsciiCase(h.name, "Content-Length") then [] else [h]) + KeptHeaders(back))
    ensures KeptHeaders([]) == []
  {
    KeptFirst(h, back);
    KeptAppend(front, [h] + back);
    NothingKept();
  }

  lemma NothingKept()
    ensures KeptHeaders([]) == []
  {
  }

  lemma {:induction false} KeptAppend(front: seq<Header>, back: seq<Header>)
    ensures KeptHeaders(front + back) == KeptHeaders(front) + KeptHeaders(back)
  {
    hide KeptHeaders;
    NothingKept();
    if front == [] {
      assert front + back == back && [] + KeptHeaders(back) == KeptHeaders(back);
    } else {
      var h, more := front[0], front[1..];
      KeptAppend(more, back);
      KeptFirst(h, more);
      KeptFirst(h, more + back);
      assert front == [h] + more && front + back == [h] + (more + back);
    }
  }
}
