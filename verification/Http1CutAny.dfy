/** A connection that closes inside a message of any sender: header lines of any form, a length of any form
    anywhere among them, and a body within the limit or over it. */
module Http1CutAny {
  import opened Wrappers
  import opened Utf8
  import opened Text
  import opened Replace
  import opened Http1
  import opened Http1RoundTrip
  import opened Http1Chunked
  import opened Http1Cut

  /** The headers that lines announce. */
  function HeadersOf(lines: seq<string>): seq<Header> {
    if lines == [] then [] else ParseHeader(TrimEol(lines[0] + "\r\n")) + HeadersOf(lines[1..])
  }

  /** A line as far as its first c bytes show it. */
  function VisibleLine(line: string, c: nat): string
    requires c <= |Line(line)|
  {
    var t := Decode(Line(line)[..c]);
    if t.Some? then TrimEol(t.value) else ""
  }

  /** The headers visible in the first c bytes of a head: those of the complete lines, and what there is to see of
      the line behind them. */
  function VisibleHeaders(lines: seq<string>, c: nat): seq<Header> {
    if lines == [] then []
    else if c < |Line(lines[0])| then ParseHeader(VisibleLine(lines[0], c))
    else ParseHeader(TrimEol(lines[0] + "\r\n")) + VisibleHeaders(lines[1..], c - |Line(lines[0])|)
  }

  /** The same behind a start line. */
  function Seen(start: string, lines: seq<string>, c: nat): seq<Header> {
    if c < |Line(start)| then [] else VisibleHeaders(lines, c - |Line(start)|)
  }

  lemma {:induction false} CutBlock(lines: seq<string>, c: nat)
    requires NonBlankLines(lines) && c <= |Block(lines)|
    ensures var x := Block(lines)[..c];
            ReadHeaders(x) == if Decode(x).Some? then Done(VisibleHeaders(lines, c), []) else Failed(InvalidUtf8)
  {
    hide Decode, Encode, TrimEol, Http1.ReadLine, Line, ParseHeader, ReadHeaders;
    var x := Block(lines)[..c];
    if lines == [] {
      assert Block(lines) == Line("");
      CutBlank(c);
    } else {
      var l := lines[0];
      assert Block(lines) == Line(l) + Block(lines[1..]);
      if c < |Line(l)| {
        assert x == Line(l)[..c];
        CutLastLine(l, c);
      } else {
        var x' := Block(lines[1..])[..c - |Line(l)|];
        assert x == Line(l) + x';
        CutBlock(lines[1..], c - |Line(l)|);
        LineThen(l, x');
        DecodeBehind(l + "\r\n", x');
        LineIsEncoded(l);
      }
    }
  }

  lemma LineIsEncoded(l: string)
    ensures Line(l) == Encode(l + "\r\n")
  {
  }

  lemma CutBlank(c: nat)
    requires c <= |Line("")|
    ensures Decode(Line("")[..c]).Some? && ReadHeaders(Line("")[..c]) == Done([], [])
  {
    hide ReadHeaders, Encode, Decode;
    EmptyLine();
    CutEnd(c);
    if c < 2 {
      CutBlankLine(c);
    } else {
      assert Line("")[..c] == Line("") + [];
      BlankThen([]);
    }
  }

  lemma BlankThen(after: Bytes)
    ensures ReadHeaders(Line("") + after) == Done([], after)
  {
    hide Line;
    ReadLineOf("", after);
    TrimEolOfLine("");
  }

  lemma LineThen(l: string, tail: Bytes)
    requires '\n' !in l && TrimEol(l + "\r\n") != ""
    ensures ReadHeaders(Line(l) + tail) == PrependHeaders(ParseHeader(TrimEol(l + "\r\n")), ReadHeaders(tail))
  {
    hide Line, TrimEol, ParseHeader;
    ReadLineOf(l, tail);
  }

  lemma {:induction false} BlockThen(lines: seq<string>, after: Bytes)
    requires NonBlankLines(lines)
    ensures ReadHeaders(Block(lines) + after) == Done(HeadersOf(lines), after)
  {
    hide Line, TrimEol, ParseHeader, ReadHeaders;
    if lines == [] {
      assert Block(lines) + after == Line("") + after;
      BlankThen(after);
    } else {
      BlockThen(lines[1..], after);
      assert Block(lines) + after == Line(lines[0]) + (Block(lines[1..]) + after);
      LineThen(lines[0], Block(lines[1..]) + after);
    }
  }

  /** The headers ask for at least one byte of body. */
  predicate AskForMore(headers: seq<Header>, maxBody: nat) {
    IsChunked(headers) || (ContentLength(headers).Some? && Min(ContentLength(headers).value, maxBody) > 0)
  }

  lemma NoBodyArrives(headers: seq<Header>, maxBody: nat, closeDelimited: bool)
    ensures var r := ReadBody(headers, [], maxBody, closeDelimited);
            if AskForMore(headers, maxBody) then r.Failed? else r == Done([], [])
  {
    assert ReadLine([]) == Done("", []);
    assert Before("", ';') == "" && ParseChunkSize(TrimEol("")) == None;
  }

  /** A head of any sender, cut anywhere: an error exactly when the cut splits a character or leaves nothing but white
      space, or when the headers visible ask for a body. Otherwise they are the message. */
  lemma CutHeadIff(start: string, lines: seq<string>, c: nat, maxBody: nat, closeDelimited: bool)
    requires CleanStart(start) && NonBlankLines(lines) && c <= |Line(start) + Block(lines)|
    ensures var x := (Line(start) + Block(lines))[..c];
            var seen := Seen(start, lines, c);
            var r := ReadMessage(x, maxBody, closeDelimited);
            && (r.Failed? <==> Unreadable(x) || AskForMore(seen, maxBody))
            && EmptyIfRead(r)
            && (r.Done? && c >= |Line(start)| ==> r == Done(Some(HttpMessage(start, seen, [])), []))
  {
    hide Line, Block, Decode, ReadMessage, ReadHeaders, ReadBody, AskForMore, VisibleHeaders, CleanStart, Unreadable;
    var x := (Line(start) + Block(lines))[..c];
    if c < |Line(start)| {
      assert x == Line(start)[..c];
      CutStartLine(start, c, maxBody, closeDelimited);
      NothingAsked(maxBody);
    } else {
      var d := c - |Line(start)|;
      assert x == Line(start) + Block(lines)[..d];
      CutBlock(lines, d);
      StartLineThen(start, Block(lines)[..d], maxBody, closeDelimited);
      StartIsReadable(start, Block(lines)[..d]);
      NoBodyArrives(VisibleHeaders(lines, d), maxBody, closeDelimited);
    }
  }

  lemma NothingAsked(maxBody: nat)
    ensures !AskForMore([], maxBody)
  {
  }

  /** The body of any sender that announces its length: of what arrives, the announced bytes are read, and not more
      than the limit. It is an error exactly when fewer arrive; so a body over the limit can be cut at the limit or
      behind it, and one that is not cut leaves its tail unread. */
  lemma LengthBodyIff(start: string, lines: seq<string>, arriving: Bytes, maxBody: nat, closeDelimited: bool)
    requires CleanStart(start) && NonBlankLines(lines)
    requires !IsChunked(HeadersOf(lines)) && ContentLength(HeadersOf(lines)).Some?
    ensures var headers := HeadersOf(lines);
            var n := Min(ContentLength(headers).value, maxBody);
            ReadMessage(Line(start) + (Block(lines) + arriving), maxBody, closeDelimited)
            == if |arriving| < n then Failed(UnexpectedEof)
               else Done(Some(HttpMessage(start, headers, arriving[..n])), arriving[n..])
  {
    hide Line, Block, ReadMessage, ReadHeaders, CleanStart;
    StartLineThen(start, Block(lines) + arriving, maxBody, closeDelimited);
    BlockThen(lines, arriving);
  }

  // ----- headers that are written in the common form -----

  function LinesOf(headers: seq<Header>): seq<string> {
    if headers == [] then [] else [headers[0].name + ": " + headers[0].value] + LinesOf(headers[1..])
  }

  /** Every list of clean headers is a head of this kind. */
  lemma {:induction false} CommonForm(headers: seq<Header>)
    requires CleanHeaders(headers)
    ensures NonBlankLines(LinesOf(headers)) && HeadersOf(LinesOf(headers)) == headers
    ensures Block(LinesOf(headers)) == HeaderLines(headers) + Line("")
  {
    hide Line, TrimEol, ParseHeader, CleanHeader;
    if headers != [] {
      CommonForm(headers[1..]);
      CommonLine(headers[0]);
      var l := headers[0].name + ": " + headers[0].value;
      assert LinesOf(headers) == [l] + LinesOf(headers[1..]);
      assert LinesOf(headers)[0] == l && LinesOf(headers)[1..] == LinesOf(headers[1..]);
      assert HeadersOf(LinesOf(headers)) == [headers[0]] + headers[1..];
      assert Block(LinesOf(headers)) == Line(l) + Block(LinesOf(headers[1..]));
    }
  }

  lemma CommonLine(h: Header)
    requires CleanHeader(h)
    ensures var l := h.name + ": " + h.value; '\n' !in l && TrimEol(l + "\r\n") == l && ParseHeader(l) == [h]
  {
    var l := h.name + ": " + h.value;
    assert l[|l| - 1] == if h.value == "" then ' ' else h.value[|h.value| - 1];
    TrimEolOfLine(l);
    ParseHeaderLine(h);
  }

  // ----- leading zeros -----

  const ZERO_LENGTH := "Content-Length: 0"

  lemma ZeroVisible(more: string)
    ensures |Line(ZERO_LENGTH + more)| > 17
    ensures VisibleLine(ZERO_LENGTH + more, 17) == ZERO_LENGTH
    ensures Decode(Line(ZERO_LENGTH + more)[..17]).Some?
  {
    hide Encode, Decode;
    LineIsTextAndEnd(ZERO_LENGTH + more);
    EncodeConcat(ZERO_LENGTH, more);
    AsciiCut(ZERO_LENGTH, 17);
    assert ZERO_LENGTH[..17] == ZERO_LENGTH;
    assert Line(ZERO_LENGTH + more)[..17] == Encode(ZERO_LENGTH)[..17];
  }

  lemma ZeroHeader()
    ensures ParseHeader(ZERO_LENGTH) == [Header(LENGTH_NAME, "0")]
    ensures Named(Header(LENGTH_NAME, "0"), "content-length") && !ChunkedHeader(Header(LENGTH_NAME, "0"))
    ensures ParseUsize("0", 10) == Some(0)
  {
    hide IsWhitespace, ParseHeader, Trim, Find, ParseUsize;
    var h := Header(LENGTH_NAME, "0");
    assert ZERO_LENGTH == h.name + ": " + h.value;
    TrimmedNameParts();
    DigitIsPlain('0');
    ParseHeaderLine(h);
    ZeroParses();
    assert |LENGTH_NAME| != |"transfer-encoding"|;
  }

  lemma ZeroParses()
    ensures ParseUsize("0", 10) == Some(0)
  {
    assert "0"[..0] == "" && PositionalValue("", 10) == Some(0) && PositionalValue("0", 10) == Some(0);
  }

  lemma {:induction false} VisibleBehind(front: seq<string>, more: seq<string>, c: nat)
    ensures VisibleHeaders(front + more, |Lines(front)| + c) == HeadersOf(front) + VisibleHeaders(more, c)
  {
    hide Line, TrimEol, ParseHeader, VisibleLine;
    if front == [] {
      assert [] + more == more;
      assert HeadersOf(front) + VisibleHeaders(more, c) == VisibleHeaders(more, c);
    } else {
      VisibleBehind(front[1..], more, c);
      assert (front + more)[1..] == front[1..] + more;
    }
  }

  lemma {:induction false} NotAskedYet(front: seq<Header>, h: Header, maxBody: nat)
    requires NoFraming(front) && Named(h, "content-length") && !ChunkedHeader(h) && ParseUsize(h.value, 10) == Some(0)
    ensures !AskForMore(front + [h], maxBody)
  {
    hide ChunkedHeader, EqIgnoreAsciiCase, ParseUsize;
    if front == [] {
      assert front + [h] == [h];
    } else {
      assert forall k :: k in front + [h] ==> k in front || k == h;
      assert (front + [h])[1..] == front[1..] + [h];
      if !Named(front[0], "content-length") {
        assert forall k :: k in front[1..] ==> k in front;
        NotAskedYet(front[1..], h, maxBody);
      }
    }
  }

  /** Behind the first zero of a length written with leading zeros, a cut is not noticed, whatever the length: the
      message is read as complete, with no body. */
  lemma LeadingZeroLength(start: string, front: seq<string>, more: string, back: seq<string>, maxBody: nat,
      closeDelimited: bool)
    requires CleanStart(start) && NonBlankLines(front + ([ZERO_LENGTH + more] + back)) && NoFraming(HeadersOf(front))
    ensures var lines := front + ([ZERO_LENGTH + more] + back);
            var c := |Line(start)| + (|Lines(front)| + 17);
            && c <= |Line(start) + Block(lines)|
            && ReadMessage((Line(start) + Block(lines))[..c], maxBody, closeDelimited)
               == Done(Some(HttpMessage(start, HeadersOf(front) + [Header(LENGTH_NAME, "0")], [])), [])
  {
    hide *;
    var own := [ZERO_LENGTH + more] + back;
    var lines := front + own;
    var d := |Lines(front)| + 17;
    ZeroVisible(more);
    ZeroHeader();
    VisibleBehind(front, own, 17);
    OwnVisible(more, back);
    NotAskedYet(HeadersOf(front), Header(LENGTH_NAME, "0"), maxBody);
    ZeroDecodes(start, front, more, back);
    QuietCut(start, lines, d, maxBody, closeDelimited);
  }

  lemma QuietCut(start: string, lines: seq<string>, d: nat, maxBody: nat, closeDelimited: bool)
    requires CleanStart(start) && NonBlankLines(lines) && |Line(start)| + d <= |Line(start) + Block(lines)|
    requires !Unreadable((Line(start) + Block(lines))[..|Line(start)| + d])
    requires !AskForMore(VisibleHeaders(lines, d), maxBody)
    ensures ReadMessage((Line(start) + Block(lines))[..|Line(start)| + d], maxBody, closeDelimited)
            == Done(Some(HttpMessage(start, VisibleHeaders(lines, d), [])), [])
  {
    hide Line, Block, ReadMessage, AskForMore, VisibleHeaders, CleanStart, Unreadable, NonBlankLines;
    CutHeadIff(start, lines, |Line(start)| + d, maxBody, closeDelimited);
  }

  lemma OwnVisible(more: string, back: seq<string>)
    ensures VisibleHeaders([ZERO_LENGTH + more] + back, 17) == [Header(LENGTH_NAME, "0")]
  {
    hide Line, VisibleLine, ParseHeader;
    ZeroVisible(more);
    ZeroHeader();
  }

  lemma {:induction false} LinesThen(front: seq<string>, more: seq<string>)
    ensures Lines(front + more) == Lines(front) + Lines(more)
  {
    hide Line;
    if front == [] {
      assert [] + more == more;
    } else {
      LinesThen(front[1..], more);
      assert (front + more)[1..] == front[1..] + more;
    }
  }

  lemma {:induction false} LinesDecode(front: seq<string>, b: Bytes)
    requires Decode(b).Some?
    ensures Decode(Lines(front) + b).Some?
  {
    hide Line, Decode;
    if front == [] {
      assert Lines(front) + b == b;
    } else {
      LinesDecode(front[1..], b);
      LineIsEncoded(front[0]);
      DecodeBehind(front[0] + "\r\n", Lines(front[1..]) + b);
      assert Lines(front) + b == Line(front[0]) + (Lines(front[1..]) + b);
    }
  }

  lemma ZeroDecodes(start: string, front: seq<string>, more: string, back: seq<string>)
    requires CleanStart(start)
    ensures var all := Line(start) + Block(front + ([ZERO_LENGTH + more] + back));
            var c := |Line(start)| + (|Lines(front)| + 17);
            c <= |all| && !Unreadable(all[..c])
  {
    hide Line, Decode, CleanStart, Unreadable;
    var own := [ZERO_LENGTH + more] + back;
    ZeroVisible(more);
    var visible := Line(ZERO_LENGTH + more)[..17];
    LinesThen(front, own);
    LinesDecode(front, visible);
    var all := Line(start) + Block(front + own);
    assert Lines(own) == Line(ZERO_LENGTH + more) + Lines(back);
    assert all[..|Line(start)| + (|Lines(front)| + 17)] == Line(start) + (Lines(front) + visible);
    StartIsReadable(start, Lines(front) + visible);
  }
}
