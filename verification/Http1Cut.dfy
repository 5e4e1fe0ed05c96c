/** What the reader makes of a connection that closes inside a message, for each of the three framings: which
    cuts are errors, and what the others are read as. */
module Http1Cut {
  import opened Wrappers
  import opened Utf8
  import opened Text
  import opened Replace
  import opened Http1
  import opened Http1RoundTrip
  import opened Http1Chunked

  // ----- cut text -----

  function Behind(s: string, t: Option<string>): Option<string> {
    if t.Some? then Some(s + t.value) else None
  }

  lemma DecodeStep(c: char, tail: Bytes)
    ensures Decode(EncodeChar(c) + tail) == Behind([c], Decode(tail))
  {
    hide DecodeChar, EncodeChar;
    var b := EncodeChar(c) + tail;
    DecodeCharInverts(c, tail);
    assert b[|EncodeChar(c)|..] == tail;
  }

  lemma BehindTwice(s: string, t: string, u: Option<string>)
    ensures Behind(s, Behind(t, u)) == Behind(s + t, u)
    ensures Behind("", u) == u
  {
    if u.Some? {
      assert s + (t + u.value) == s + t + u.value;
      assert "" + u.value == u.value;
    }
  }

  lemma {:induction false} DecodeBehind(s: string, b: Bytes)
    ensures Decode(Encode(s) + b) == Behind(s, Decode(b))
  {
    hide Decode, EncodeChar, Behind;
    BehindTwice("", "", Decode(b));
    if s == "" {
      assert Encode(s) + b == b;
    } else {
      assert Encode(s) + b == EncodeChar(s[0]) + (Encode(s[1..]) + b);
      DecodeStep(s[0], Encode(s[1..]) + b);
      DecodeBehind(s[1..], b);
      BehindTwice([s[0]], s[1..], Decode(b));
      assert [s[0]] + s[1..] == s;
    }
  }

  lemma {:induction false} EncodingPrefix(t: string, s: string)
    requires Encode(t) <= Encode(s)
    ensures t <= s
  {
    hide DecodeChar, EncodeChar;
    if t != "" {
      var more := Encode(s)[|Encode(t)|..];
      assert Encode(s) == EncodeChar(t[0]) + (Encode(t[1..]) + more);
      DecodeCharInverts(t[0], Encode(t[1..]) + more);
      assert s != "";
      DecodeCharInverts(s[0], Encode(s[1..]));
      assert s[0] == t[0];
      assert Encode(s[1..]) == Encode(s)[|EncodeChar(t[0])|..] == Encode(t[1..]) + more;
      EncodingPrefix(t[1..], s[1..]);
    }
  }

  /** A cut text that still decodes is a prefix of the text. */
  lemma DecodedPrefix(s: string, c: nat)
    requires c <= |Encode(s)| && Decode(Encode(s)[..c]).Some?
    ensures var t := Decode(Encode(s)[..c]).value; t <= s && Encode(t) == Encode(s)[..c] && |t| <= c
  {
    hide Encode, Decode;
    EncodeDecode(Encode(s)[..c]);
    var t := Decode(Encode(s)[..c]).value;
    EncodingPrefix(t, s);
    OffsetGapOfAll(t);
  }

  lemma {:induction false} OffsetGapOfAll(s: string)
    ensures |s| <= |Encode(s)|
  {
    if s != "" {
      OffsetGapOfAll(s[1..]);
    }
  }

  lemma {:induction false} AsciiCut(s: string, c: nat)
    requires Ascii(s)
    ensures |Encode(s)| == |s|
    ensures c <= |s| ==> Encode(s)[..c] == Encode(s[..c]) && Decode(Encode(s)[..c]) == Some(s[..c])
  {
    if s != "" && c > 0 {
      AsciiCut(s[1..], c - 1);
      if c <= |s| {
        assert s[..c][1..] == s[1..][..c - 1];
        assert Encode(s)[..c] == [s[0] as int] + Encode(s[1..])[..c - 1];
      }
    } else if s != "" {
      AsciiCut(s[1..], 0);
    }
    if c <= |s| {
      DecodeEncode(s[..c]);
    }
  }

  /** A line cut before its newline: the rest of the input, unless the cut splits a character. */
  lemma CutLine(l: string, c: nat)
    requires '\n' !in l && c < |Line(l)|
    ensures var b := Line(l)[..c];
            && ReadLine(b) == (if Decode(b).Some? then Done(Decode(b).value, []) else Failed(InvalidUtf8))
            && (Decode(b).Some? ==> Decode(b).value <= l + "\r" && |Decode(b).value| <= c
                                    && (Decode(b).value == "" <==> c == 0))
  {
    hide Decode, Encode;
    var b := Line(l)[..c];
    CutLineBytes(l, c);
    LineEndOfWhole(b);
    assert b[..|b|] == b && b[|b|..] == [];
    if Decode(b).Some? {
      DecodedPrefix(l + "\r", c);
      EmptyEncoding(Decode(b).value);
    }
  }

  lemma EmptyEncoding(s: string)
    ensures Encode(s) == [] <==> s == ""
  {
    if s != "" {
      EncodedNotEmpty(s);
    }
  }

  lemma CutLineBytes(l: string, c: nat)
    requires '\n' !in l && c < |Line(l)|
    ensures c <= |Encode(l + "\r")| && Line(l)[..c] == Encode(l + "\r")[..c]
    ensures NEWLINE !in Line(l)[..c]
  {
    hide Decode;
    assert l + "\r\n" == (l + "\r") + "\n";
    EncodeConcat(l + "\r", "\n");
    assert Encode("\n") == EncodeChar('\n') + Encode("") == [NEWLINE];
    AsciiByteIn(l + "\r", NEWLINE);
    assert forall x :: x in Encode(l + "\r")[..c] ==> x in Encode(l + "\r");
  }

  // ----- a cut head -----

  /** The cut text breaks off inside a character, or is nothing but white space. */
  predicate Unreadable(b: Bytes) {
    Decode(b) == None || (Decode(b).value != "" && TrimEnd(Decode(b).value) == "")
  }

  /** Headers that announce no body. */
  predicate NoFraming(headers: seq<Header>) {
    !IsChunked(headers) && ContentLength(headers) == None
  }

  lemma NothingLeft(maxBody: nat, closeDelimited: bool)
    ensures ReadLine([]) == Done("", []) && ReadHeaders([]) == Done([], [])
    ensures NoFraming([])
    ensures forall headers :: NoFraming(headers) ==> ReadBody(headers, [], maxBody, closeDelimited) == Done([], [])
  {
    assert ReadLine([]) == Done("", []);
  }

  lemma CutStartLine(start: string, c: nat, maxBody: nat, closeDelimited: bool)
    requires CleanStart(start) && c < |Line(start)|
    ensures var r := ReadMessage(Line(start)[..c], maxBody, closeDelimited);
            && (r.Failed? <==> Unreadable(Line(start)[..c]))
            && (r.Done? ==> r.rest == [] && (r.value == None || r.value.value.body == []))
  {
    hide Decode, ReadBody;
    CutLine(start, c);
    NothingLeft(maxBody, closeDelimited);
  }

  lemma Slices(s: string, i: nat, j: nat, pattern: string)
    requires i <= j <= |s| && Contains(ToLower(s[i..j]), pattern)
    ensures Contains(ToLower(s), pattern)
  {
    assert ToLower(s[i..j]) == ToLower(s)[i..j];
    OccursInPart(pattern, ToLower(s), i, j);
  }

  lemma {:induction false} TrimStartIsSuffix(s: string) returns (i: nat)
    ensures i <= |s| && TrimStartBy(s, IsWhitespace) == s[i..]
  {
    i := 0;
    if s != "" && IsWhitespace(s[0]) {
      i := TrimStartIsSuffix(s[1..]);
      i := i + 1;
    }
  }

  /** A value cut short does not come to announce chunks. */
  lemma CutValue(value: string, q: nat)
    requires q <= |value| + 1
    requires Contains(ToLower(Trim((" " + value)[..q])), "chunked")
    ensures Contains(ToLower(value), "chunked")
  {
    hide Find, ToLower, Contains;
    var padded := " " + value;
    var e := TrimEnd(padded[..q]);
    var i := TrimStartIsSuffix(e);
    assert Trim(padded[..q]) == padded[i..|e|];
    Slices(padded, i, |e|, "chunked");
    WithoutPadding(value);
  }

  lemma WithoutPadding(value: string)
    requires Contains(ToLower(" " + value), "chunked")
    ensures Contains(ToLower(value), "chunked")
  {
    var low := ToLower(" " + value);
    var i: nat :| OccursAt("chunked", low, i);
    assert low[0] == ' ' && low[i] == low[i..i + 7][0] == 'c';
    assert low[1..] == ToLower(value);
    assert low[i..i + 7] == low[1..][i - 1..i + 6];
    assert OccursAt("chunked", ToLower(value), i - 1);
  }

  lemma PaddedValue(h: Header, t: string)
    requires |h.name| < |t| && t <= h.name + ": " + h.value
    ensures t[|h.name| + 1..] == (" " + h.value)[..|t| - |h.name| - 1]
  {
    var l := h.name + ": " + h.value;
    assert l[|h.name| + 1..] == " " + h.value;
    assert t == l[..|t|];
  }

  /** A header line cut short announces nothing its header does not announce. */
  lemma CutHeaderLine(h: Header, line: string)
    requires CleanHeader(h) && line <= h.name + ": " + h.value + "\r"
    requires !Named(h, "content-length") && !ChunkedHeader(h)
    ensures NoFraming(ParseHeader(TrimEol(line)))
  {
    hide TrimEndBy, TrimStartBy, Find, TrimEol, Trim, ToLower, EqIgnoreAsciiCase, IsChunked, ContentLength, Contains;
    var t := TrimEol(line);
    TrimmedInside(h.name + ": " + h.value, line);
    if ':' in t {
      CutName(h, t);
      PaddedValue(h, t);
      TrimIsTrimmed(h.name);
      var h' := Header(h.name, Trim(t[|h.name| + 1..]));
      assert ParseHeader(t) == [h'];
      if ChunkedHeader(h') {
        CutValue(h.value, |t| - |h.name| - 1);
      }
      SameName(h, h');
    } else {
      NothingLeft(0, false);
    }
  }

  lemma SameName(h: Header, h': Header)
    requires h'.name == h.name && !Named(h, "content-length") && !ChunkedHeader(h')
    ensures NoFraming([h'])
  {
    hide ChunkedHeader, EqIgnoreAsciiCase;
    assert [h'][1..] == [] && ContentLength([]) == None;
    assert forall k :: k in [h'] ==> k == h';
  }

  lemma TrimmedInside(l: string, line: string)
    requires line <= l + "\r"
    ensures TrimEol(line) <= l
  {
    var t := TrimEol(line);
    if |t| > |l| {
      assert false;
    }
  }

  lemma CutName(h: Header, t: string)
    requires ':' !in h.name && t <= h.name + ": " + h.value && ':' in t
    ensures |t| > |h.name| && Before(t, ':') == h.name
  {
    hide Before;
    var n, l := h.name, h.name + ": " + h.value;
    var i :| 0 <= i < |t| && t[i] == ':';
    assert l[i] == ':' && |n| <= i;
    assert t[|n|] == l[|n|] == ':';
    assert t[..|n|] == n;
    assert t == t[..|n|] + [t[|n|]] + t[|n| + 1..];
    BeforeFirst(n, ':', t[|n| + 1..]);
  }

  const LENGTH_NAME := "Content-Length"

  /** Nothing of the length's own line but its name is visible: no length is announced. */
  lemma CutLengthName(t: string)
    requires t <= LENGTH_NAME + ": "
    ensures NoFraming(ParseHeader(TrimEol(t)))
  {
    hide IsWhitespace, Find, TrimEol, Trim, Before, NoFraming;
    var h := Header(LENGTH_NAME, "");
    NoEol(t);
    if ':' in t {
      CutName(h, t);
      PaddedValue(h, t);
      NoValue(t[|h.name| + 1..]);
      TrimmedName();
      assert ParseHeader(t) == [h];
      NoLength(h);
    } else {
      NothingLeft(0, false);
    }
  }

  lemma TrimmedName()
    ensures Trim(LENGTH_NAME) == LENGTH_NAME
  {
    TrimIsTrimmed(LENGTH_NAME);
  }

  lemma NoEol(t: string)
    requires t <= LENGTH_NAME + ": "
    ensures TrimEol(t) == t
  {
    assert t == "" || !IsEol(t[|t| - 1]);
  }

  lemma NoLength(h: Header)
    requires h == Header(LENGTH_NAME, "")
    ensures NoFraming([h])
  {
    assert [h][1..] == [] && ParseUsize("", 10) == None;
    assert forall k :: k in [h] ==> k == h;
    assert |LENGTH_NAME| != |"transfer-encoding"|;
  }

  lemma NoValue(s: string)
    requires s <= " "
    ensures Trim(s) == ""
  {
    if s != "" {
      assert s == " " && s[..0] == "";
      assert TrimEndBy(s, IsWhitespace) == TrimEndBy(s[..0], IsWhitespace) == "";
    }
  }

  lemma CutLastLine(l: string, c: nat)
    requires '\n' !in l && c < |Line(l)|
    ensures var x := Line(l)[..c];
            ReadHeaders(x) == if Decode(x).Some? then Done(ParseHeader(TrimEol(Decode(x).value)), [])
                              else Failed(InvalidUtf8)
  {
    hide Decode, Line, TrimEol, Before;
    CutLine(l, c);
    NothingLeft(0, false);
    var x := Line(l)[..c];
    if Decode(x).Some? {
      var h := ParseHeader(TrimEol(Decode(x).value));
      assert h + [] == h;
    }
  }

  predicate NoBodyHeaders(headers: seq<Header>) {
    forall h :: h in headers ==> !Named(h, "content-length") && !ChunkedHeader(h)
  }

  lemma JoinNoFraming(h: Header, more: seq<Header>)
    requires NoFraming(more) && !Named(h, "content-length") && !ChunkedHeader(h)
    ensures NoFraming([h] + more)
  {
    hide ChunkedHeader, EqIgnoreAsciiCase;
    assert ([h] + more)[1..] == more;
    assert forall k :: k in [h] + more ==> k == h || k in more;
  }

  function BeforeLengthValue(headers: seq<Header>): Bytes {
    HeaderLines(headers) + Encode(LENGTH_NAME + ": ")
  }

  /** As long as no digit of the length is visible, a cut head announces no body, and it is refused exactly when
      the cut splits a character. */
  lemma {:induction false} CutHeaders(headers: seq<Header>, c: nat)
    requires CleanHeaders(headers) && NoBodyHeaders(headers) && c <= |BeforeLengthValue(headers)|
    ensures var x := BeforeLengthValue(headers)[..c];
            && (ReadHeaders(x).Failed? <==> Decode(x) == None)
            && (ReadHeaders(x).Done? ==> ReadHeaders(x).rest == [] && NoFraming(ReadHeaders(x).value))
  {
    hide Decode, ReadHeaders, NoFraming, CleanHeader, ChunkedHeader, Encode;
    var x := BeforeLengthValue(headers)[..c];
    if headers == [] {
      CutOwnLine(c);
      assert BeforeLengthValue(headers) == Encode(LENGTH_NAME + ": ");
    } else {
      var h := headers[0];
      var l := h.name + ": " + h.value;
      HeaderLinesSplit(headers, Encode(LENGTH_NAME + ": "));
      assert BeforeLengthValue(headers) == Line(l) + BeforeLengthValue(headers[1..]);
      if c < |Line(l)| {
        assert x == Line(l)[..c];
        CutHeaderOf(h, c);
      } else {
        var x' := BeforeLengthValue(headers[1..])[..c - |Line(l)|];
        assert x == Line(l) + x';
        CutHeaders(headers[1..], c - |Line(l)|);
        HeaderLineThen(h, x');
        DecodeBehind(l + "\r\n", x');
        if ReadHeaders(x').Done? {
          JoinNoFraming(h, ReadHeaders(x').value);
        }
      }
    }
  }

  lemma CutOwnLine(c: nat)
    requires c <= |Encode(LENGTH_NAME + ": ")|
    ensures var x := Encode(LENGTH_NAME + ": ")[..c];
            && (ReadHeaders(x).Failed? <==> Decode(x) == None)
            && (ReadHeaders(x).Done? ==> ReadHeaders(x).rest == [] && NoFraming(ReadHeaders(x).value))
  {
    hide Decode, Encode, ReadHeaders, NoFraming;
    var l := LENGTH_NAME + ": ";
    AsciiCut(l, c);
    LineIsTextAndEnd(l);
    assert Line(l)[..c] == Encode(l)[..c];
    CutLastLine(l, c);
    CutLengthName(l[..c]);
  }

  lemma CutHeaderOf(h: Header, c: nat)
    requires CleanHeader(h) && !Named(h, "content-length") && !ChunkedHeader(h)
    requires c < |Line(h.name + ": " + h.value)|
    ensures var x := Line(h.name + ": " + h.value)[..c];
            && (ReadHeaders(x).Failed? <==> Decode(x) == None)
            && (ReadHeaders(x).Done? ==> ReadHeaders(x).rest == [] && NoFraming(ReadHeaders(x).value))
  {
    hide Decode, Encode, ReadHeaders, NoFraming, ChunkedHeader, Line;
    var l := h.name + ": " + h.value;
    CutLastLine(l, c);
    CutLine(l, c);
    if Decode(Line(l)[..c]).Some? {
      CutHeaderLine(h, Decode(Line(l)[..c]).value);
    }
  }

  // ----- a cut length -----

  /** The visible front of a printed number parses to a number that is zero only for zero. */
  lemma {:induction false} PrintPrefix(n: nat, radix: nat, k: nat)
    requires radix == 10 || radix == 16
    requires 1 <= k <= |Print(n, radix)|
    ensures var v := PositionalValue(Print(n, radix)[..k], radix); v.Some? && v.value <= n && (v.value == 0 <==> n == 0)
  {
    hide PositionalValue;
    if k == |Print(n, radix)| {
      assert Print(n, radix)[..k] == Print(n, radix);
    } else {
      assert n >= radix;
      DivideByRadix(n, radix);
      assert Print(n, radix) == Print(n / radix, radix) + [DigitChar(n % radix)];
      assert Print(n, radix)[..k] == Print(n / radix, radix)[..k];
      PrintPrefix(n / radix, radix, k);
      QuotientPositive(n, radix);
    }
  }

  lemma QuotientPositive(n: nat, radix: nat)
    requires (radix == 10 || radix == 16) && radix <= n
    ensures 0 < n / radix <= n
  {
    if radix == 10 {
      assert 0 < n / 10 <= n;
    } else {
      assert 0 < n / 16 <= n;
    }
  }

  lemma {:induction false} PrintedDigits(n: nat, radix: nat, i: nat)
    requires (radix == 10 || radix == 16) && i < |Print(n, radix)|
    ensures DigitValue(Print(n, radix)[i]).Some?
  {
    if n >= radix && i < |Print(n, radix)| - 1 {
      DivideByRadix(n, radix);
      PrintedDigits(n / radix, radix, i);
    }
  }

  lemma DigitIsPlain(c: char)
    requires DigitValue(c).Some?
    ensures !IsWhitespace(c) && !IsEol(c) && c != ':' && c != '+' && c != ';' && c as int < 0x80
  {
  }

  /** The visible front of the length, as a header. */
  function LengthSoFar(n: nat, k: nat): Header
    requires k <= |Decimal(n)|
  {
    Header(LENGTH_NAME, Decimal(n)[..k])
  }

  lemma LengthSoFarIs(n: nat, k: nat)
    requires 1 <= k <= |Decimal(n)| && n < USIZE_END
    ensures var h := LengthSoFar(n, k);
            && CleanHeader(h) && Named(h, "content-length") && !ChunkedHeader(h)
            && ParseUsize(h.value, 10).Some? && (ParseUsize(h.value, 10).value == 0 <==> n == 0)
            && !IsEol(h.value[k - 1]) && Ascii(h.value)
  {
    hide Print, PositionalValue, IsWhitespace, DigitValue, IsEol, Find;
    var ds := Decimal(n)[..k];
    forall i | 0 <= i < k ensures DigitValue(ds[i]).Some? {
      PrintedDigits(n, 10, i);
    }
    forall i | 0 <= i < k
      ensures !IsWhitespace(ds[i]) && !IsEol(ds[i]) && ds[i] != ':' && ds[i] as int < 0x80
    {
      DigitIsPlain(ds[i]);
    }
    DigitIsPlain(ds[0]);
    PrintPrefix(n, 10, k);
    NewlineIsEol();
    TrimmedNameParts();
    assert |LENGTH_NAME| != |"transfer-encoding"|;
  }

  lemma NewlineIsEol()
    ensures IsEol('\n') && IsEol('\r')
  {
  }

  lemma TrimmedNameParts()
    ensures Trimmed(LENGTH_NAME)
  {
  }

  function LengthLine(n: nat): string {
    LENGTH_NAME + ": " + Decimal(n)
  }

  lemma LengthLineIs(n: nat)
    requires n < USIZE_END
    ensures var l := LengthLine(n); '\n' !in l && Ascii(l + "\r") && !IsEol(l[|l| - 1])
    ensures |Encode(LENGTH_NAME + ": ")| == 16 && |LengthLine(n)| == 16 + |Decimal(n)|
    ensures Line(LengthLine(n)) == Encode(LENGTH_NAME + ": ") + Line(Decimal(n))
    ensures |Line(LengthLine(n))| == |LengthLine(n)| + 2
  {
    hide Encode, Print, IsEol, Decode;
    var l, d := LengthLine(n), Decimal(n);
    LengthSoFarIs(n, |d|);
    assert d[..|d|] == d;
    assert l[|l| - 1] == d[|d| - 1];
    AsciiCut(LENGTH_NAME + ": ", 0);
    EncodeConcat(LENGTH_NAME + ": ", d);
    AsciiCut(l, 0);
    LineIsTextAndEnd(l);
    LineIsTextAndEnd(d);
  }

  lemma CutLengthLine(n: nat, c: nat)
    requires n < USIZE_END && 16 < c < |Line(LengthLine(n))|
    ensures var k := if c <= |LengthLine(n)| then c - 16 else |Decimal(n)|;
            1 <= k <= |Decimal(n)| && ReadHeaders(Line(LengthLine(n))[..c]) == Done([LengthSoFar(n, k)], [])
  {
    hide Encode, Print, IsEol, Decode, TrimEndBy, TrimEol, ParseHeader, Line, PositionalValue, ReadHeaders;
    LengthLineIs(n);
    var l := LengthLine(n);
    var k := if c <= |l| then c - 16 else |Decimal(n)|;
    CutLastLine(l, c);
    CutLineBytes(l, c);
    AsciiCut(l + "\r", c);
    var t := (l + "\r")[..c];
    var h := LengthSoFar(n, k);
    LengthSoFarIs(n, k);
    assert h.name + ": " + h.value == l[..16 + k];
    assert TrimEol(t) == l[..16 + k] by {
      TrimCutLine(l, c, 16 + k);
    }
    ParseHeaderLine(h);
  }

  lemma TrimCutLine(l: string, c: nat, k: nat)
    requires c <= |l| + 1 && 1 <= k <= |l| && k == (if c <= |l| then c else |l|) && !IsEol(l[k - 1])
    ensures TrimEol((l + "\r")[..c]) == l[..k]
  {
    var t := (l + "\r")[..c];
    if c <= |l| {
      assert t == l[..k] && t[|t| - 1] == l[k - 1];
    } else {
      assert t[..|t| - 1] == l[..k];
      assert TrimEndBy(t, IsEol) == TrimEndBy(l[..k], IsEol);
    }
  }

  lemma CutBlankLine(c: nat)
    requires c < 2
    ensures c <= |Line("")| == 2 && ReadHeaders(Line("")[..c]) == Done([], [])
  {
    hide ReadHeaders, Encode, Decode;
    EmptyLine();
    CutLastLine("", c);
    CutLineBytes("", c);
    AsciiCut("" + "\r", c);
    CarriageReturn(c);
  }

  lemma CarriageReturn(c: nat)
    requires c < 2
    ensures ParseHeader(TrimEol(("" + "\r")[..c])) == []
  {
    assert "" + "\r" == "\r";
    if c == 1 {
      assert "\r"[..1] == "\r" && "\r"[..0] == "";
      assert TrimEol("\r") == TrimEndBy("", IsEol) == "";
    }
  }

  /** From the first digit on up to the end of the head, the visible digits are the length. */
  lemma CutLength(n: nat, body: Bytes, c: nat) returns (k: nat)
    requires n < USIZE_END && 16 < c < |Line(LengthLine(n))| + 2
    ensures c <= |Line(LengthLine(n)) + (Line("") + body)|
    ensures 1 <= k <= |Decimal(n)|
    ensures ReadHeaders((Line(LengthLine(n)) + (Line("") + body))[..c]) == Done([LengthSoFar(n, k)], [])
  {
    hide Encode, Print, Decode, Line, ReadHeaders, PositionalValue, LengthSoFar;
    var l := LengthLine(n);
    EmptyLine();
    var y := (Line(l) + (Line("") + body))[..c];
    if c < |Line(l)| {
      CutLengthLine(n, c);
      k := if c <= |l| then c - 16 else |Decimal(n)|;
      assert y == Line(l)[..c];
    } else {
      var d := c - |Line(l)|;
      CutBlankLine(d);
      k := |Decimal(n)|;
      assert y == Line(l) + Line("")[..d];
      WholeLength(n, Line("")[..d]);
    }
  }

  lemma WholeLength(n: nat, tail: Bytes)
    requires n < USIZE_END && ReadHeaders(tail) == Done([], [])
    ensures ReadHeaders(Line(LengthLine(n)) + tail) == Done([LengthSoFar(n, |Decimal(n)|)], [])
  {
    hide ReadHeaders, Print, Line, PositionalValue;
    var h := LengthSoFar(n, |Decimal(n)|);
    LengthSoFarIs(n, |Decimal(n)|);
    assert h.value == Decimal(n) && h.name + ": " + h.value == LengthLine(n);
    HeaderLineThen(h, tail);
    assert [h] + [] == [h];
  }

  // ----- a cut message -----

  lemma RenderIs(m: HttpMessage)
    requires |m.body| < USIZE_END
    ensures var tail := Line(LengthLine(|m.body|)) + (Line("") + m.body);
            && Render(m) == Line(m.startLine) + (HeaderLines(KeptHeaders(m.headers)) + tail)
            && 16 <= |tail| && tail[..16] == Encode(LENGTH_NAME + ": ")
            && |Line("")| == 2
  {
    hide Encode, Print, Line;
    LengthLineIs(|m.body|);
    EmptyLine();
    var kept, length := KeptHeaders(m.headers), LengthHeader(|m.body|);
    HeaderLinesAppend(kept, length);
    RenderSplit(m, []);
    assert Render(m) + [] == Render(m) && m.body + [] == m.body;
    var tail := Line(LengthLine(|m.body|)) + (Line("") + m.body);
    assert tail[..16] == Line(LengthLine(|m.body|))[..16] == Encode(LENGTH_NAME + ": ");
    assert HeaderLines(kept + [length]) + (Line("") + m.body) == HeaderLines(kept) + tail;
  }

  /** How many bytes of a written message precede the first digit of its length. */
  function LengthAt(m: HttpMessage): nat {
    |Line(m.startLine)| + |HeaderLines(KeptHeaders(m.headers))| + 16
  }

  /** A cut is refused, or what it is read as has an empty body. */
  predicate EmptyIfRead(r: Parsed<Option<HttpMessage>>) {
    r.Done? ==> r.rest == [] && (r.value == None || r.value.value.body == [])
  }

  lemma KeptAnnounceNothing(m: HttpMessage, maxBody: nat)
    requires Framable(m, maxBody)
    ensures NoBodyHeaders(KeptHeaders(m.headers))
  {
    hide EqIgnoreAsciiCase, ChunkedHeader;
  }

  /** A cut in front of the length's first digit. */
  lemma CutBeforeLength(m: HttpMessage, c: nat, maxBody: nat, closeDelimited: bool)
    requires maxBody < USIZE_END && Framable(m, maxBody) && c <= LengthAt(m)
    ensures c <= |Render(m)|
    ensures var r := ReadMessage(Render(m)[..c], maxBody, closeDelimited);
            (r.Failed? <==> Unreadable(Render(m)[..c])) && EmptyIfRead(r)
  {
    hide Encode, Decode, Line, HeaderLines, ReadHeaders, ReadMessage, LengthLine, NoFraming, CleanStart, CleanHeaders;
    RenderIs(m);
    var first, kept := Line(m.startLine), KeptHeaders(m.headers);
    var tail := Line(LengthLine(|m.body|)) + (Line("") + m.body);
    if c < |first| {
      assert Render(m)[..c] == first[..c];
      CutStartLine(m.startLine, c, maxBody, closeDelimited);
    } else {
      var d := c - |first|;
      assert BeforeLengthValue(kept) == (HeaderLines(kept) + tail)[..|HeaderLines(kept)| + 16];
      var x := BeforeLengthValue(kept)[..d];
      assert Render(m)[..c] == first + x;
      KeptAnnounceNothing(m, maxBody);
      CutHeaders(kept, d);
      StartLineThen(m.startLine, x, maxBody, closeDelimited);
      NothingLeft(maxBody, closeDelimited);
      StartIsReadable(m.startLine, x);
    }
  }

  lemma StartIsReadable(start: string, x: Bytes)
    requires CleanStart(start)
    ensures Unreadable(Line(start) + x) <==> Decode(x) == None
  {
    hide Decode, Encode, IsWhitespace;
    DecodeBehind(start + "\r\n", x);
    if Decode(x).Some? {
      var s := start + "\r\n" + Decode(x).value;
      assert s[|start| - 1] == start[|start| - 1];
      NotBlank(s, |start| - 1);
    }
  }

  lemma {:induction false} NotBlank(s: string, i: nat)
    requires i < |s| && !IsWhitespace(s[i])
    ensures TrimEnd(s) != ""
  {
    hide IsWhitespace;
    if i < |s| - 1 {
      NotBlank(s[..|s| - 1], i);
    }
  }

  /** A cut behind it, but still in the head. */
  lemma CutBehindLength(m: HttpMessage, c: nat, maxBody: nat, closeDelimited: bool)
    requires maxBody < USIZE_END && Framable(m, maxBody) && LengthAt(m) < c < |Render(m)| - |m.body|
    ensures |m.body| <= |Render(m)|
    ensures var r := ReadMessage(Render(m)[..c], maxBody, closeDelimited);
            (r.Failed? <==> m.body != []) && EmptyIfRead(r)
  {
    hide Encode, Decode, Line, HeaderLines, ReadHeaders, ReadMessage, LengthLine, CleanStart, Print, LengthSoFar;
    RenderIs(m);
    var first, kept, n := Line(m.startLine), KeptHeaders(m.headers), |m.body|;
    var lines, tail := HeaderLines(kept), Line(LengthLine(n)) + (Line("") + m.body);
    var d := c - |first| - |lines|;
    assert Render(m)[..c] == first + (lines + tail[..d]);
    var k := CutLength(n, m.body, d);
    HeadersThen(kept, tail[..d]);
    StartLineThen(m.startLine, lines + tail[..d], maxBody, closeDelimited);
    LengthIsFraming(m, k, maxBody, closeDelimited);
  }

  lemma LengthIsFraming(m: HttpMessage, k: nat, maxBody: nat, closeDelimited: bool)
    requires maxBody < USIZE_END && Framable(m, maxBody) && 1 <= k <= |Decimal(|m.body|)|
    ensures var headers := KeptHeaders(m.headers) + [LengthSoFar(|m.body|, k)];
            ReadBody(headers, [], maxBody, closeDelimited)
                == if m.body == [] then Done([], []) else Failed(UnexpectedEof)
  {
    hide Print, ParseUsize, CleanStart, CleanHeader, CleanHeaders, EqIgnoreAsciiCase, ChunkedHeader;
    var h := LengthSoFar(|m.body|, k);
    LengthSoFarIs(|m.body|, k);
    ContentLengthOfKept(m.headers, h);
  }

  /** The promise that a connection which closes inside a message surfaces as an error, settled for every message
      that is read back whole and every place to cut it. In front of the first digit of its length, a cut is an
      error exactly when it splits a character or leaves nothing but white space; from there on it is one exactly
      when there is a body. A cut that is no error is read as an empty message. */
  lemma CutIff(m: HttpMessage, c: nat, maxBody: nat, closeDelimited: bool)
    requires maxBody < USIZE_END && Framable(m, maxBody) && c < |Render(m)|
    ensures var r := ReadMessage(Render(m)[..c], maxBody, closeDelimited);
            && (r.Failed? <==> if c <= LengthAt(m) then Unreadable(Render(m)[..c]) else m.body != [])
            && EmptyIfRead(r)
  {
    hide Render, ReadMessage, Unreadable, Framable, LengthAt;
    if c <= LengthAt(m) {
      CutBeforeLength(m, c, maxBody, closeDelimited);
    } else {
      RenderCut(m, 0);
      var head := |Render(m)| - |m.body|;
      if c < head {
        CutBehindLength(m, c, maxBody, closeDelimited);
      } else {
        assert c == |Render(m)| - |m.body| + (c - head);
        CutBodyIsError(m, c - head, maxBody, closeDelimited);
      }
    }
  }

  // ----- a cut chunked body -----

  /** The visible part of a size line reads as the size zero, which ends a body. */
  predicate LooksLast(visible: Bytes) {
    Decode(visible).Some? && ParseChunkSize(TrimEol(Decode(visible).value)) == Some(0)
  }

  lemma CutSizeLine(line: string, c: nat, maxBody: nat, got: Bytes)
    requires '\n' !in line && c < |Line(line)|
    ensures var r := ReadChunked(Line(line)[..c], maxBody, got);
            if LooksLast(Line(line)[..c]) then r == Done(got, []) else r.Failed?
  {
    hide Decode, Line, ParseChunkSize;
    CutLine(line, c);
    assert SkipTrailers([]) == Done((), []) by {
      NothingLeft(maxBody, false);
    }
  }

  lemma CutChunk(chunk: Chunk, c: nat, maxBody: nat, got: Bytes)
    requires ValidChunk(chunk) && |Line(chunk.sizeLine)| <= c < |ChunkBytes(chunk)|
    ensures ReadChunked(ChunkBytes(chunk)[..c], maxBody, got).Failed?
  {
    hide Line, ParseChunkSize, Http1.ReadLine;
    var rest := ChunkBytes(chunk)[..c][|Line(chunk.sizeLine)|..];
    assert ChunkBytes(chunk)[..c] == Line(chunk.sizeLine) + rest;
    SizeLineBack(chunk.sizeLine, |chunk.data|, rest);
    EmptyLine();
  }

  /** Lines up to a blank one, as they end a head or a chunked body. */
  function Block(lines: seq<string>): Bytes {
    Lines(lines) + Line("")
  }

  lemma {:induction false} CutTrailers(trailers: seq<string>, c: nat)
    requires NonBlankLines(trailers) && c <= |Block(trailers)|
    ensures var x := Block(trailers)[..c];
            SkipTrailers(x) == if Decode(x).Some? then Done((), []) else Failed(InvalidUtf8)
  {
    hide Decode, Encode, TrimEol, Http1.ReadLine;
    var x := Block(trailers)[..c];
    NothingLeft(0, false);
    if trailers == [] {
      assert Block(trailers) == Line("");
      CutEnd(c);
    } else {
      var l := trailers[0];
      assert Block(trailers) == Line(l) + Block(trailers[1..]);
      if c < |Line(l)| {
        assert x == Line(l)[..c];
        CutLine(l, c);
      } else {
        var x' := Block(trailers[1..])[..c - |Line(l)|];
        assert x == Line(l) + x';
        CutTrailers(trailers[1..], c - |Line(l)|);
        ReadLineOf(l, x');
        DecodeBehind(l + "\r\n", x');
      }
    }
  }

  lemma DecodeNothing()
    ensures Decode([]) == Some("")
  {
  }

  lemma CutEnd(c: nat)
    requires c <= |Line("")|
    ensures var x := Line("")[..c]; Decode(x).Some? && SkipTrailers(x) == Done((), [])
  {
    hide Encode, Decode, Http1.ReadLine, TrimEol;
    NothingLeft(0, false);
    EmptyLine();
    TrimEolOfLine("");
    if c < 2 {
      CutLine("", c);
      CutLineBytes("", c);
      AsciiCut("" + "\r", c);
    } else {
      ReadLineOf("", []);
      DecodeBehind("\r\n", []);
      assert Line("")[..c] == Line("") && Line("") + [] == Line("") && "" + "\r\n" == "\r\n";
      DecodeNothing();
    }
  }

  function LastBytes(lastLine: string, trailers: seq<string>): Bytes {
    Line(lastLine) + Block(trailers)
  }

  /** The cut falls in the last size line and leaves a zero to see, or behind it and splits no character. */
  predicate LastAccepted(lastLine: string, trailers: seq<string>, c: nat)
    requires c <= |LastBytes(lastLine, trailers)|
  {
    if c < |Line(lastLine)| then LooksLast(Line(lastLine)[..c])
    else Decode(Block(trailers)[..c - |Line(lastLine)|]).Some?
  }

  lemma CutLast(lastLine: string, trailers: seq<string>, c: nat, maxBody: nat, got: Bytes)
    requires Announces(lastLine, 0) && NonBlankLines(trailers) && c <= |LastBytes(lastLine, trailers)|
    ensures var r := ReadChunked(LastBytes(lastLine, trailers)[..c], maxBody, got);
            if LastAccepted(lastLine, trailers, c) then r == Done(got, []) else r.Failed?
  {
    hide Decode, Line, ParseChunkSize, SkipTrailers, Http1.ReadLine, LooksLast, Block;
    var b := LastBytes(lastLine, trailers)[..c];
    if c < |Line(lastLine)| {
      assert b == Line(lastLine)[..c];
      CutSizeLine(lastLine, c, maxBody, got);
    } else {
      var x := Block(trailers)[..c - |Line(lastLine)|];
      assert b == Line(lastLine) + x;
      SizeLineBack(lastLine, 0, x);
      CutTrailers(trailers, c - |Line(lastLine)|);
    }
  }

  /** A cut c bytes into a chunked body is taken for its end behind the first i chunks. */
  predicate AcceptedAt(chunks: seq<Chunk>, lastLine: string, trailers: seq<string>, c: nat, i: nat)
    requires i <= |chunks|
  {
    var from := |ChunkList(chunks[..i])|;
    from <= c &&
    if i < |chunks| then c < from + |Line(chunks[i].sizeLine)| && LooksLast(Line(chunks[i].sizeLine)[..c - from])
    else c <= from + |LastBytes(lastLine, trailers)| && LastAccepted(lastLine, trailers, c - from)
  }

  lemma EncodedParts(chunks: seq<Chunk>, lastLine: string, trailers: seq<string>)
    ensures EncodeChunked(chunks, lastLine, trailers) == ChunkList(chunks) + LastBytes(lastLine, trailers)
    ensures chunks != [] ==> EncodeChunked(chunks, lastLine, trailers)
                             == ChunkBytes(chunks[0]) + EncodeChunked(chunks[1..], lastLine, trailers)
  {
    hide Line, ChunkBytes;
  }

  lemma AcceptedShift(chunks: seq<Chunk>, lastLine: string, trailers: seq<string>, c: nat, i: nat)
    requires 1 <= i <= |chunks|
    ensures AcceptedAt(chunks, lastLine, trailers, c, i)
            <==> |ChunkBytes(chunks[0])| <= c
                 && AcceptedAt(chunks[1..], lastLine, trailers, c - |ChunkBytes(chunks[0])|, i - 1)
    ensures Data(chunks[..i]) == chunks[0].data + Data(chunks[1..][..i - 1])
  {
    hide Line, ChunkBytes, LooksLast, LastAccepted, LastBytes;
    assert chunks[..i][1..] == chunks[1..][..i - 1];
    assert ChunkList(chunks[..i]) == ChunkBytes(chunks[0]) + ChunkList(chunks[1..][..i - 1]);
  }

  /** A chunked body that fits, cut anywhere: it is read, with the data of the chunks in front, exactly when the cut
      falls in a size line of which a zero is visible, or behind the last size line. */
  lemma {:induction false} CutChunkedFrom(chunks: seq<Chunk>, lastLine: string, trailers: seq<string>, c: nat,
      maxBody: nat, got: Bytes)
    requires ValidChunks(chunks) && Announces(lastLine, 0) && NonBlankLines(trailers)
    requires c <= |EncodeChunked(chunks, lastLine, trailers)|
    requires |got| + |Data(chunks)| <= maxBody < USIZE_END
    ensures var r := ReadChunked(EncodeChunked(chunks, lastLine, trailers)[..c], maxBody, got);
            && (forall i :: 0 <= i <= |chunks| && AcceptedAt(chunks, lastLine, trailers, c, i) ==>
                  r == Done(got + Data(chunks[..i]), []))
            && (r.Done? ==> exists i :: 0 <= i <= |chunks| && AcceptedAt(chunks, lastLine, trailers, c, i))
  {
    hide Line, ChunkBytes, LooksLast, LastAccepted, LastBytes, EncodeChunked, ReadChunked, Announces, NonBlankLines,
        ValidChunk;
    var b := EncodeChunked(chunks, lastLine, trailers)[..c];
    EncodedParts(chunks, lastLine, trailers);
    assert got + [] == got;
    if chunks == [] {
      assert b == LastBytes(lastLine, trailers)[..c];
      CutLast(lastLine, trailers, c, maxBody, got);
      assert AcceptedAt(chunks, lastLine, trailers, c, 0) == LastAccepted(lastLine, trailers, c);
    } else if c < |ChunkBytes(chunks[0])| {
      assert b == ChunkBytes(chunks[0])[..c];
      CutFirstChunk(chunks, lastLine, trailers, c, maxBody, got);
    } else {
      var first, more, d := chunks[0], chunks[1..], c - |ChunkBytes(chunks[0])|;
      assert b == ChunkBytes(first) + EncodeChunked(more, lastLine, trailers)[..d];
      OneChunkBack(first, EncodeChunked(more, lastLine, trailers)[..d], maxBody, got);
      CutChunkedFrom(more, lastLine, trailers, d, maxBody, got + first.data);
      forall i | 0 <= i <= |chunks| && AcceptedAt(chunks, lastLine, trailers, c, i)
        ensures ReadChunked(b, maxBody, got) == Done(got + Data(chunks[..i]), [])
      {
        NotInFirst(chunks, lastLine, trailers, c, i);
        AcceptedShift(chunks, lastLine, trailers, c, i);
        assert got + first.data + Data(more[..i - 1]) == got + Data(chunks[..i]);
      }
      if ReadChunked(b, maxBody, got).Done? {
        var i :| 0 <= i <= |more| && AcceptedAt(more, lastLine, trailers, d, i);
        AcceptedShift(chunks, lastLine, trailers, c, i + 1);
      }
    }
  }

  lemma NotInFirst(chunks: seq<Chunk>, lastLine: string, trailers: seq<string>, c: nat, i: nat)
    requires chunks != [] && i <= |chunks| && |ChunkBytes(chunks[0])| <= c
    requires AcceptedAt(chunks, lastLine, trailers, c, i)
    ensures i >= 1
  {
    hide Line, LooksLast;
    assert ChunkList(chunks[..0]) == [];
  }

  lemma CutFirstChunk(chunks: seq<Chunk>, lastLine: string, trailers: seq<string>, c: nat, maxBody: nat, got: Bytes)
    requires chunks != [] && ValidChunk(chunks[0]) && c < |ChunkBytes(chunks[0])|
    ensures var r := ReadChunked(ChunkBytes(chunks[0])[..c], maxBody, got);
            && (forall i :: 0 <= i <= |chunks| && AcceptedAt(chunks, lastLine, trailers, c, i) ==>
                  r == Done(got + Data(chunks[..i]), []))
            && (r.Done? ==> exists i :: 0 <= i <= |chunks| && AcceptedAt(chunks, lastLine, trailers, c, i))
  {
    hide Line, LooksLast, LastAccepted, LastBytes, ReadChunked, ParseChunkSize, ChunkBytes;
    var line := Line(chunks[0].sizeLine);
    assert ChunkList(chunks[..0]) == [] && got + Data(chunks[..0]) == got;
    assert AcceptedAt(chunks, lastLine, trailers, c, 0) <==> c < |line| && LooksLast(line[..c]);
    forall i | 1 <= i <= |chunks| ensures !AcceptedAt(chunks, lastLine, trailers, c, i) {
      AcceptedShift(chunks, lastLine, trailers, c, i);
    }
    if c < |line| {
      SizeLineFirst(chunks[0], c);
      CutSizeLine(chunks[0].sizeLine, c, maxBody, got);
    } else {
      CutChunk(chunks[0], c, maxBody, got);
    }
  }

  lemma SizeLineFirst(chunk: Chunk, c: nat)
    requires c < |Line(chunk.sizeLine)|
    ensures c <= |ChunkBytes(chunk)| && ChunkBytes(chunk)[..c] == Line(chunk.sizeLine)[..c]
  {
    hide Line;
  }

  /** The same of a whole message with a chunked body: cut behind its head it is an error, unless the cut is taken
      for the end of the body. */
  lemma CutChunkedIff(start: string, headers: seq<Header>, chunks: seq<Chunk>, lastLine: string,
      trailers: seq<string>, c: nat, maxBody: nat, closeDelimited: bool)
    requires CleanStart(start) && CleanHeaders(headers) && IsChunked(headers)
    requires ValidChunks(chunks) && Announces(lastLine, 0) && NonBlankLines(trailers)
    requires c <= |EncodeChunked(chunks, lastLine, trailers)| && |Data(chunks)| <= maxBody < USIZE_END
    ensures var body := EncodeChunked(chunks, lastLine, trailers)[..c];
            var cut := Line(start) + (HeaderLines(headers) + (Line("") + body));
            var r := ReadMessage(cut, maxBody, closeDelimited);
            && cut <= ChunkedWire(start, headers, chunks, lastLine, trailers)
            && (forall i :: 0 <= i <= |chunks| && AcceptedAt(chunks, lastLine, trailers, c, i) ==>
                  r == Done(Some(HttpMessage(start, headers, Data(chunks[..i]))), []))
            && (r.Done? ==> exists i :: 0 <= i <= |chunks| && AcceptedAt(chunks, lastLine, trailers, c, i))
  {
    hide ReadMessage, ReadChunked, EncodeChunked, AcceptedAt, IsChunked, Line, HeaderLines, CleanStart, CleanHeaders;
    hide ValidChunks, Announces, NonBlankLines;
    var body := EncodeChunked(chunks, lastLine, trailers);
    MessageBack(start, headers, body[..c], maxBody, closeDelimited);
    CutChunkedFrom(chunks, lastLine, trailers, c, maxBody, []);
    assert forall i :: 0 <= i <= |chunks| ==> [] + Data(chunks[..i]) == Data(chunks[..i]);
    WireSplit(start, headers, body[..c], body[c..]);
    assert body[..c] + body[c..] == body;
  }

  lemma ZeroLooksLast(line: string)
    requires '\n' !in line && line != "" && line[0] == '0'
    ensures 1 < |Line(line)| && LooksLast(Line(line)[..1])
  {
    hide Encode, Decode, ParseChunkSize;
    LineIsTextAndEnd(line);
    assert line == "0" + line[1..];
    EncodeConcat("0", line[1..]);
    AsciiCut("0", 1);
    assert "0"[..1] == "0" && Line(line)[..1] == Encode("0")[..1];
    ZeroIsZero();
  }

  lemma ZeroIsZero()
    ensures ParseChunkSize(TrimEol("0")) == Some(0)
  {
    assert TrimEol("0") == "0";
    BeforeAll("0", ';');
    TrimIsTrimmed("0");
    assert "0"[..0] == "" && PositionalValue("", 16) == Some(0);
    assert PositionalValue("0", 16) == Some(0);
  }

  lemma {:induction false} DataSplit(chunks: seq<Chunk>, i: nat)
    requires i <= |chunks|
    ensures Data(chunks) == Data(chunks[..i]) + Data(chunks[i..])
  {
    if i > 0 {
      DataSplit(chunks[1..], i - 1);
      assert chunks[..i][1..] == chunks[1..][..i - 1] && chunks[1..][i - 1..] == chunks[i..];
    } else {
      assert chunks[0..] == chunks;
    }
  }

  /** So a size written with a leading zero, as the decoder accepts it, is a place where a cut goes unnoticed: the
      message is read as complete without this chunk and all behind it. */
  lemma LeadingZeroIsEnd(start: string, headers: seq<Header>, chunks: seq<Chunk>, i: nat, lastLine: string,
      trailers: seq<string>, maxBody: nat, closeDelimited: bool)
    requires CleanStart(start) && CleanHeaders(headers) && IsChunked(headers)
    requires ValidChunks(chunks) && Announces(lastLine, 0) && NonBlankLines(trailers)
    requires i < |chunks| && chunks[i].sizeLine != "" && chunks[i].sizeLine[0] == '0'
    requires |Data(chunks)| <= maxBody < USIZE_END
    ensures var c := |ChunkList(chunks[..i])| + 1;
            && c <= |EncodeChunked(chunks, lastLine, trailers)|
            && var body := EncodeChunked(chunks, lastLine, trailers)[..c];
               var cut := Line(start) + (HeaderLines(headers) + (Line("") + body));
               ReadMessage(cut, maxBody, closeDelimited)
               == Done(Some(HttpMessage(start, headers, Data(chunks[..i]))), [])
    ensures |Data(chunks[..i])| < |Data(chunks)|
  {
    hide ReadMessage, EncodeChunked, IsChunked, Line, HeaderLines, CleanStart, CleanHeaders, LooksLast, ParseChunkSize;
    var c := |ChunkList(chunks[..i])| + 1;
    ZeroLooksLast(chunks[i].sizeLine);
    EncodedParts(chunks, lastLine, trailers);
    ChunkListBefore(chunks, i);
    assert AcceptedAt(chunks, lastLine, trailers, c, i);
    CutChunkedIff(start, headers, chunks, lastLine, trailers, c, maxBody, closeDelimited);
    DataSplit(chunks, i);
  }

  lemma {:induction false} ChunkListBefore(chunks: seq<Chunk>, i: nat)
    requires i < |chunks|
    ensures |ChunkList(chunks[..i])| + |Line(chunks[i].sizeLine)| <= |ChunkList(chunks)|
  {
    hide Line;
    if i > 0 {
      ChunkListBefore(chunks[1..], i - 1);
      assert chunks[..i][1..] == chunks[1..][..i - 1];
    }
  }

  /** The size line of a sender that writes no leading zeros. */
  ghost predicate Canonical(chunk: Chunk) {
    exists ext :: CanonicalWith(chunk, ext)
  }

  predicate CanonicalWith(chunk: Chunk, ext: string) {
    && chunk.sizeLine == Print(|chunk.data|, 16) + ext
    && (ext == "" || (ext[0] == ';' && '\n' !in ext && !IsEol(ext[|ext| - 1])))
  }

  /** However such a line is cut, no zero is visible. */
  lemma CanonicalNeverLast(n: nat, ext: string, c: nat)
    requires n > 0 && (ext == "" || ext[0] == ';') && '\n' !in ext
    requires c < |Line(Print(n, 16) + ext)|
    ensures !LooksLast(Line(Print(n, 16) + ext)[..c])
  {
    hide Decode, Encode, Line, Print, Trim, TrimEol, PositionalValue;
    var hex := Print(n, 16);
    var b := Line(hex + ext)[..c];
    CutLine(hex + ext, c);
    if Decode(b).Some? {
      var u := TrimEol(Decode(b).value);
      TrimmedInside(hex + ext, Decode(b).value);
      VisibleDigits(hex, ext, u);
      var k := if |u| <= |hex| then |u| else |hex|;
      HexPrefix(n, k);
    }
  }

  lemma VisibleDigits(hex: string, ext: string, u: string)
    requires ';' !in hex && (ext == "" || ext[0] == ';') && u <= hex + ext
    ensures Before(u, ';') == hex[..if |u| <= |hex| then |u| else |hex|]
  {
    hide Before;
    if |u| <= |hex| {
      assert u == hex[..|u|];
      BeforeAll(u, ';');
    } else {
      assert u[|hex|] == (hex + ext)[|hex|] == ext[0];
      assert u == hex + [';'] + u[|hex| + 1..];
      BeforeFirst(hex, ';', u[|hex| + 1..]);
      assert hex[..|hex|] == hex;
    }
  }

  lemma HexPrefix(n: nat, k: nat)
    requires n > 0 && k <= |Print(n, 16)|
    ensures ParseUsize(Trim(Print(n, 16)[..k]), 16) != Some(0)
  {
    hide Print, PositionalValue, DigitValue, IsWhitespace, Trim;
    var hex := Print(n, 16)[..k];
    if k == 0 {
      TrimIsTrimmed("");
      assert hex == "";
    } else {
      PrintedDigits(n, 16, 0);
      PrintedDigits(n, 16, k - 1);
      DigitIsPlain(hex[0]);
      DigitIsPlain(hex[k - 1]);
      TrimIsTrimmed(hex);
      PrintPrefix(n, 16, k);
    }
  }

  /** From such a sender a cut is an error, or the data is complete. */
  lemma CanonicalCut(start: string, headers: seq<Header>, chunks: seq<Chunk>, lastLine: string,
      trailers: seq<string>, c: nat, maxBody: nat, closeDelimited: bool)
    requires CleanStart(start) && CleanHeaders(headers) && IsChunked(headers)
    requires ValidChunks(chunks) && Announces(lastLine, 0) && NonBlankLines(trailers)
    requires forall i :: 0 <= i < |chunks| ==> Canonical(chunks[i])
    requires c <= |EncodeChunked(chunks, lastLine, trailers)| && |Data(chunks)| <= maxBody < USIZE_END
    ensures var body := EncodeChunked(chunks, lastLine, trailers)[..c];
            var cut := Line(start) + (HeaderLines(headers) + (Line("") + body));
            var r := ReadMessage(cut, maxBody, closeDelimited);
            r.Done? ==> r == Done(Some(HttpMessage(start, headers, Data(chunks))), [])
  {
    hide ReadMessage, EncodeChunked, IsChunked, Line, HeaderLines, CleanStart, CleanHeaders, LooksLast, LastAccepted,
         ParseChunkSize, Print;
    CutChunkedIff(start, headers, chunks, lastLine, trailers, c, maxBody, closeDelimited);
    forall i | 0 <= i < |chunks| ensures !AcceptedAt(chunks, lastLine, trailers, c, i) {
      var ext :| CanonicalWith(chunks[i], ext);
      var from := |ChunkList(chunks[..i])|;
      if from <= c < from + |Line(chunks[i].sizeLine)| {
        CanonicalNeverLast(|chunks[i].data|, ext, c - from);
      }
    }
    assert chunks[..|chunks|] == chunks;
  }

  // ----- a cut body without any length -----

  /** A body that ends with the connection can be cut anywhere: what is left of it is read as a complete message. */
  lemma CutCloseDelimited(start: string, headers: seq<Header>, body: Bytes, k: nat, maxBody: nat)
    requires CleanStart(start) && CleanHeaders(headers) && NoFraming(headers)
    requires k <= |body| <= maxBody
    ensures ReadMessage(Line(start) + (HeaderLines(headers) + (Line("") + body[..k])), maxBody, true)
            == Done(Some(HttpMessage(start, headers, body[..k])), [])
  {
    hide ReadMessage, Line, HeaderLines, CleanStart, CleanHeaders, IsChunked;
    MessageBack(start, headers, body[..k], maxBody, true);
    assert body[..k][..k] == body[..k] && body[..k][k..] == [];
  }
}
