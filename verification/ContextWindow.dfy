/** The search for a context keyword around a match (`has_context_keyword`, crates/pii/src/lib.rs): a window of
    bytes, widened to whole characters so that cutting it out of the text cannot fail. */
module ContextWindow {
  import opened Wrappers
  import opened Utf8
  import opened Replace
  import Keywords

  const WINDOW: nat := 40

  /** The last boundary at or before i. */
  function Floor(b: Bytes, i: nat): (r: nat)
    ensures r <= i && IsCharBoundary(b, r)
    ensures forall j: nat :: r < j <= i ==> !IsCharBoundary(b, j)
  {
    if IsCharBoundary(b, i) then i else Floor(b, i - 1)
  }

  /** The first boundary at or after i. */
  function Ceil(b: Bytes, i: nat): (r: nat)
    requires i <= |b|
    ensures i <= r <= |b| && IsCharBoundary(b, r)
    ensures forall j: nat :: i <= j < r ==> !IsCharBoundary(b, j)
    decreases |b| - i
  {
    if IsCharBoundary(b, i) then i else Ceil(b, i + 1)
  }

  method FloorCharBoundary(b: Bytes, i: nat) returns (r: nat)
    ensures r == Floor(b, i)
  {
    r := i;
    while r > 0 && !IsCharBoundary(b, r)
      invariant Floor(b, r) == Floor(b, i)
    {
      r := r - 1;
    }
  }

  method CeilCharBoundary(b: Bytes, i: nat) returns (r: nat)
    requires i <= |b|
    ensures r == Ceil(b, i)
  {
    r := i;
    while r < |b| && !IsCharBoundary(b, r)
      invariant r <= |b|
      invariant Ceil(b, r) == Ceil(b, i)
    {
      r := r + 1;
    }
  }

  /** Widening moves an edge of the window by at most three bytes. */
  lemma {:induction false} BoundaryNear(s: string, i: nat)
    requires i <= |Encode(s)|
    ensures i <= Floor(Encode(s), i) + 3 && Ceil(Encode(s), i) <= i + 3
  {
    hide Encode, Floor, Ceil;
    var b := Encode(s);
    var lo := Floor(b, i);
    var hi := Ceil(b, i);
    if lo < i {
      var k := BoundariesAreOffsets(s, lo);
      assert s[..|s|] == s;
      OffsetsAreBoundaries(s, k + 1);
      NextOffset(s, k);
      assert hi <= lo + 4;
    }
  }

  // ----- the search -----

  function WindowStart(b: Bytes, start: nat): nat {
    Floor(b, if start > WINDOW then start - WINDOW else 0)
  }

  function WindowEnd(b: Bytes, end: nat): nat {
    Ceil(b, if end + WINDOW < |b| then end + WINDOW else |b|)
  }

  /** `keyword` occurs in the text, up to case, within the given byte offsets. */
  ghost predicate OccursWithin(chars: Keywords.Characters, text: string, keyword: string, from: nat, to: nat) {
    exists p: nat :: OccursInBytes(chars, text, keyword, from, to, p)
  }

  ghost predicate AnyOccursWithin(chars: Keywords.Characters, text: string, keywords: seq<string>, from: nat, to: nat) {
    exists k :: 0 <= k < |keywords| && OccursWithin(chars, text, keywords[k], from, to)
  }

  ghost predicate OccursInBytes(chars: Keywords.Characters, text: string, keyword: string, from: nat, to: nat, p: nat) {
    && OccursAt(keyword, chars.Lowercase(text), p)
    && from <= Offset(text, p) && Offset(text, p + |keyword|) <= to
  }

  /** The answer is whether some keyword stands between the two edges of the window; in particular the window
      can always be cut out. */
  method HasContextKeyword(chars: Keywords.Characters, text: string, start: nat, end: nat, keywords: seq<string>)
    returns (found: bool)
    requires start <= end <= |Encode(text)|
    ensures found <==> AnyOccursWithin(chars, text, keywords,
                                       WindowStart(Encode(text), start), WindowEnd(Encode(text), end))
  {
    hide Encode, Floor, Ceil, Decode;
    var b := Encode(text);
    var from := FloorCharBoundary(b, if start > WINDOW then start - WINDOW else 0);
    var to := CeilCharBoundary(b, if end + WINDOW < |b| then end + WINDOW else |b|);
    ghost var i := BoundariesAreOffsets(text, from);
    ghost var j := BoundariesAreOffsets(text, to);
    OffsetOrder(text, i, j);
    Slice(text, i, j);
    DecodeEncode(text[i..j]);
    var window := Decode(b[from..to]).value;
    var hay := chars.Lowercase(window);
    for k := 0 to |keywords|
      invariant forall m :: 0 <= m < k ==> !OccursWithin(chars, text, keywords[m], from, to)
    {
      WindowOccurs(chars, text, keywords[k], i, j);
      var at := Find(hay, keywords[k]);
      if at.Some? {
        return true;
      }
    }
    return false;
  }

  /** What occurs in the window is what occurs in the text between the window's edges. */
  lemma WindowOccurs(chars: Keywords.Characters, text: string, keyword: string, i: nat, j: nat)
    requires i <= j <= |text|
    ensures OccursWithin(chars, text, keyword, Offset(text, i), Offset(text, j))
            <==> Occurs(keyword, chars.Lowercase(text[i..j]))
  {
    hide Encode, Offset;
    var whole, part := chars.Lowercase(text), chars.Lowercase(text[i..j]);
    assert part == whole[i..j];
    if Occurs(keyword, part) {
      var q: nat :| OccursAt(keyword, part, q);
      assert whole[i + q..i + q + |keyword|] == part[q..q + |keyword|];
      assert OccursAt(keyword, whole, i + q);
      OffsetOrder(text, i, i + q);
      OffsetOrder(text, i + q + |keyword|, j);
      assert OccursInBytes(chars, text, keyword, Offset(text, i), Offset(text, j), i + q);
    }
    if OccursWithin(chars, text, keyword, Offset(text, i), Offset(text, j)) {
      var p: nat :| OccursInBytes(chars, text, keyword, Offset(text, i), Offset(text, j), p);
      OffsetOrder(text, i, p);
      OffsetOrder(text, p + |keyword|, j);
      assert part[p - i..p - i + |keyword|] == whole[p..p + |keyword|];
      assert OccursAt(keyword, part, p - i);
    }
  }

  /** The edges: at least forty bytes on either side of the match, or all there is, and at most forty-three. */
  lemma WindowEdges(text: string, start: nat, end: nat)
    requires start <= end <= |Encode(text)|
    ensures var from := WindowStart(Encode(text), start);
            from + WINDOW <= start + (if start < WINDOW then WINDOW - start else 0) && start <= from + WINDOW + 3
    ensures var to := WindowEnd(Encode(text), end);
            (to == |Encode(text)| || end + WINDOW <= to) && to <= end + WINDOW + 3
  {
    hide Encode, Floor, Ceil;
    var b := Encode(text);
    BoundaryNear(text, if start > WINDOW then start - WINDOW else 0);
    BoundaryNear(text, if end + WINDOW < |b| then end + WINDOW else |b|);
  }

  // ----- the documented window -----

  /** The documentation promises a window of forty characters: from here, */
  function FirstNear(i: nat): (r: nat)
    ensures r <= i
  {
    if i > WINDOW then i - WINDOW else 0
  }

  /** to here. */
  function LastNear(text: string, j: nat): (r: nat)
    requires j <= |text|
    ensures j <= r <= |text|
  {
    if j + WINDOW < |text| then j + WINDOW else |text|
  }

  lemma {:induction false} OffsetGap(s: string, k: nat, i: nat)
    requires k <= i <= |s|
    ensures Offset(s, i) >= Offset(s, k) + (i - k)
  {
    if k < i {
      OffsetGap(s, k, i - 1);
      NextOffset(s, i - 1);
    }
  }

  /** The window of bytes never exceeds the one of characters. */
  lemma BytesInsideCharacters(text: string, i: nat, j: nat)
    requires i <= |text| && j <= |text|
    ensures Offset(text, i) <= |Encode(text)| && Offset(text, j) <= |Encode(text)|
    ensures Offset(text, FirstNear(i)) <= WindowStart(Encode(text), Offset(text, i))
    ensures WindowEnd(Encode(text), Offset(text, j)) <= Offset(text, LastNear(text, j))
  {
    hide Encode, Offset, Floor, Ceil, IsCharBoundary;
    var lo, hi := FirstNear(i), LastNear(text, j);
    OffsetsAreBoundaries(text, i);
    OffsetsAreBoundaries(text, j);
    OffsetsAreBoundaries(text, lo);
    OffsetsAreBoundaries(text, hi);
    OffsetGap(text, lo, i);
    OffsetGap(text, j, hi);
    OffsetOfAll(text);
    EmptyOffset(text);
  }

  lemma OffsetOfAll(s: string)
    ensures Offset(s, |s|) == |Encode(s)|
  {
    assert s[..|s|] == s;
  }

  /** The left edge reaches the farthest documented character exactly when the characters behind that one take
      fewer than forty bytes. */
  lemma LeftEdgeIff(text: string, i: nat)
    requires i <= |text|
    ensures Offset(text, i) <= |Encode(text)|
    ensures WindowStart(Encode(text), Offset(text, i)) <= Offset(text, FirstNear(i))
            <==> i == 0 || Offset(text, i) - Offset(text, FirstNear(i) + 1) < WINDOW
  {
    hide Encode, Offset, Floor, IsCharBoundary;
    var b, lo, start := Encode(text), FirstNear(i), Offset(text, i);
    OffsetsAreBoundaries(text, i);
    EmptyOffset(text);
    if i > 0 {
      OffsetsAreBoundaries(text, lo + 1);
      OffsetOrder(text, lo + 1, lo);
      OffsetGap(text, 0, lo + 1);
      var m := BoundariesAreOffsets(text, WindowStart(b, start));
      OffsetOrder(text, m, lo);
      OffsetOrder(text, lo + 1, m);
    }
  }

  /** The right edge is its mirror image. */
  lemma RightEdgeIff(text: string, j: nat)
    requires j <= |text|
    ensures Offset(text, j) <= |Encode(text)|
    ensures Offset(text, LastNear(text, j)) <= WindowEnd(Encode(text), Offset(text, j))
            <==> j == |text| || Offset(text, LastNear(text, j) - 1) - Offset(text, j) < WINDOW
  {
    hide Encode, Offset, Ceil, IsCharBoundary;
    var b, hi, end := Encode(text), LastNear(text, j), Offset(text, j);
    OffsetsAreBoundaries(text, j);
    OffsetOfAll(text);
    if j < |text| {
      OffsetsAreBoundaries(text, hi - 1);
      OffsetOrder(text, hi, hi - 1);
      OffsetOrder(text, |text|, hi - 1);
      OffsetOrder(text, hi, |text|);
      var m := BoundariesAreOffsets(text, WindowEnd(b, end));
      OffsetOrder(text, m, hi - 1);
      OffsetOrder(text, hi, m);
    }
  }

  predicate CoversCharacters(text: string, i: nat, j: nat)
    requires i <= j <= |text|
  {
    && (i == 0 || Offset(text, i) - Offset(text, FirstNear(i) + 1) < WINDOW)
    && (j == |text| || Offset(text, LastNear(text, j) - 1) - Offset(text, j) < WINDOW)
  }

  /** For every list of keywords, the search answers whether one stands within forty characters of the match. */
  ghost predicate AsDocumented(chars: Keywords.Characters, text: string, i: nat, j: nat)
    requires i <= j <= |text| && Offset(text, i) <= Offset(text, j) <= |Encode(text)|
  {
    var from, to := WindowStart(Encode(text), Offset(text, i)), WindowEnd(Encode(text), Offset(text, j));
    forall keywords: seq<string> ::
      AnyOccursWithin(chars, text, keywords, from, to)
      <==> AnyOccursWithin(chars, text, keywords, Offset(text, FirstNear(i)), Offset(text, LastNear(text, j)))
  }

  /** The search keeps the promise exactly when both edges cover the documented characters. */
  lemma CharacterWindowIff(chars: Keywords.Characters, text: string, i: nat, j: nat)
    requires i <= j <= |text|
    ensures Offset(text, i) <= Offset(text, j) <= |Encode(text)|
    ensures AsDocumented(chars, text, i, j) <==> CoversCharacters(text, i, j)
  {
    hide Encode, Offset, WindowStart, WindowEnd;
    Slice(text, i, j);
    BytesInsideCharacters(text, i, j);
    LeftEdgeIff(text, i);
    RightEdgeIff(text, j);
    if AsDocumented(chars, text, i, j) {
      WholeWindowFound(chars, text, i, j);
    }
  }

  /** All documented characters together are a keyword, and it stands nowhere else in the window. */
  lemma WholeWindowFound(chars: Keywords.Characters, text: string, i: nat, j: nat)
    requires i <= j <= |text| && Offset(text, i) <= Offset(text, j) <= |Encode(text)|
    requires AsDocumented(chars, text, i, j)
    ensures WindowStart(Encode(text), Offset(text, i)) <= Offset(text, FirstNear(i))
    ensures Offset(text, LastNear(text, j)) <= WindowEnd(Encode(text), Offset(text, j))
  {
    hide Encode, Offset, WindowStart, WindowEnd;
    var lo, hi := FirstNear(i), LastNear(text, j);
    var from, to := WindowStart(Encode(text), Offset(text, i)), WindowEnd(Encode(text), Offset(text, j));
    BytesInsideCharacters(text, i, j);
    var keyword := chars.Lowercase(text)[lo..hi];
    assert OccursInBytes(chars, text, keyword, Offset(text, lo), Offset(text, hi), lo);
    assert OccursWithin(chars, text, [keyword][0], Offset(text, lo), Offset(text, hi));
    assert AnyOccursWithin(chars, text, [keyword], from, to);
    var p: nat :| OccursInBytes(chars, text, keyword, from, to, p);
    OffsetOrder(text, lo, p);
    OffsetOrder(text, p + |keyword|, hi);
  }

  function Accents(n: nat): (r: string)
    ensures |r| == n && forall i :: 0 <= i < n ==> r[i] == 0xE9 as char
  {
    seq(n, i => 0xE9 as char)
  }

  lemma {:induction false} AccentsTakeTwoBytes(n: nat)
    ensures |Encode(Accents(n))| == 2 * n
  {
    if n > 0 {
      AccentsTakeTwoBytes(n - 1);
      assert Accents(n)[1..] == Accents(n - 1);
    }
  }

  lemma LabelBytes()
    ensures |Encode("")| == 0 && |Encode("d")| == 1 && |Encode("dob")| == 3
  {
    assert "dob"[1..] == "ob" && "ob"[1..] == "b" && "b"[1..] == "" && "d"[1..] == "";
  }

  function Labelled(n: nat): string {
    "dob" + Accents(n) + "1"
  }

  lemma OnlyAtStart(n: nat, p: nat)
    ensures OccursAt("dob", Labelled(n), p) ==> p == 0
  {
    if OccursAt("dob", Labelled(n), p) {
      assert Labelled(n)[p] == Labelled(n)[p..p + 3][0] == 'd';
    }
  }

  /** The window counts bytes, not characters: a label in front of two-byte characters, all of it within the
      documented forty characters, is found up to eighteen of them and missed from nineteen on. */
  lemma NearKeywordMissed(chars: Keywords.Characters, n: nat)
    requires n + 3 <= WINDOW && chars.Lowercase(Labelled(n)) == Labelled(n)
    ensures OccursAt("dob", chars.Lowercase(Labelled(n)), 0)
    ensures var start := Offset(Labelled(n), 3 + n); var b := Encode(Labelled(n));
            && start <= |b|
            && (OccursWithin(chars, Labelled(n), "dob", WindowStart(b, start), WindowEnd(b, |b|)) <==> n <= 18)
  {
    hide Encode, Offset, Floor, Ceil;
    var text := Labelled(n);
    var b := Encode(text);
    LabelOffsets(n);
    LeftEdgeIff(text, 3 + n);
    var from, to := WindowStart(b, Offset(text, 3 + n)), WindowEnd(b, |b|);
    if OccursWithin(chars, text, "dob", from, to) {
      var p: nat :| OccursInBytes(chars, text, "dob", from, to, p);
      OnlyAtStart(n, p);
    }
    if n <= 18 {
      assert OccursInBytes(chars, text, "dob", from, to, 0);
    }
  }

  lemma LabelOffsets(n: nat)
    ensures var text := Labelled(n);
            && Offset(text, 0) == 0 && Offset(text, 1) == 1 && Offset(text, 3) == 3 && Offset(text, 3 + n) == 3 + 2 * n
            && 3 + 2 * n <= |Encode(text)|
  {
    hide Encode;
    var text := Labelled(n);
    assert text[..0] == "" && text[..1] == "d" && text[..3] == "dob" && text[..3 + n] == "dob" + Accents(n);
    LabelBytes();
    EncodeConcat("dob", Accents(n));
    AccentsTakeTwoBytes(n);
    OffsetsAreBoundaries(text, 3 + n);
  }

  // ----- without regard to case -----

  /** The text splits into a front, a part that spells the keyword in lower case, and a back, with the part between the
      two byte offsets. */
  ghost predicate SpelledWithin(chars: Keywords.Characters, text: string, keyword: string, from: nat, to: nat,
      front: string, part: string, back: string)
  {
    && text == front + part + back && chars.Lowercase(part) == keyword
    && from <= |Encode(front)| && |Encode(front + part)| <= to
  }

  /** A keyword counts in any case. */
  lemma WithinIff(chars: Keywords.Characters, text: string, keyword: string, from: nat, to: nat)
    ensures OccursWithin(chars, text, keyword, from, to)
            <==> exists front, part, back :: SpelledWithin(chars, text, keyword, from, to, front, part, back)
  {
    hide Encode;
    if OccursWithin(chars, text, keyword, from, to) {
      var p: nat :| OccursInBytes(chars, text, keyword, from, to, p);
      var end := p + |keyword|;
      var front, part, back := text[..p], text[p..end], text[end..];
      assert chars.Lowercase(part) == chars.Lowercase(text)[p..end];
      assert front + part == text[..end] && text == front + part + back;
      assert SpelledWithin(chars, text, keyword, from, to, front, part, back);
    }
    if front, part, back :| SpelledWithin(chars, text, keyword, from, to, front, part, back) {
      var p := |front|;
      assert |part| == |keyword|;
      assert text[..p] == front && text[..p + |keyword|] == front + part && text[p..p + |keyword|] == part;
      assert chars.Lowercase(text)[p..p + |keyword|] == chars.Lowercase(part);
      assert OccursInBytes(chars, text, keyword, from, to, p);
    }
  }
}
