/** The scan for `<w:t>` runs in a document body (crates/file_inspector/src/lib.rs). */
module DocxRuns {
  import opened Wrappers
  import opened Replace
  import opened Docx

  const OPEN := "<w:t"
  const CLOSE := "</w:t>"

  /** What one turn of the scan finds: nothing more, a self-closing run, or a run with content. */
  datatype Turn = Stop | SelfClosing(rest: string) | Content(text: string, rest: string)

  function NextTurn(rest: string): (t: Turn)
    ensures t.SelfClosing? || t.Content? ==> |t.rest| < |rest|
  {
    match Find(rest, OPEN)
    case None => Stop
    case Some(startTag) =>
      var afterOpen := rest[startTag..];
      match Find(afterOpen, ">")
      case None => Stop
      case Some(gt) =>
        if gt > 0 && afterOpen[gt - 1] == '/' then SelfClosing(afterOpen[gt + 1..])
        else
          var content := afterOpen[gt + 1..];
          match Find(content, CLOSE)
          case None => Stop
          case Some(end) => Content(content[..end], content[end + |CLOSE|..])
  }

  function ExtractRuns(rest: string): string
    decreases |rest|
  {
    match NextTurn(rest)
    case Stop => ""
    case SelfClosing(rest') => ExtractRuns(rest')
    case Content(text, rest') => Decode(text) + " " + ExtractRuns(rest')
  }

  /** `extract_w_t_runs`. */
  method ExtractWtRuns(xml: string) returns (out: string)
    ensures out == ExtractRuns(xml)
  {
    hide Find, FindFrom, Decode, NextTurn;
    out := "";
    var rest := xml;
    Regroup(ExtractRuns(xml), "", "");
    while true
      invariant out + ExtractRuns(rest) == ExtractRuns(xml)
      decreases |rest|
    {
      TurnIs(rest);
      Regroup(out, "", "");
      var startTag := Find(rest, OPEN);
      if startTag == None {
        break;
      }
      var afterOpen := rest[startTag.value..];
      var gt := Find(afterOpen, ">");
      if gt == None {
        break;
      }
      if gt.value > 0 && afterOpen[gt.value - 1] == '/' {
        rest := afterOpen[gt.value + 1..];
        continue;
      }
      var content := afterOpen[gt.value + 1..];
      var end := Find(content, CLOSE);
      if end == None {
        break;
      }
      var text := Decode(content[..end.value]);
      rest := content[end.value + |CLOSE|..];
      Regroup(out, text, " ");
      Regroup(out, text + " ", ExtractRuns(rest));
      out := out + text;
      out := out + " ";
    }
  }

  lemma TurnIs(rest: string)
    ensures match Find(rest, OPEN)
            case None => NextTurn(rest) == Stop
            case Some(startTag) =>
              && startTag <= |rest|
              && var afterOpen := rest[startTag..];
                 match Find(afterOpen, ">")
                 case None => NextTurn(rest) == Stop
                 case Some(gt) =>
                   && gt + 1 <= |afterOpen| <= |rest|
                   && if gt > 0 && afterOpen[gt - 1] == '/' then NextTurn(rest) == SelfClosing(afterOpen[gt + 1..])
                      else var content := afterOpen[gt + 1..];
                           match Find(content, CLOSE)
                           case None => NextTurn(rest) == Stop
                           case Some(end) =>
                             end + |CLOSE| <= |content|
                             && NextTurn(rest) == Content(content[..end], content[end + |CLOSE|..])
  {
  }

  // ----- documents -----

  /** One run as a word processor writes it, with the markup before it; an empty run or any other self-closing tag
      that begins with the same four characters, such as a tab's; and a run behind an open tag that begins so, such
      as a table's, with the markup between that tag and the run. */
  datatype Run =
    | Run(gap: string, attributes: string, text: string)
    | EmptyRun(gap: string, attributes: string)
    | RunBehind(gap: string, tag: string, between: string, attributes: string, text: string)

  function RunBytes(r: Run): string {
    r.gap + (FirstTag(r) + (if r.EmptyRun? then ">" else ">" + (Inside(r) + CLOSE)))
  }

  function Document(runs: seq<Run>, end: string): string {
    if runs == [] then end else RunBytes(runs[0]) + Document(runs[1..], end)
  }

  /** The tag that a turn of the scan stops at, without its bracket. */
  function FirstTag(r: Run): string {
    match r
    case Run(_, attributes, _) => OPEN + attributes
    case EmptyRun(_, attributes) => OPEN + attributes + "/"
    case RunBehind(_, tag, _, _, _) => OPEN + tag
  }

  /** What stands between that tag and the end of the run. */
  function Inside(r: Run): string {
    match r
    case Run(_, _, text) => Encode(text)
    case EmptyRun(_, _) => ""
    case RunBehind(_, _, between, attributes, text) => between + OPEN + attributes + ">" + Encode(text)
  }

  predicate OpenTag(rest: string) {
    '>' !in rest && (rest == "" || rest[|rest| - 1] != '/')
  }

  /** No `<w:t` in front of the first tag; no `>` in a tag, and no `/` at the end of one that is not self-closing; no
      end of a run in front of the run. */
  ghost predicate WellFormed(r: Run) {
    && !Occurs(OPEN, r.gap)
    && match r
       case Run(_, attributes, _) => OpenTag(attributes)
       case EmptyRun(_, attributes) => '>' !in attributes
       case RunBehind(_, tag, between, attributes, _) =>
         OpenTag(tag) && OpenTag(attributes) && !Occurs(CLOSE, between + OPEN + attributes + ">")
  }

  /** The texts of the runs, each with what the scan takes for text in front of it. */
  function Items(runs: seq<Run>): seq<(string, string)> {
    if runs == [] then []
    else if runs[0].EmptyRun? then Items(runs[1..])
    else [Item(runs[0])] + Items(runs[1..])
  }

  function Item(r: Run): (string, string)
    requires !r.EmptyRun?
  {
    (if r.RunBehind? then Decode(r.between + OPEN + r.attributes) + ">" else "", r.text)
  }

  /** What the scan returns. */
  function Extracted(items: seq<(string, string)>): string {
    if items == [] then "" else items[0].0 + Twice(items[0].1) + " " + Extracted(items[1..])
  }

  /** What it is for: the texts, each followed by a space. */
  function Wanted(items: seq<(string, string)>): string {
    if items == [] then "" else items[0].1 + " " + Wanted(items[1..])
  }

  /** A search pattern whose first character does not come back in it is found right behind a text without it. */
  lemma FindBehind(front: string, pattern: string, rest: string)
    requires pattern != "" && pattern[0] !in pattern[1..] && !Occurs(pattern, front)
    ensures Find(front + pattern + rest, pattern) == Some(|front|)
  {
    var s := front + pattern + rest;
    assert s[|front|..|front| + |pattern|] == pattern;
    forall j: nat | j < |front|
      ensures !OccursAt(pattern, s, j)
    {
      NotBefore(front, pattern, rest, j);
    }
    assert OccursAt(pattern, s, |front|);
    assert Find(s, pattern).Some?;
  }

  lemma NotBefore(front: string, pattern: string, rest: string, j: nat)
    requires pattern != "" && pattern[0] !in pattern[1..] && !Occurs(pattern, front)
    requires j < |front|
    ensures !OccursAt(pattern, front + pattern + rest, j)
  {
    var s, k := front + pattern + rest, |front| - j;
    if k < |pattern| {
      InTail(pattern, k);
      if OccursAt(pattern, s, j) {
        OccurrenceChars(pattern, s, j, k);
        assert false;
      }
    } else if OccursAt(pattern, s, j) {
      OccursInFront(front, pattern + rest, pattern, j);
      assert false;
    }
  }

  lemma InTail(pattern: string, k: nat)
    requires 1 <= k < |pattern|
    ensures pattern[k] in pattern[1..]
  {
    assert pattern[1..][k - 1] == pattern[k];
  }

  lemma OccursInFront(front: string, more: string, pattern: string, j: nat)
    requires j + |pattern| <= |front| && OccursAt(pattern, front + more, j)
    ensures Occurs(pattern, front)
  {
    assert front[j..j + |pattern|] == (front + more)[j..j + |pattern|];
    assert OccursAt(pattern, front, j);
  }

  lemma CharAbsent(s: string, c: char)
    requires c !in s
    ensures !Occurs([c], s)
  {
    if Occurs([c], s) {
      var i: nat :| OccursAt([c], s, i);
      OccurrenceChars([c], s, i, 0);
      assert false;
    }
  }

  lemma {:induction false} EncodedHasNoLt(text: string)
    ensures '<' !in Encode(text)
  {
    if text != "" {
      EncodedHasNoLt(text[1..]);
    }
  }

  lemma CloseAbsent(s: string)
    requires '<' !in s
    ensures !Occurs(CLOSE, s)
  {
    if Occurs(CLOSE, s) {
      var i: nat :| OccursAt(CLOSE, s, i);
      OccurrenceChars(CLOSE, s, i, 0);
      assert false;
    }
  }

  /** Each run is one turn of the scan. */
  lemma RunIsOneTurn(r: Run, rest: string)
    requires WellFormed(r)
    ensures NextTurn(RunBytes(r) + rest) == if r.EmptyRun? then SelfClosing(rest) else Content(Inside(r), rest)
  {
    hide *;
    var tail := if r.EmptyRun? then ">" + rest else ">" + (Inside(r) + (CLOSE + rest));
    RunSplit(r, rest, tail);
    TagFound(r, tail);
    TurnIs(RunBytes(r) + rest);
    if !r.EmptyRun? {
      ContentFound(r, rest);
    }
  }

  lemma RunSplit(r: Run, rest: string, tail: string)
    requires tail == if r.EmptyRun? then ">" + rest else ">" + (Inside(r) + (CLOSE + rest))
    ensures RunBytes(r) + rest == r.gap + (FirstTag(r) + tail)
  {
    hide FirstTag, Inside;
    var tag, inside := FirstTag(r), Inside(r);
    if r.EmptyRun? {
      assert r.gap + (tag + ">") + rest == r.gap + (tag + (">" + rest));
    } else {
      assert inside + CLOSE + rest == inside + (CLOSE + rest);
      assert r.gap + (tag + (">" + (inside + CLOSE))) + rest == r.gap + (tag + (">" + (inside + CLOSE + rest)));
    }
  }

  lemma TagFound(r: Run, tail: string)
    requires WellFormed(r) && tail != "" && tail[0] == '>'
    ensures var tag := FirstTag(r);
            && Find(r.gap + (tag + tail), OPEN) == Some(|r.gap|)
            && (r.gap + (tag + tail))[|r.gap|..] == tag + tail
            && Find(tag + tail, ">") == Some(|tag|) && |tag| > 0
            && (tag + tail)[|tag|..] == tail && (tag + tail)[|tag| + 1..] == tail[1..]
            && ((tag + tail)[|tag| - 1] == '/' <==> r.EmptyRun?)
  {
    hide Find, FindFrom, Occurs, OccursAt;
    var tag := FirstTag(r);
    var more := tag[|OPEN|..] + tail;
    assert tag == OPEN + tag[|OPEN|..];
    assert r.gap + (tag + tail) == r.gap + OPEN + more;
    FindBehind(r.gap, OPEN, more);
    CharAbsent(tag, '>');
    assert tag + tail == tag + ">" + tail[1..];
    FindBehind(tag, ">", tail[1..]);
  }

  lemma ContentFound(r: Run, rest: string)
    requires WellFormed(r) && !r.EmptyRun?
    ensures var content := (">" + (Inside(r) + (CLOSE + rest)))[1..];
            && content == Inside(r) + (CLOSE + rest)
            && Find(content, CLOSE) == Some(|Inside(r)|)
            && content[..|Inside(r)|] == Inside(r)
            && content[|Inside(r)| + |CLOSE|..] == rest
  {
    hide Find, FindFrom, Encode, Occurs, OccursAt;
    NoCloseInside(r);
    FindBehind(Inside(r), CLOSE, rest);
    Regroup(Inside(r), CLOSE, rest);
  }

  lemma NoCloseInside(r: Run)
    requires WellFormed(r) && !r.EmptyRun?
    ensures !Occurs(CLOSE, Inside(r))
  {
    hide Encode, Occurs;
    EncodedHasNoLt(r.text);
    if r.Run? {
      CloseAbsent(Encode(r.text));
    } else {
      CloseBehindBracket(r.between + OPEN + r.attributes, Encode(r.text));
    }
  }

  /** No end of a run begins in front of a bracket and ends behind it, nor in an encoded text. */
  lemma CloseBehindBracket(a: string, b: string)
    requires !Occurs(CLOSE, a + ">") && '<' !in b
    ensures !Occurs(CLOSE, a + ">" + b)
  {
    hide Occurs;
    var s := a + ">" + b;
    forall i: nat ensures !OccursAt(CLOSE, s, i) {
      if OccursAt(CLOSE, s, i) {
        OccurrenceChars(CLOSE, s, i, 0);
        if i + |CLOSE| <= |a| + 1 {
          assert s == (a + ">") + b;
          OccursInFront(a + ">", b, CLOSE, i);
        } else if i <= |a| {
          OccurrenceChars(CLOSE, s, i, |a| - i);
        }
      }
    }
    NeverOccurs(CLOSE, s);
  }

  lemma NeverOccurs(pattern: string, s: string)
    requires forall i: nat :: !OccursAt(pattern, s, i)
    ensures !Occurs(pattern, s)
  {
  }

  lemma NoMoreRuns(end: string)
    requires !Occurs(OPEN, end)
    ensures ExtractRuns(end) == ""
  {
    assert Find(end, OPEN) == None;
  }

  /** For every document: the decoded text of every run in order, each followed by a space; and in front of a run
      behind such an open tag, the markup since that tag. */
  lemma {:induction false} RunsExtracted(runs: seq<Run>, end: string)
    requires (forall i :: 0 <= i < |runs| ==> WellFormed(runs[i])) && !Occurs(OPEN, end)
    ensures ExtractRuns(Document(runs, end)) == Extracted(Items(runs))
  {
    if runs == [] {
      NoMoreRuns(end);
    } else {
      hide WellFormed, NextTurn, Occurs, RunBytes, Encode, Decode, Twice, Inside, Extracted, Items;
      RunsExtracted(runs[1..], end);
      RunIsOneTurn(runs[0], Document(runs[1..], end));
      FirstItem(runs);
    }
  }

  lemma FirstItem(runs: seq<Run>)
    requires runs != []
    ensures Extracted(Items(runs))
            == (if runs[0].EmptyRun? then "" else Decode(Inside(runs[0])) + " ") + Extracted(Items(runs[1..]))
  {
    hide Encode, Decode, Twice, Inside, Item;
    var r, more := runs[0], Items(runs[1..]);
    if r.EmptyRun? {
      assert Items(runs) == more && "" + Extracted(more) == Extracted(more);
    } else {
      InsideDecoded(r);
      assert Items(runs)[0] == Item(r) && Items(runs)[1..] == more;
    }
  }

  lemma InsideDecoded(r: Run)
    requires !r.EmptyRun?
    ensures Decode(Inside(r)) == Item(r).0 + Twice(Item(r).1)
  {
    hide Encode, Decode, Twice;
    DecodeEncode(r.text);
    if r.RunBehind? {
      var a := r.between + OPEN + r.attributes;
      DecodeAcross(a, '>', Encode(r.text));
      assert Inside(r) == a + ['>'] + Encode(r.text);
    } else {
      assert "" + Twice(r.text) == Twice(r.text);
    }
  }

  // ----- when the texts come back -----

  /** What is put in front of a text is nothing, or ends with a bracket. */
  predicate Fronted(items: seq<(string, string)>) {
    forall i :: 0 <= i < |items| ==> items[i].0 == "" || items[i].0[|items[i].0| - 1] == '>'
  }

  predicate SomeFront(items: seq<(string, string)>) {
    exists i :: 0 <= i < |items| && items[i].0 != ""
  }

  function FrontLength(items: seq<(string, string)>): nat {
    if items == [] then 0 else |items[0].0| + FrontLength(items[1..])
  }

  /** All parts decoded once more. */
  function Again(items: seq<(string, string)>): seq<(string, string)> {
    if items == [] then [] else [(Twice(items[0].0), Twice(items[0].1))] + Again(items[1..])
  }

  lemma TwiceOfFront(front: string)
    requires front == "" || front[|front| - 1] == '>'
    ensures front == "" ==> Twice(front) == ""
    ensures front != "" ==> Twice(front) != "" && Twice(front)[|Twice(front)| - 1] == '>'
    ensures forall t: string :: Twice(front + t) == Twice(front) + Twice(t)
  {
    hide Twice;
    EmptyTwice();
    if front == "" {
      assert forall t: string :: front + t == t && "" + Twice(t) == Twice(t);
    } else {
      var a := front[..|front| - 1];
      assert front == a + ['>'] + "";
      TwiceAcross(a, '>', "");
      forall t: string ensures Twice(front + t) == Twice(front) + Twice(t) {
        TwiceAcross(a, '>', t);
        assert front + t == a + ['>'] + t;
      }
    }
  }

  lemma TwiceOfItem(front: string, text: string, rest: string)
    requires front == "" || front[|front| - 1] == '>'
    ensures Twice(front + text + " " + rest) == Twice(front) + Twice(text) + " " + Twice(rest)
  {
    hide Twice;
    TwiceOfFront(front);
    TwiceAcross(text, ' ', rest);
    Reassociate(front, text, " ", rest);
    Reassociate(Twice(front), Twice(text), " ", Twice(rest));
  }

  lemma EmptyTwice()
    ensures Twice("") == ""
  {
    hide ReplaceEntity;
    TwiceShortens("");
    if !NoLiterals("") {
      assert false;
    }
  }

  lemma {:induction false} AgainIs(items: seq<(string, string)>)
    requires Fronted(items)
    ensures Twice(Extracted(items)) == Extracted(Again(items)) && Twice(Wanted(items)) == Wanted(Again(items))
    ensures Fronted(Again(items)) && (SomeFront(items) ==> SomeFront(Again(items)))
    ensures |Extracted(items)| == FrontLength(items) + |Wanted(Again(items))|
    ensures SomeFront(items) ==> FrontLength(items) > 0
  {
    hide Twice, Fronted, SomeFront;
    EmptyTwice();
    if items == [] {
      NoItems();
    } else {
      var (front, text) := items[0];
      FirstFronted(items);
      AgainIs(items[1..]);
      TwiceOfFront(front);
      var x, y := Extracted(items[1..]), Wanted(items[1..]);
      TwiceOfItem(front, Twice(text), x);
      TwiceAcross(text, ' ', y);
      assert Wanted(items) == text + [' '] + y;
      assert Again(items)[0] == (Twice(front), Twice(text)) && Again(items)[1..] == Again(items[1..]);
      FrontsAgain(items);
    }
  }

  lemma FrontsAgain(items: seq<(string, string)>)
    requires items != [] && Fronted(items) && Fronted(Again(items[1..]))
    requires SomeFront(items[1..]) ==> SomeFront(Again(items[1..])) && FrontLength(items[1..]) > 0
    ensures Fronted(Again(items)) && (SomeFront(items) ==> SomeFront(Again(items)) && FrontLength(items) > 0)
  {
    hide Twice, Fronted, SomeFront;
    AgainShape(items);
    FirstFronted(items);
    FirstFronted(Again(items));
    TwiceOfFront(items[0].0);
  }

  lemma AgainShape(items: seq<(string, string)>)
    requires items != []
    ensures Again(items) != [] && Again(items)[0].0 == Twice(items[0].0) && Again(items)[1..] == Again(items[1..])
  {
    hide Twice;
  }

  lemma FirstFronted(items: seq<(string, string)>)
    requires items != []
    ensures Fronted(items)
            <==> (items[0].0 == "" || items[0].0[|items[0].0| - 1] == '>') && Fronted(items[1..])
    ensures SomeFront(items) <==> items[0].0 != "" || SomeFront(items[1..])
  {
    var more := items[1..];
    assert forall i :: 0 <= i < |more| ==> more[i] == items[i + 1];
    assert forall i :: 1 <= i < |items| ==> items[i] == more[i - 1];
    if SomeFront(more) {
      var i :| 0 <= i < |more| && more[i].0 != "";
      assert items[i + 1].0 != "";
    }
  }

  /** With anything in front of any text, what is returned is never what is wanted: if it were, the same would hold of
      all parts decoded once more, which are shorter, and so on without end. */
  lemma {:induction false} FrontShows(items: seq<(string, string)>)
    requires Fronted(items) && SomeFront(items)
    ensures Extracted(items) != Wanted(items)
    decreases |Wanted(items)|
  {
    hide Twice, Extracted, Wanted, Again, Fronted, SomeFront, FrontLength;
    if Extracted(items) == Wanted(items) {
      AgainIs(items);
      FrontShows(Again(items));
    }
  }

  lemma {:induction false} WantedLength(items: seq<(string, string)>)
    requires !SomeFront(items)
    ensures |Extracted(items)| <= |Wanted(items)|
    ensures AllPlain(items) ==> Extracted(items) == Wanted(items)
    ensures !AllPlain(items) ==> |Extracted(items)| < |Wanted(items)|
  {
    hide Twice, NoLiterals, SomeFront, AllPlain;
    if items == [] {
      NoItems();
    } else {
      FirstFronted(items);
      FirstPlain(items);
      WantedLength(items[1..]);
      TwiceShortens(items[0].1);
      assert items[0].0 == "" && "" + Twice(items[0].1) == Twice(items[0].1);
    }
  }

  ghost predicate AllPlain(items: seq<(string, string)>) {
    forall i :: 0 <= i < |items| ==> NoLiterals(items[i].1)
  }

  predicate NoneBehind(runs: seq<Run>) {
    forall i :: 0 <= i < |runs| ==> !runs[i].RunBehind?
  }

  ghost predicate AllTextsPlain(runs: seq<Run>) {
    forall i :: 0 <= i < |runs| && !runs[i].EmptyRun? ==> NoLiterals(runs[i].text)
  }

  /** An item for every run, and nothing in front of those that stand behind no such tag. */
  lemma {:induction false} ItemsAre(runs: seq<Run>)
    ensures Fronted(Items(runs)) && (SomeFront(Items(runs)) <==> !NoneBehind(runs))
    ensures AllPlain(Items(runs)) <==> AllTextsPlain(runs)
  {
    hide Decode, NoLiterals, Fronted, SomeFront, AllPlain, NoneBehind, AllTextsPlain;
    if runs == [] {
      NoItems();
    } else {
      ItemsAre(runs[1..]);
      FirstOfRuns(runs);
      if !runs[0].EmptyRun? {
        var items := Items(runs);
        assert items[0] == Item(runs[0]) && items[1..] == Items(runs[1..]);
        FirstFronted(items);
        FirstPlain(items);
      }
    }
  }

  lemma NoItems()
    ensures Fronted([]) && !SomeFront([]) && NoneBehind([]) && AllPlain([]) && AllTextsPlain([])
  {
  }

  lemma FirstPlain(items: seq<(string, string)>)
    requires items != []
    ensures AllPlain(items) <==> NoLiterals(items[0].1) && AllPlain(items[1..])
  {
    hide NoLiterals;
    var more := items[1..];
    assert forall i :: 0 <= i < |more| ==> more[i] == items[i + 1];
    assert forall i :: 1 <= i < |items| ==> items[i] == more[i - 1];
  }

  lemma FirstOfRuns(runs: seq<Run>)
    requires runs != []
    ensures NoneBehind(runs) <==> !runs[0].RunBehind? && NoneBehind(runs[1..])
    ensures AllTextsPlain(runs) <==> (runs[0].EmptyRun? || NoLiterals(runs[0].text)) && AllTextsPlain(runs[1..])
  {
    hide NoLiterals;
    var more := runs[1..];
    assert forall i :: 0 <= i < |more| ==> more[i] == runs[i + 1];
    assert forall i :: 1 <= i < |runs| ==> runs[i] == more[i - 1];
  }

  /** The scan returns exactly the texts of the runs, each followed by a space, if and only if no run stands behind an
      open tag that begins like its own, and no run's text spells one of the four entities that the decoder sees
      again after ampersands. */
  lemma RunTextsIff(runs: seq<Run>, end: string)
    requires (forall i :: 0 <= i < |runs| ==> WellFormed(runs[i])) && !Occurs(OPEN, end)
    ensures ExtractRuns(Document(runs, end)) == Wanted(Items(runs)) <==> NoneBehind(runs) && AllTextsPlain(runs)
  {
    hide Occurs, WellFormed, ExtractRuns, Document, NoLiterals, Items, Extracted, Wanted, Fronted, SomeFront;
    hide NoneBehind, AllTextsPlain, AllPlain;
    RunsExtracted(runs, end);
    ItemsAre(runs);
    if SomeFront(Items(runs)) {
      FrontShows(Items(runs));
    } else {
      WantedLength(Items(runs));
    }
  }

  // ----- a document -----

  /** A self-closing run, and one with an attribute. */
  lemma KnownDocument()
    ensures ExtractRuns("<w:t/><w:t x>a</w:t>") == "a "
  {
    hide ExtractRuns, Twice, Occurs, Encode, Decode;
    var runs := [EmptyRun("", ""), Run("", " x", "a")];
    KnownBytes();
    KnownRuns();
    RunsExtracted(runs, "");
    TwiceShortens("a");
    NothingSpelled("a");
    assert runs[1..] == [Run("", " x", "a")] && runs[1..][1..] == [];
    assert Items([]) == [] && Items(runs[1..]) == [("", "a")];
    assert [("", "a")][1..] == [];
  }

  lemma KnownRuns()
    ensures WellFormed(EmptyRun("", "")) && WellFormed(Run("", " x", "a")) && !Occurs(OPEN, "")
  {
  }

  lemma KnownBytes()
    ensures Document([EmptyRun("", ""), Run("", " x", "a")], "") == "<w:t/><w:t x>a</w:t>"
  {
    var e, r := EmptyRun("", ""), Run("", " x", "a");
    assert [e, r][1..] == [r] && [r][1..] == [];
    assert Encode("a") == "a" by {
      assert "a"[1..] == "" && Written("", ALL) == "";
    }
    assert RunBytes(e) == "<w:t/>" && RunBytes(r) == "<w:t x>a</w:t>";
    assert Document([], "") == "" && Document([r], "") == RunBytes(r) + "";
  }
}
