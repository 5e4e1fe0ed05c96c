/** The plain-text branch of `apply_redactions` (crates/common/src/lib.rs): one leftmost replacement pass
    per finding, in order, and when that leaves no snippet behind. */
module Redaction {
  import opened Wrappers
  import opened Verdicts
  import opened Replace
  import Keywords

  /** One pass: a finding without a replacement is skipped. */
  function Pass(f: Finding, text: string): string {
    match f.replacement
    case Some(r) => Replaced(text, f.snippet, r)
    case None => text
  }

  function Sanitized(findings: seq<Finding>, text: string): string {
    if findings == [] then text else Sanitized(findings[1..], Pass(findings[0], text))
  }

  method RedactText(text: string, findings: seq<Finding>) returns (sanitized: string)
    ensures sanitized == Sanitized(findings, text)
  {
    sanitized := text;
    assert findings[0..] == findings;
    for i := 0 to |findings|
      invariant Sanitized(findings[i..], sanitized) == Sanitized(findings, text)
    {
      assert findings[i..][1..] == findings[i + 1..];
      if findings[i].replacement.Some? {
        sanitized := Replaced(sanitized, findings[i].snippet, findings[i].replacement.value);
      }
    }
  }

  /** No snippet that was to be replaced is left. */
  ghost predicate Clean(findings: seq<Finding>, text: string) {
    forall i :: 0 <= i < |findings| && findings[i].replacement.Some? ==> !Occurs(findings[i].snippet, text)
  }

  predicate IsBracket(c: char) {
    c == '[' || c == ']'
  }

  /** The replacements every scanner writes, "[...]", for snippets that contain no bracket. */
  predicate Bracketed(f: Finding) {
    f.replacement.Some? ==>
      && f.snippet != "" && '[' !in f.snippet && ']' !in f.snippet
      && var r := f.replacement.value;
         |r| >= 2 && r[0] == '[' && r[|r| - 1] == ']'
  }

  predicate AllBracketed(findings: seq<Finding>) {
    forall i :: 0 <= i < |findings| ==> Bracketed(findings[i])
  }

  // ----- brackets split a text into parts that are redacted on their own -----

  lemma {:induction false} RedactAcross(findings: seq<Finding>, a: string, c: char, b: string)
    requires AllBracketed(findings) && IsBracket(c)
    ensures Sanitized(findings, a + [c] + b) == Sanitized(findings, a) + [c] + Sanitized(findings, b)
    decreases |findings|
  {
    if findings != [] {
      var f := findings[0];
      if f.replacement.Some? {
        ReplacedAcross(f.snippet, f.replacement.value, a, c, b);
      }
      RedactAcross(findings[1..], Pass(f, a), c, Pass(f, b));
    }
  }

  lemma CleanAcross(findings: seq<Finding>, a: string, c: char, b: string)
    requires AllBracketed(findings) && IsBracket(c)
    ensures Clean(findings, a + [c] + b) <==> Clean(findings, a) && Clean(findings, b)
  {
    forall i | 0 <= i < |findings| && findings[i].replacement.Some?
      ensures Occurs(findings[i].snippet, a + [c] + b)
              <==> Occurs(findings[i].snippet, a) || Occurs(findings[i].snippet, b)
    {
      OccursAcross(findings[i].snippet, a, c, b);
    }
  }

  lemma RedactBracketed(findings: seq<Finding>, r: string)
    requires AllBracketed(findings) && |r| >= 2 && r[0] == '[' && r[|r| - 1] == ']'
    ensures Sanitized(findings, r)
            == Sanitized(findings, "") + ['['] + (Sanitized(findings, r[1..|r| - 1]) + [']'] + Sanitized(findings, ""))
    ensures Clean(findings, r) <==> Clean(findings, r[1..|r| - 1])
  {
    var w := r[1..|r| - 1];
    assert r == "" + ['['] + (w + [']'] + "");
    RedactAcross(findings, "", '[', w + [']'] + "");
    RedactAcross(findings, w, ']', "");
    CleanAcross(findings, "", '[', w + [']'] + "");
    CleanAcross(findings, w, ']', "");
    assert Clean(findings, "");
  }

  /** Around one replacement: the text before it, the replacement and the text after it. */
  lemma RedactAround(findings: seq<Finding>, u: string, r: string, v: string)
    requires AllBracketed(findings) && |r| >= 2 && r[0] == '[' && r[|r| - 1] == ']'
    ensures var w := r[1..|r| - 1];
            Sanitized(findings, u + r + v)
                == Sanitized(findings, u) + ['['] + (Sanitized(findings, w) + [']'] + Sanitized(findings, v))
  {
    var w := r[1..|r| - 1];
    assert u + r + v == u + ['['] + (w + [']'] + v);
    RedactAcross(findings, u, '[', w + [']'] + v);
    RedactAcross(findings, w, ']', v);
  }

  /** Passes whose snippets are absent do nothing. */
  lemma {:induction false} EarlierAbsent(findings: seq<Finding>, i: nat, text: string)
    requires i <= |findings| && AllBracketed(findings)
    requires Clean(findings[..i], text)
    ensures Sanitized(findings, text) == Sanitized(findings[i..], text)
  {
    if i > 0 {
      var f := findings[0];
      assert f == findings[..i][0];
      if f.replacement.Some? {
        ReplacedAbsent(text, f.snippet, f.replacement.value);
      }
      assert findings[1..][..i - 1] == findings[..i][1..];
      assert findings[1..][i - 1..] == findings[i..];
      EarlierAbsent(findings[1..], i - 1, text);
    }
  }

  lemma CleanPart(findings: seq<Finding>, text: string, lo: nat, hi: nat)
    requires lo <= hi <= |text| && Clean(findings, text)
    ensures Clean(findings, text[lo..hi])
  {
    forall i | 0 <= i < |findings| && findings[i].replacement.Some?
      ensures !Occurs(findings[i].snippet, text[lo..hi])
    {
      if Occurs(findings[i].snippet, text[lo..hi]) {
        OccursInPart(findings[i].snippet, text, lo, hi);
      }
    }
  }

  lemma CleanExtend(findings: seq<Finding>, i: nat, text: string)
    requires i < |findings| && Clean(findings[..i], text)
    requires findings[i].replacement.Some? ==> !Occurs(findings[i].snippet, text)
    ensures Clean(findings[..i + 1], text)
  {
    var more := findings[..i + 1];
    forall k | 0 <= k < |more| && more[k].replacement.Some?
      ensures !Occurs(more[k].snippet, text)
    {
      assert more[k] == if k < i then findings[..i][k] else findings[i];
    }
  }

  // ----- when redaction is complete -----

  /** No earlier finding's snippet occurs in the snippet of finding i, so its own pass is the one that meets it. */
  ghost predicate Unshadowed(findings: seq<Finding>, i: nat)
    requires i < |findings|
  {
    findings[i].replacement.Some? && Clean(findings[..i], findings[i].snippet)
  }

  /** What finding i writes does not put any snippet back, once the later passes have gone over it. */
  ghost predicate WritesClean(findings: seq<Finding>, i: nat)
    requires i < |findings| && findings[i].replacement.Some?
  {
    Clean(findings, Sanitized(findings[i + 1..], findings[i].replacement.value))
  }

  /** Cut out at its leftmost occurrence, a snippet leaves two shorter texts, and it is not shadowed. */
  lemma SnippetParts(findings: seq<Finding>, i: nat, text: string)
    requires i < |findings| && AllBracketed(findings) && findings[i].replacement.Some?
    requires Clean(findings[..i], text) && Occurs(findings[i].snippet, text)
    ensures var (s, p) := (findings[i].snippet, Find(text, findings[i].snippet));
            && p.Some? && p.value + |s| <= |text| && s != ""
            && Clean(findings[..i], text[..p.value]) && Clean(findings[..i], text[p.value + |s|..])
    ensures Unshadowed(findings, i)
  {
    hide Replaced, OccursAt, Occurs, FindFrom, Sanitized;
    var s := findings[i].snippet;
    LeftmostSplit(text, s, "");
    var p := Find(text, s).value;
    CleanPart(findings[..i], text, 0, p);
    CleanPart(findings[..i], text, p, p + |s|);
    CleanPart(findings[..i], text, p + |s|, |text|);
    assert text[0..p] == text[..p] && text[p + |s|..|text|] == text[p + |s|..];
  }

  lemma {:induction false} NothingSurvives(findings: seq<Finding>, i: nat, text: string)
    requires i <= |findings| && AllBracketed(findings)
    requires AllWriteClean(findings)
    requires Clean(findings[..i], text)
    ensures Clean(findings, Sanitized(findings[i..], text))
    decreases |findings| - i, |text|
  {
    hide Occurs, OccursAt, Replaced, Joined;
    if i == |findings| {
      assert findings[..i] == findings;
    } else {
      var f := findings[i];
      assert findings[i..][0] == f && findings[i..][1..] == findings[i + 1..];
      if f.replacement.Some? && Occurs(f.snippet, text) {
        SnippetParts(findings, i, text);
        var p := Find(text, f.snippet).value;
        NothingSurvives(findings, i, text[..p]);
        NothingSurvives(findings, i, text[p + |f.snippet|..]);
        SplitAtSnippet(findings, i, text);
        JoinClean(findings, i, text[..p], text[p + |f.snippet|..]);
      } else {
        if f.replacement.Some? {
          ReplacedAbsent(text, f.snippet, f.replacement.value);
        }
        CleanExtend(findings, i, text);
        NothingSurvives(findings, i + 1, text);
      }
    }
  }

  /** From pass i on, a text with a leftmost snippet i is redacted as the text before it, the replacement,
      and the text after it. */
  lemma SplitAtSnippet(findings: seq<Finding>, i: nat, text: string)
    requires i < |findings| && AllBracketed(findings)
    requires findings[i].replacement.Some? && Occurs(findings[i].snippet, text)
    ensures var (f, p) := (findings[i], Find(text, findings[i].snippet));
            && p.Some?
            && var (u, v) := (text[..p.value], text[p.value + |f.snippet|..]);
               Sanitized(findings[i..], text) == Joined(findings, i, u, v)
  {
    var f, later := findings[i], findings[i + 1..];
    PassSplit(f, text);
    var p := Find(text, f.snippet).value;
    var u, v := text[..p], text[p + |f.snippet|..];
    LaterBracketed(findings, i);
    hide *;
    SplitRedacted(findings, i, text, u, v);
  }

  lemma LaterBracketed(findings: seq<Finding>, i: nat)
    requires i < |findings| && AllBracketed(findings)
    ensures AllBracketed(findings[i + 1..]) && Bracketed(findings[i])
  {
  }

  lemma SplitRedacted(findings: seq<Finding>, i: nat, text: string, u: string, v: string)
    requires i < |findings| && AllBracketed(findings[i + 1..])
    requires Bracketed(findings[i]) && findings[i].replacement.Some?
    requires Pass(findings[i], text) == u + findings[i].replacement.value + Pass(findings[i], v)
    requires Pass(findings[i], u) == u
    ensures Sanitized(findings[i..], text) == Joined(findings, i, u, v)
  {
    RedactStep(findings, i, text);
    RedactStep(findings, i, u);
    RedactStep(findings, i, v);
    hide Pass, Sanitized, AllBracketed;
    RedactAround(findings[i + 1..], u, findings[i].replacement.value, Pass(findings[i], v));
  }

  lemma PassSplit(f: Finding, text: string)
    requires f.snippet != "" && f.replacement.Some? && Occurs(f.snippet, text)
    ensures var p := Find(text, f.snippet);
            && p.Some? && p.value + |f.snippet| <= |text|
            && Pass(f, text) == text[..p.value] + f.replacement.value + Pass(f, text[p.value + |f.snippet|..])
            && Pass(f, text[..p.value]) == text[..p.value]
  {
    LeftmostSplit(text, f.snippet, f.replacement.value);
    ReplacedAbsent(text[..Find(text, f.snippet).value], f.snippet, f.replacement.value);
  }

  lemma RedactStep(findings: seq<Finding>, i: nat, text: string)
    requires i < |findings|
    ensures Sanitized(findings[i..], text) == Sanitized(findings[i + 1..], Pass(findings[i], text))
  {
    assert findings[i..][1..] == findings[i + 1..];
  }

  /** The three parts around a replacement, each redacted from pass i on. */
  function Joined(findings: seq<Finding>, i: nat, u: string, v: string): string
    requires i < |findings| && Bracketed(findings[i]) && findings[i].replacement.Some?
  {
    var r := findings[i].replacement.value;
    Sanitized(findings[i..], u) + ['['] + (Sanitized(findings[i + 1..], r[1..|r| - 1]) + [']']
        + Sanitized(findings[i..], v))
  }

  lemma JoinClean(findings: seq<Finding>, i: nat, u: string, v: string)
    requires i < |findings| && AllBracketed(findings) && findings[i].replacement.Some?
    requires Clean(findings, Sanitized(findings[i..], u)) && Clean(findings, Sanitized(findings[i..], v))
    requires WritesClean(findings, i)
    ensures Clean(findings, Joined(findings, i, u, v))
  {
    var later, r := findings[i + 1..], findings[i].replacement.value;
    var w, e := Sanitized(later, r[1..|r| - 1]), Sanitized(later, "");
    RedactBracketed(later, r);
    CleanAcross(findings, e, '[', w + [']'] + e);
    CleanAcross(findings, w, ']', e);
    CleanAcross(findings, Sanitized(findings[i..], u), '[', w + [']'] + Sanitized(findings[i..], v));
    CleanAcross(findings, w, ']', Sanitized(findings[i..], v));
  }

  ghost predicate Complete(findings: seq<Finding>) {
    forall text :: Clean(findings, Sanitized(findings, text))
  }

  ghost predicate AllWriteClean(findings: seq<Finding>) {
    forall i :: 0 <= i < |findings| && Unshadowed(findings, i) ==> WritesClean(findings, i)
  }

  /** Redaction leaves no snippet in any text exactly when each finding that can fire on its own snippet
      writes something the later passes leave clean. */
  lemma CompleteIff(findings: seq<Finding>)
    requires AllBracketed(findings)
    ensures Complete(findings) <==> AllWriteClean(findings)
  {
    if AllWriteClean(findings) {
      forall text ensures Clean(findings, Sanitized(findings, text)) {
        CompleteOn(findings, text);
      }
    }
    if Complete(findings) {
      CompleteMeansWritesClean(findings);
    }
  }

  lemma CompleteMeansWritesClean(findings: seq<Finding>)
    requires AllBracketed(findings)
    requires Complete(findings)
    ensures AllWriteClean(findings)
  {
    forall i | 0 <= i < |findings| && Unshadowed(findings, i)
      ensures WritesClean(findings, i)
    {
      OwnSnippet(findings, i);
      assert Clean(findings, Sanitized(findings, findings[i].snippet));
    }
  }

  lemma CompleteOn(findings: seq<Finding>, text: string)
    requires AllBracketed(findings)
    requires AllWriteClean(findings)
    ensures Clean(findings, Sanitized(findings, text))
  {
    assert Clean(findings[..0], text);
    NothingSurvives(findings, 0, text);
    assert findings[0..] == findings;
  }

  lemma OwnSnippet(findings: seq<Finding>, i: nat)
    requires i < |findings| && AllBracketed(findings) && Unshadowed(findings, i)
    ensures Sanitized(findings, findings[i].snippet) == Sanitized(findings[i + 1..], findings[i].replacement.value)
  {
    var f := findings[i];
    EarlierAbsent(findings, i, f.snippet);
    assert findings[i..][0] == f && findings[i..][1..] == findings[i + 1..];
    ReplacedWhole(f.snippet, f.replacement.value);
  }

  /** In particular when no replacement contains a snippet, whatever the order and overlap of the findings. */
  lemma CompleteWhenReplacementsClean(findings: seq<Finding>, text: string)
    requires AllBracketed(findings)
    requires forall i :: 0 <= i < |findings| && findings[i].replacement.Some? ==>
            Clean(findings, findings[i].replacement.value)
    ensures Clean(findings, Sanitized(findings, text))
  {
    forall i | 0 <= i < |findings| && Unshadowed(findings, i)
      ensures WritesClean(findings, i)
    {
      var later, r := findings[i + 1..], findings[i].replacement.value;
      assert later[..|later|] == later;
      assert Clean(later, r) by {
        forall k | 0 <= k < |later| && later[k].replacement.Some? ensures !Occurs(later[k].snippet, r) {
          assert later[k] == findings[i + 1 + k];
        }
      }
      EarlierAbsent(later, |later|, r);
      assert later[|later|..] == [];
    }
    CompleteIff(findings);
  }

  /** Of a custom keyword alone nothing survives exactly when its label does not contain the match. */
  lemma KeywordCompleteIff(chars: Keywords.Characters, text: string, rule: Keywords.Rule, start: nat)
    requires Bracketed(Keywords.FindingAt(chars, text, rule, start))
    ensures var f := Keywords.FindingAt(chars, text, rule, start);
            Complete([f]) <==> !Occurs(f.snippet, Keywords.Redaction(chars, rule))
  {
    hide Complete, Bracketed;
    var f := Keywords.FindingAt(chars, text, rule, start);
    CompleteIff([f]);
    OneWritesClean(f, Keywords.Redaction(chars, rule));
  }

  lemma OneWritesClean(f: Finding, written: string)
    requires f.replacement == Some(written)
    ensures AllWriteClean([f]) <==> !Occurs(f.snippet, written)
  {
    assert [f][0] == f && [f][..0] == [] && [f][1..] == [] && Sanitized([], written) == written;
    assert Unshadowed([f], 0);
    assert WritesClean([f], 0) <==> Clean([f], written);
  }

  /** The label repeats the keyword in capitals, so every keyword in capitals survives its own redaction. */
  lemma CapitalKeywordSurvives(chars: Keywords.Characters, rule: Keywords.Rule)
    requires rule.pattern != "" && '[' !in rule.pattern && ']' !in rule.pattern && ' ' !in rule.pattern
    requires chars.Uppercase(rule.pattern) == rule.pattern
    ensures var f := Keywords.FindingAt(chars, rule.pattern, rule, 0);
            && f.snippet == rule.pattern && Sanitized([f], rule.pattern) == Keywords.Redaction(chars, rule)
            && Occurs(rule.pattern, Sanitized([f], rule.pattern))
  {
    hide Replaced;
    var p, written := rule.pattern, Keywords.Redaction(chars, rule);
    var f := Keywords.FindingAt(chars, p, rule, 0);
    assert p[0..|p|] == p;
    SpacesReplaced(p);
    ReplacedWhole(p, written);
    assert [f][1..] == [] && Sanitized([], written) == written;
    assert written == "[REDACTED_" + p + "]" && written[10..10 + |p|] == p;
    assert OccursAt(p, written, 10);
  }

  /** The keyword RED is in the label twice. */
  lemma KeywordRedSurvives(chars: Keywords.Characters, caseSensitive: bool)
    requires chars.Uppercase("RED") == "RED"
    ensures var red := Keywords.FindingAt(chars, "RED", Keywords.Rule("RED", caseSensitive), 0);
            AllBracketed([red]) && Sanitized([red], "RED") == "[REDACTED_RED]" && !Clean([red], Sanitized([red], "RED"))
  {
    hide Replaced, Sanitized, Occurs;
    var rule := Keywords.Rule("RED", caseSensitive);
    CapitalKeywordSurvives(chars, rule);
    var red := Keywords.FindingAt(chars, "RED", rule, 0);
    SpacesReplaced("RED");
    assert [red][0] == red;
  }

  lemma SpacesReplaced(s: string)
    requires ' ' !in s
    ensures Replaced(s, " ", "_") == s
  {
    hide Replaced;
    forall i: nat ensures !OccursAt(" ", s, i) {
      if OccursAt(" ", s, i) {
        CharacterOfOccurrence(" ", s, i, i);
      }
    }
    ReplacedAbsent(s, " ", "_");
  }

  // ----- keywords that are removed -----

  /** A keyword is removed from every text when its match has a character that neither the pattern in capitals nor the
      frame of the label contains; for one in lower case that is every letter. */
  lemma KeywordRemoved(chars: Keywords.Characters, text: string, rule: Keywords.Rule, start: nat, c: char)
    requires Bracketed(Keywords.FindingAt(chars, text, rule, start))
    requires c in Keywords.FindingAt(chars, text, rule, start).snippet
    requires c !in chars.Uppercase(rule.pattern) && c !in "[REDACTED_]"
    ensures Complete([Keywords.FindingAt(chars, text, rule, start)])
  {
    hide Complete, Bracketed;
    var f, written := Keywords.FindingAt(chars, text, rule, start), Keywords.Redaction(chars, rule);
    KeywordCompleteIff(chars, text, rule, start);
    NotInLabel(chars, rule, c);
    ForeignCharacter(f.snippet, written, c);
  }

  lemma ForeignCharacter(pattern: string, s: string, c: char)
    requires c in pattern && c !in s
    ensures !Occurs(pattern, s)
  {
    var k :| 0 <= k < |pattern| && pattern[k] == c;
    forall i: nat ensures !OccursAt(pattern, s, i) {
      if OccursAt(pattern, s, i) {
        OccurrenceChars(pattern, s, i, k);
      }
    }
  }

  lemma NotInLabel(chars: Keywords.Characters, rule: Keywords.Rule, c: char)
    requires c !in chars.Uppercase(rule.pattern) && c !in "[REDACTED_]"
    ensures c !in Keywords.Redaction(chars, rule)
  {
    hide Keywords.Redaction;
    Keywords.LabelIs(chars, rule);
    var written, n, frame := Keywords.Redaction(chars, rule), |rule.pattern|, "[REDACTED_]";
    assert frame[9] == '_' && frame[10] == ']' && frame[..10] == "[REDACTED_";
    forall i | 0 <= i < |written| ensures written[i] != c {
      if i < 10 {
        assert written[i] == written[..10][i] == frame[..10][i] == frame[i];
      } else if i < n + 10 {
        assert written[10 + (i - 10)] == written[i];
        assert chars.Uppercase(rule.pattern)[i - 10] != c && c != '_';
      } else {
        assert written[i] == ']' != c;
      }
    }
  }

  /** An ordinary keyword. */
  lemma LowerKeywordRemoved(chars: Keywords.Characters, caseSensitive: bool)
    requires chars.Uppercase("secret") == "SECRET"
    ensures var f := Keywords.FindingAt(chars, "secret", Keywords.Rule("secret", caseSensitive), 0);
            f.snippet == "secret" && f.replacement == Some("[REDACTED_SECRET]") && Complete([f])
  {
    hide Complete, Replaced;
    var rule := Keywords.Rule("secret", caseSensitive);
    SpacesReplaced("SECRET");
    assert "secret"[0..6] == "secret";
    assert "[REDACTED_" + "SECRET" + "]" == "[REDACTED_SECRET]";
    assert "secret"[0] == 's';
    KeywordRemoved(chars, "secret", rule, 0, 's');
  }

  // ----- findings without a replacement, and empty snippets -----

  /** Findings without a replacement have no effect, wherever they stand. */
  lemma {:induction false} WithoutReplacement(front: seq<Finding>, f: Finding, back: seq<Finding>, text: string)
    requires f.replacement == None
    ensures Sanitized(front + [f] + back, text) == Sanitized(front + back, text)
  {
    hide Pass;
    if front == [] {
      assert front + [f] + back == [f] + back && front + back == back;
      assert ([f] + back)[1..] == back;
      NoPass(f, text);
    } else {
      WithoutReplacement(front[1..], f, back, Pass(front[0], text));
      assert (front + [f] + back)[1..] == front[1..] + [f] + back && (front + back)[1..] == front[1..] + back;
    }
  }

  lemma NoPass(f: Finding, text: string)
    requires f.replacement == None
    ensures Pass(f, text) == text
  {
  }

  /** Findings are applied one behind the other, the first one first. */
  lemma {:induction false} OneBehindTheOther(front: seq<Finding>, back: seq<Finding>, text: string)
    ensures Sanitized(front + back, text) == Sanitized(back, Sanitized(front, text))
  {
    hide Pass;
    if front == [] {
      assert front + back == back;
    } else {
      OneBehindTheOther(front[1..], back, Pass(front[0], text));
      assert (front + back)[1..] == front[1..] + back;
    }
  }

  /** One finding with a replacement is one substitution, also of an empty snippet, which stands before every character
      and at the end. */
  lemma OneFinding(f: Finding, text: string)
    ensures f.replacement.Some? ==> Sanitized([f], text) == Replaced(text, f.snippet, f.replacement.value)
    ensures Replaced("ab", "", "-") == "-a-b-"
  {
    assert [f][1..] == [] && forall t :: Sanitized([], t) == t;
    assert "ab"[1..] == "b" && "b"[1..] == "";
    assert Interleaved("", "-") == "-" && Interleaved("b", "-") == "-b-";
  }
}
