/** Custom keyword search (`scan_custom_keywords`, crates/inspector/src/lib.rs): whole-word search that
    resumes behind each match. Upper- and lowercasing map characters one to one, so that offsets into the
    lowercased text are offsets into the text. */
module Keywords {
  import opened Wrappers
  import opened Verdicts
  import opened Replace

  /** The character tables of the standard library: case mappings (a character not listed maps to itself)
      and the alphanumeric characters. */
  datatype Characters = Characters(lower: map<char, char>, upper: map<char, char>, alphanumeric: set<char>) {
    predicate IsWord(c: char) {
      c in alphanumeric || c == '_'
    }

    function Lowercase(s: string): string {
      seq(|s|, i requires 0 <= i < |s| => if s[i] in lower then lower[s[i]] else s[i])
    }

    function Uppercase(s: string): string {
      seq(|s|, i requires 0 <= i < |s| => if s[i] in upper then upper[s[i]] else s[i])
    }
  }

  datatype Rule = Rule(pattern: string, caseSensitive: bool)

  /** `is_word_boundary` of the character before or after a match, None at the ends of the text. */
  predicate IsWordBoundary(chars: Characters, c: Option<char>) {
    c.None? || !chars.IsWord(c.value)
  }

  predicate WholeWord(chars: Characters, hay: string, start: nat, end: nat)
    requires start <= end <= |hay|
  {
    && IsWordBoundary(chars, if start == 0 then None else Some(hay[start - 1]))
    && IsWordBoundary(chars, if end == |hay| then None else Some(hay[end]))
  }

  ghost predicate WholeWordAt(chars: Characters, needle: string, hay: string, i: nat) {
    OccursAt(needle, hay, i) && WholeWord(chars, hay, i, i + |needle|)
  }

  /** Where a search for `needle` from offset `from` reports a match. */
  function Hits(chars: Characters, hay: string, needle: string, from: nat): seq<nat>
    requires needle != "" && from <= |hay|
    decreases |hay| - from
  {
    match FindFrom(hay, needle, from)
    case None => []
    case Some(p) =>
      (if WholeWord(chars, hay, p, p + |needle|) then [p] else []) + Hits(chars, hay, needle, p + |needle|)
  }

  function Haystack(chars: Characters, text: string, rule: Rule): (r: string)
    ensures |r| == |text|
  {
    if rule.caseSensitive then text else chars.Lowercase(text)
  }

  function Needle(chars: Characters, rule: Rule): (r: string)
    ensures |r| == |rule.pattern|
  {
    if rule.caseSensitive then rule.pattern else chars.Lowercase(rule.pattern)
  }

  function RuleHits(chars: Characters, text: string, rule: Rule): seq<nat> {
    if rule.pattern == "" then [] else Hits(chars, Haystack(chars, text, rule), Needle(chars, rule), 0)
  }

  function Redaction(chars: Characters, rule: Rule): string {
    "[REDACTED_" + Replaced(chars.Uppercase(rule.pattern), " ", "_") + "]"
  }

  function FindingAt(chars: Characters, text: string, rule: Rule, start: nat): Finding {
    Finding(rule.pattern,
      if start + |rule.pattern| <= |text| then text[start..start + |rule.pattern|] else "",
      Some(Redaction(chars, rule)))
  }

  function FindingsAt(chars: Characters, text: string, rule: Rule, hits: seq<nat>): (r: seq<Finding>)
    ensures |r| == |hits| && forall i :: 0 <= i < |r| ==> r[i] == FindingAt(chars, text, rule, hits[i])
  {
    seq(|hits|, i requires 0 <= i < |hits| => FindingAt(chars, text, rule, hits[i]))
  }

  function AllFindings(chars: Characters, text: string, rules: seq<Rule>): seq<Finding> {
    if rules == [] then []
    else FindingsAt(chars, text, rules[0], RuleHits(chars, text, rules[0])) + AllFindings(chars, text, rules[1..])
  }

  method ScanCustomKeywords(chars: Characters, text: string, rules: seq<Rule>) returns (findings: seq<Finding>)
    ensures findings == AllFindings(chars, text, rules)
  {
    findings := [];
    assert rules[0..] == rules;
    for r := 0 to |rules|
      invariant findings + AllFindings(chars, text, rules[r..]) == AllFindings(chars, text, rules)
    {
      hide *;
      AllFindingsStep(chars, text, rules, r);
      ghost var more := AllFindings(chars, text, rules[r + 1..]);
      Regroup(findings, FindingsAt(chars, text, rules[r], RuleHits(chars, text, rules[r])), more);
      Regroup(more, more, more);
      if rules[r].pattern != "" {
        findings := ScanRule(chars, text, rules[r], findings);
      }
    }
  }

  lemma AllFindingsStep(chars: Characters, text: string, rules: seq<Rule>, r: nat)
    requires r < |rules|
    ensures AllFindings(chars, text, rules[r..])
            == FindingsAt(chars, text, rules[r], RuleHits(chars, text, rules[r]))
                + AllFindings(chars, text, rules[r + 1..])
    ensures rules[r].pattern == "" ==> FindingsAt(chars, text, rules[r], RuleHits(chars, text, rules[r])) == []
  {
    assert rules[r..][1..] == rules[r + 1..];
  }

  method ScanRule(chars: Characters, text: string, rule: Rule, sofar: seq<Finding>) returns (findings: seq<Finding>)
    requires rule.pattern != ""
    ensures findings == sofar + FindingsAt(chars, text, rule, RuleHits(chars, text, rule))
  {
    hide *;
    findings := sofar;
    var haystack, needle := Haystack(chars, text, rule), Needle(chars, rule);
    var searchFrom := 0;
    ghost var starts: seq<nat> := [];
    NoFindings(chars, text, rule, sofar);
    while true
      invariant searchFrom <= |haystack|
      invariant Progress(chars, text, rule, sofar, searchFrom, starts, findings)
      decreases |haystack| - searchFrom
    {
      var found := FindFrom(haystack, needle, searchFrom);
      if found == None {
        SearchEnds(chars, text, rule, sofar, searchFrom, starts, findings);
        return;
      }
      var start := found.value;
      OccursFits(needle, haystack, start);
      var end := start + |needle|;
      SearchAdvances(chars, text, rule, sofar, searchFrom, starts, findings, start);
      if WholeWord(chars, haystack, start, end) {
        findings := findings + [FindingAt(chars, text, rule, start)];
        starts := starts + [start];
      }
      searchFrom := end;
    }
  }

  /** The search has reached offset `from`, with `starts` the hits so far and their findings appended. */
  ghost predicate Progress(chars: Characters, text: string, rule: Rule, sofar: seq<Finding>,
      from: nat, starts: seq<nat>, findings: seq<Finding>)
  {
    && rule.pattern != "" && from <= |text|
    && starts + Hits(chars, Haystack(chars, text, rule), Needle(chars, rule), from) == RuleHits(chars, text, rule)
    && findings == sofar + FindingsAt(chars, text, rule, starts)
  }

  lemma NoFindings(chars: Characters, text: string, rule: Rule, sofar: seq<Finding>)
    requires rule.pattern != ""
    ensures Progress(chars, text, rule, sofar, 0, [], sofar)
  {
    Regroup(Hits(chars, Haystack(chars, text, rule), Needle(chars, rule), 0), [], []);
    Regroup(sofar, [], []);
  }

  lemma SearchEnds(chars: Characters, text: string, rule: Rule, sofar: seq<Finding>,
      from: nat, starts: seq<nat>, findings: seq<Finding>)
    requires Progress(chars, text, rule, sofar, from, starts, findings)
    requires FindFrom(Haystack(chars, text, rule), Needle(chars, rule), from) == None
    ensures findings == sofar + FindingsAt(chars, text, rule, RuleHits(chars, text, rule))
  {
    HitsUnfold(chars, Haystack(chars, text, rule), Needle(chars, rule), from);
    hide Hits, RuleHits, Haystack, Needle, FindFrom, OccursAt, FindingsAt;
    Regroup(starts, [], []);
  }

  lemma SearchAdvances(chars: Characters, text: string, rule: Rule, sofar: seq<Finding>,
      from: nat, starts: seq<nat>, findings: seq<Finding>, p: nat)
    requires Progress(chars, text, rule, sofar, from, starts, findings)
    requires FindFrom(Haystack(chars, text, rule), Needle(chars, rule), from) == Some(p)
    requires p + |rule.pattern| <= |text|
    ensures if WholeWord(chars, Haystack(chars, text, rule), p, p + |rule.pattern|) then
              Progress(chars, text, rule, sofar, p + |rule.pattern|, starts + [p],
                  findings + [FindingAt(chars, text, rule, p)])
            else Progress(chars, text, rule, sofar, p + |rule.pattern|, starts, findings)
  {
    hide Hits, RuleHits, Haystack, Needle, FindFrom, OccursAt, WholeWord, FindingAt, FindingsAt;
    var hay, needle := Haystack(chars, text, rule), Needle(chars, rule);
    HitsUnfold(chars, hay, needle, from);
    LastFinding(chars, text, rule, sofar, starts, p);
    Regroup(starts, [p], Hits(chars, hay, needle, p + |needle|));
  }

  lemma LastFinding(chars: Characters, text: string, rule: Rule, sofar: seq<Finding>, starts: seq<nat>, start: nat)
    ensures sofar + FindingsAt(chars, text, rule, starts + [start])
            == sofar + FindingsAt(chars, text, rule, starts) + [FindingAt(chars, text, rule, start)]
  {
    hide FindingAt;
    assert FindingsAt(chars, text, rule, starts + [start])
        == FindingsAt(chars, text, rule, starts) + [FindingAt(chars, text, rule, start)];
  }

  // ----- soundness -----

  /** Whole-word occurrences only, one after another without overlap. */
  ghost predicate SoundHits(chars: Characters, hay: string, needle: string, from: nat, hits: seq<nat>) {
    && (forall i :: 0 <= i < |hits| ==> from <= hits[i] && WholeWordAt(chars, needle, hay, hits[i]))
    && (forall i, j :: 0 <= i < j < |hits| ==> hits[i] + |needle| <= hits[j])
  }

  lemma SoundCons(chars: Characters, hay: string, needle: string, from: nat, p: nat, more: seq<nat>)
    requires SoundHits(chars, hay, needle, p + |needle|, more) && from <= p
    ensures SoundHits(chars, hay, needle, from, more)
    ensures WholeWordAt(chars, needle, hay, p) ==> SoundHits(chars, hay, needle, from, [p] + more)
  {
    hide WholeWordAt;
    var all := [p] + more;
    assert forall i :: 0 < i < |all| ==> all[i] == more[i - 1];
  }

  lemma HitsUnfold(chars: Characters, hay: string, needle: string, from: nat)
    requires needle != "" && from <= |hay|
    ensures match FindFrom(hay, needle, from)
            case None => Hits(chars, hay, needle, from) == []
            case Some(p) =>
              && p + |needle| <= |hay|
              && Hits(chars, hay, needle, from)
                 == if WholeWord(chars, hay, p, p + |needle|) then [p] + Hits(chars, hay, needle, p + |needle|)
                    else Hits(chars, hay, needle, p + |needle|)
  {
  }

  lemma {:induction false} HitsAreSound(chars: Characters, hay: string, needle: string, from: nat)
    requires needle != "" && from <= |hay|
    ensures SoundHits(chars, hay, needle, from, Hits(chars, hay, needle, from))
    decreases |hay| - from
  {
    hide Hits, FindFrom;
    HitsUnfold(chars, hay, needle, from);
    if FindFrom(hay, needle, from).Some? {
      var p := FindFrom(hay, needle, from).value;
      HitsAreSound(chars, hay, needle, p + |needle|);
      SoundCons(chars, hay, needle, from, p, Hits(chars, hay, needle, p + |needle|));
      hide SoundHits;
    }
  }

  lemma FoldedSnippet(chars: Characters, text: string, rule: Rule, start: nat)
    requires OccursAt(Needle(chars, rule), Haystack(chars, text, rule), start)
    ensures start + |rule.pattern| <= |text|
    ensures var snippet := text[start..start + |rule.pattern|];
            if rule.caseSensitive then snippet == rule.pattern
            else chars.Lowercase(snippet) == chars.Lowercase(rule.pattern)
  {
    if !rule.caseSensitive {
      assert chars.Lowercase(text[start..start + |rule.pattern|])
          == chars.Lowercase(text)[start..start + |rule.pattern|];
    }
  }

  /** The i-th finding of a rule quotes the text at a whole-word match of the rule, equal to the pattern up
      to the rule's case, behind the end of every earlier one. */
  lemma FindingsAreSound(chars: Characters, text: string, rule: Rule, i: nat)
    requires i < |RuleHits(chars, text, rule)|
    ensures var hits := RuleHits(chars, text, rule);
            && WholeWordAt(chars, Needle(chars, rule), Haystack(chars, text, rule), hits[i])
            && (forall j :: 0 <= j < i ==> hits[j] + |rule.pattern| <= hits[i])
            && var snippet := FindingsAt(chars, text, rule, hits)[i].snippet;
               if rule.caseSensitive then snippet == rule.pattern
               else chars.Lowercase(snippet) == chars.Lowercase(rule.pattern)
  {
    var hits := RuleHits(chars, text, rule);
    hide Hits, RuleHits;
    HitsOfRule(chars, text, rule);
    FoldedSnippet(chars, text, rule, hits[i]);
  }

  lemma HitsOfRule(chars: Characters, text: string, rule: Rule)
    ensures SoundHits(chars, Haystack(chars, text, rule), Needle(chars, rule), 0, RuleHits(chars, text, rule))
  {
    if rule.pattern != "" {
      HitsAreSound(chars, Haystack(chars, text, rule), Needle(chars, rule), 0);
    }
  }

  // ----- completeness -----

  /** Shifted by d, the pattern continues itself. */
  predicate SelfOverlaps(needle: string, d: nat) {
    1 <= d < |needle| && needle[d..] == needle[..|needle| - d]
  }

  /** Wherever the pattern can overlap its next occurrence, that occurrence would start inside a word. */
  predicate RestartSafe(chars: Characters, needle: string) {
    forall d: nat | d < |needle| :: SelfOverlaps(needle, d) ==> chars.IsWord(needle[d - 1])
  }

  ghost predicate FindsEveryWholeWord(chars: Characters, needle: string)
    requires needle != ""
  {
    forall hay: string, q: nat :: WholeWordAt(chars, needle, hay, q) ==> q in Hits(chars, hay, needle, 0)
  }

  lemma OverlapShifts(needle: string, hay: string, p: nat, q: nat)
    requires OccursAt(needle, hay, p) && OccursAt(needle, hay, q) && p < q < p + |needle|
    ensures SelfOverlaps(needle, q - p) && hay[q - 1] == needle[q - p - 1]
  {
    var d := q - p;
    assert hay[p..p + |needle|][d - 1] == hay[q - 1];
    forall k | 0 <= k < |needle| - d
      ensures needle[d..][k] == needle[..|needle| - d][k]
    {
      assert hay[p..p + |needle|][d + k] == hay[q + k];
      assert hay[q..q + |needle|][k] == hay[q + k];
    }
  }

  lemma NoUnsafeOverlap(chars: Characters, needle: string, hay: string, p: nat, q: nat)
    requires RestartSafe(chars, needle) && WholeWordAt(chars, needle, hay, q) && OccursAt(needle, hay, p)
    requires p < q
    ensures p + |needle| <= q
  {
    if q < p + |needle| {
      OverlapShifts(needle, hay, p, q);
    }
  }

  lemma {:induction false} NothingSkipped(chars: Characters, hay: string, needle: string, from: nat, q: nat)
    requires needle != "" && from <= q && from <= |hay|
    requires RestartSafe(chars, needle) && WholeWordAt(chars, needle, hay, q)
    ensures q in Hits(chars, hay, needle, from)
    decreases |hay| - from
  {
    hide Hits, FindFrom, RestartSafe;
    HitsUnfold(chars, hay, needle, from);
    var found := FindFrom(hay, needle, from);
    assert found.Some? && found.value <= q;
    var p := found.value;
    if p < q {
      NoUnsafeOverlap(chars, needle, hay, p, q);
      NothingSkipped(chars, hay, needle, p + |needle|, q);
    }
  }

  /** The search reports every whole-word occurrence in every text exactly for the restart-safe patterns. */
  lemma CompleteIff(chars: Characters, needle: string)
    requires needle != ""
    ensures FindsEveryWholeWord(chars, needle) <==> RestartSafe(chars, needle)
  {
    if RestartSafe(chars, needle) {
      forall hay: string, q: nat | WholeWordAt(chars, needle, hay, q)
        ensures q in Hits(chars, hay, needle, 0)
      {
        NothingSkipped(chars, hay, needle, 0, q);
      }
    } else {
      var d: nat :| d < |needle| && SelfOverlaps(needle, d) && !chars.IsWord(needle[d - 1]);
      OverlapIsMissed(chars, needle, d);
      assert WholeWordAt(chars, needle, needle[..d] + needle, d);
    }
  }

  /** The text that shows it: the pattern preceded by its own first d characters. */
  lemma OverlapIsMissed(chars: Characters, needle: string, d: nat)
    requires SelfOverlaps(needle, d) && !chars.IsWord(needle[d - 1])
    ensures var hay := needle[..d] + needle;
            WholeWordAt(chars, needle, hay, d) && d !in Hits(chars, hay, needle, 0)
  {
    var hay, n := needle[..d] + needle, |needle|;
    assert hay[d..d + n] == needle;
    assert hay[0..n] == needle[..d] + needle[..n - d] == needle[..d] + needle[d..] == needle;
    assert FindFrom(hay, needle, 0) == Some(0);
    assert FindFrom(hay, needle, n) == None;
    assert Hits(chars, hay, needle, n) == [];
  }

  ghost predicate FindsEveryMatch(chars: Characters, rule: Rule) {
    forall text: string, q: nat ::
      WholeWordAt(chars, Needle(chars, rule), Haystack(chars, text, rule), q) ==> q in RuleHits(chars, text, rule)
  }

  /** The same of a rule and the texts it is applied to, with and without regard to case. */
  lemma RuleCompleteIff(chars: Characters, rule: Rule)
    requires rule.pattern != ""
    ensures FindsEveryMatch(chars, rule) <==> RestartSafe(chars, Needle(chars, rule))
  {
    hide Hits, WholeWordAt;
    var needle := Needle(chars, rule);
    assert needle != "";
    if RestartSafe(chars, needle) {
      CompleteIff(chars, needle);
    } else {
      var d: nat :| d < |needle| && SelfOverlaps(needle, d) && !chars.IsWord(needle[d - 1]);
      OverlapIsMissed(chars, needle, d);
      OverlapText(chars, rule, d);
      var text := rule.pattern[..d] + rule.pattern;
      assert d !in RuleHits(chars, text, rule);
    }
  }

  lemma OverlapText(chars: Characters, rule: Rule, d: nat)
    requires d < |rule.pattern|
    ensures |Needle(chars, rule)| == |rule.pattern|
    ensures Haystack(chars, rule.pattern[..d] + rule.pattern, rule) == Needle(chars, rule)[..d] + Needle(chars, rule)
  {
  }

  /** Patterns made of word characters only are found wherever they stand as a whole word. */
  lemma WordPatternsComplete(chars: Characters, needle: string)
    requires needle != "" && forall c :: c in needle ==> chars.IsWord(c)
    ensures FindsEveryWholeWord(chars, needle)
  {
    CompleteIff(chars, needle);
  }

  /** "a a" is not such a pattern: in "a a a" its second occurrence is lost. */
  lemma RepeatedWordIsLost(chars: Characters)
    requires !chars.IsWord(' ')
    ensures WholeWordAt(chars, "a a", "a a a", 2) && 2 !in Hits(chars, "a a a", "a a", 0)
    ensures !FindsEveryWholeWord(chars, "a a")
  {
    assert SelfOverlaps("a a", 2);
    OverlapIsMissed(chars, "a a", 2);
    assert "a a"[..2] + "a a" == "a a a";
  }

  // ----- what a finding says -----

  /** Two rules that differ in the case of their patterns write the same label. */
  lemma LabelIgnoresCase(chars: Characters, rule: Rule, other: Rule)
    requires chars.Uppercase(rule.pattern) == chars.Uppercase(other.pattern)
    ensures Redaction(chars, rule) == Redaction(chars, other)
  {
  }

  lemma {:induction false} ReplacedCharacter(s: string, c: char, d: char)
    ensures |Replaced(s, [c], [d])| == |s|
    ensures forall i :: 0 <= i < |s| ==> Replaced(s, [c], [d])[i] == if s[i] == c then d else s[i]
  {
    if s != "" {
      ReplacedCharacter(s[1..], c, d);
      ReplacedFirst(s, [c], [d]);
      assert OccursAt([c], s, 0) <==> s[0] == c by {
        assert s[0..1] == [s[0]];
      }
    }
  }

  /** The label: the pattern in capitals, with an underscore for every space, behind `REDACTED_` and in brackets. */
  lemma LabelIs(chars: Characters, rule: Rule)
    ensures var written, n, capitals := Redaction(chars, rule), |rule.pattern|, chars.Uppercase(rule.pattern);
            && |written| == n + 11 && written[..10] == "[REDACTED_" && written[n + 10] == ']'
            && forall i :: 0 <= i < n ==> written[10 + i] == if capitals[i] == ' ' then '_' else capitals[i]
  {
    hide Replaced;
    ReplacedCharacter(chars.Uppercase(rule.pattern), ' ', '_');
  }

  /** A finding names its pattern, quotes the text as it is written, carries the label, and stands between characters
      that are neither alphanumeric nor an underscore. */
  lemma FindingIs(chars: Characters, text: string, rule: Rule, i: nat)
    requires i < |RuleHits(chars, text, rule)|
    ensures var p, n := RuleHits(chars, text, rule)[i], |rule.pattern|;
            var hay := if rule.caseSensitive then text else chars.Lowercase(text);
            && p + n <= |text|
            && FindingsAt(chars, text, rule, RuleHits(chars, text, rule))[i]
               == Finding(rule.pattern, text[p..p + n], Some(Redaction(chars, rule)))
            && (p == 0 || (hay[p - 1] !in chars.alphanumeric && hay[p - 1] != '_'))
            && (p + n == |text| || (hay[p + n] !in chars.alphanumeric && hay[p + n] != '_'))
  {
    hide Hits, Redaction;
    FindingsAreSound(chars, text, rule, i);
  }

  /** A rule without regard to case finds the same in texts that differ in case only, whatever the case of its
      pattern. */
  lemma CaseIgnored(chars: Characters, text: string, other: string, pattern: string, otherPattern: string)
    requires chars.Lowercase(text) == chars.Lowercase(other)
    requires chars.Lowercase(pattern) == chars.Lowercase(otherPattern)
    ensures RuleHits(chars, text, Rule(pattern, false)) == RuleHits(chars, other, Rule(otherPattern, false))
  {
    hide Hits;
    assert |chars.Lowercase(pattern)| == |pattern| && |chars.Lowercase(otherPattern)| == |otherPattern|;
  }

  /** One with regard to case does not look at the case mappings at all. */
  lemma CaseRegarded(chars: Characters, other: Characters, text: string, pattern: string)
    requires chars.alphanumeric == other.alphanumeric
    ensures RuleHits(chars, text, Rule(pattern, true)) == RuleHits(other, text, Rule(pattern, true))
  {
    if pattern != "" {
      SameHits(chars, other, text, pattern, 0);
    }
  }

  lemma {:induction false} SameHits(chars: Characters, other: Characters, hay: string, needle: string, from: nat)
    requires chars.alphanumeric == other.alphanumeric && needle != "" && from <= |hay|
    ensures Hits(chars, hay, needle, from) == Hits(other, hay, needle, from)
    decreases |hay| - from
  {
    hide FindFrom;
    HitsUnfold(chars, hay, needle, from);
    HitsUnfold(other, hay, needle, from);
    var found := FindFrom(hay, needle, from);
    if found.Some? {
      SameHits(chars, other, hay, needle, found.value + |needle|);
    }
  }

  /** The findings of all rules, in the order of the rules; a rule with an empty pattern has none. */
  lemma {:induction false} RulesInOrder(chars: Characters, text: string, rules: seq<Rule>, more: seq<Rule>)
    ensures AllFindings(chars, text, rules + more) == AllFindings(chars, text, rules) + AllFindings(chars, text, more)
  {
    hide RuleHits, FindingsAt;
    if rules == [] {
      assert rules + more == more;
    } else {
      RulesInOrder(chars, text, rules[1..], more);
      assert (rules + more)[1..] == rules[1..] + more;
    }
  }

  lemma OneRule(chars: Characters, text: string, rule: Rule)
    ensures AllFindings(chars, text, [rule]) == FindingsAt(chars, text, rule, RuleHits(chars, text, rule))
    ensures rule.pattern == "" ==> AllFindings(chars, text, [rule]) == []
  {
    hide FindingAt;
    assert [rule][1..] == [] && AllFindings(chars, text, []) == [];
  }
}
