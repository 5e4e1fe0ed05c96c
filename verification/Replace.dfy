/** `str::find` and `str::replace` on strings: leftmost search and leftmost non-overlapping substitution. */
module Replace {
  import opened Wrappers

  predicate OccursAt(pattern: string, s: string, i: nat) {
    i + |pattern| <= |s| && s[i..i + |pattern|] == pattern
  }

  ghost predicate Occurs(pattern: string, s: string) {
    exists i: nat :: OccursAt(pattern, s, i)
  }

  /** `s.find(pattern)`: the leftmost occurrence. */
  function Find(s: string, pattern: string): (r: Option<nat>)
    ensures r.Some? ==> OccursAt(pattern, s, r.value)
    ensures r.Some? ==> forall j: nat :: j < r.value ==> !OccursAt(pattern, s, j)
    ensures r.None? ==> forall j: nat :: !OccursAt(pattern, s, j)
  {
    FindFrom(s, pattern, 0)
  }

  function FindFrom(s: string, pattern: string, from: nat): (r: Option<nat>)
    requires from <= |s| + 1
    ensures r.Some? ==> from <= r.value && OccursAt(pattern, s, r.value)
    ensures r.Some? ==> forall j: nat :: from <= j < r.value ==> !OccursAt(pattern, s, j)
    ensures r.None? ==> forall j: nat :: from <= j ==> !OccursAt(pattern, s, j)
    decreases |s| + 1 - from
  {
    if from > |s| then None
    else if OccursAt(pattern, s, from) then Some(from)
    else FindFrom(s, pattern, from + 1)
  }

  /** `s.contains(pattern)` */
  predicate Contains(s: string, pattern: string)
    ensures Contains(s, pattern) <==> Occurs(pattern, s)
  {
    Find(s, pattern).Some?
  }

  /** `s.replace(pattern, sub)`, read from the front; an empty pattern matches before every character
      and at the end. */
  function Replaced(s: string, pattern: string, sub: string): string {
    if pattern == "" then Interleaved(s, sub)
    else if s == "" then ""
    else if OccursAt(pattern, s, 0) then sub + Replaced(s[|pattern|..], pattern, sub)
    else [s[0]] + Replaced(s[1..], pattern, sub)
  }

  function Interleaved(s: string, sub: string): string {
    if s == "" then sub else sub + [s[0]] + Interleaved(s[1..], sub)
  }

  lemma ReplacedFirst(s: string, pattern: string, sub: string)
    requires pattern != "" && s != ""
    ensures Replaced(s, pattern, sub) == if OccursAt(pattern, s, 0) then sub + Replaced(s[|pattern|..], pattern, sub)
                                         else [s[0]] + Replaced(s[1..], pattern, sub)
  {
  }

  /** Substitution goes from one leftmost occurrence to the next and leaves everything between them. */
  lemma {:induction false} ReplacedLeftmost(s: string, pattern: string, sub: string, i: nat)
    requires pattern != "" && OccursAt(pattern, s, i)
    requires forall j: nat :: j < i ==> !OccursAt(pattern, s, j)
    ensures Replaced(s, pattern, sub) == s[..i] + sub + Replaced(s[i + |pattern|..], pattern, sub)
    decreases i
  {
    hide Replaced;
    ReplacedFirst(s, pattern, sub);
    if i == 0 {
      assert s[..0] + sub == sub;
    } else {
      ShiftOccurrences(s, pattern);
      ReplacedLeftmost(s[1..], pattern, sub, i - 1);
      hide OccursAt;
      assert s[1..][i - 1 + |pattern|..] == s[i + |pattern|..];
      PutInFront(s, i, sub, Replaced(s[i + |pattern|..], pattern, sub));
    }
  }

  lemma PutInFront(s: string, i: nat, x: string, y: string)
    requires 0 < i <= |s|
    ensures [s[0]] + (s[1..][..i - 1] + x + y) == s[..i] + x + y
  {
    assert s[..i] == [s[0]] + s[1..][..i - 1];
  }

  lemma {:induction false} ReplacedAbsent(s: string, pattern: string, sub: string)
    requires pattern != "" && !Occurs(pattern, s)
    ensures Replaced(s, pattern, sub) == s
  {
    if s != "" {
      assert !OccursAt(pattern, s, 0);
      ShiftOccurrences(s, pattern);
      ReplacedAbsent(s[1..], pattern, sub);
    }
  }

  lemma ReplacedWhole(s: string, sub: string)
    requires s != ""
    ensures Replaced(s, s, sub) == sub
  {
    assert s[0..|s|] == s;
    assert OccursAt(s, s, 0);
    assert s[|s|..] == "";
    assert sub + "" == sub;
  }

  lemma ShiftOccurrences(s: string, pattern: string)
    requires s != ""
    ensures forall j: nat :: OccursAt(pattern, s[1..], j) <==> OccursAt(pattern, s, j + 1)
  {
    forall j: nat
      ensures OccursAt(pattern, s[1..], j) <==> OccursAt(pattern, s, j + 1)
    {
      if j + |pattern| <= |s| - 1 {
        assert s[1..][j..j + |pattern|] == s[j + 1..j + 1 + |pattern|];
      }
    }
  }

  lemma SliceOfSlice(s: string, lo: nat, hi: nat, j: nat, n: nat)
    requires lo <= hi <= |s| && j + n <= hi - lo
    ensures s[lo..hi][j..j + n] == s[lo + j..lo + j + n]
  {
    var inner, outer := s[lo..hi][j..j + n], s[lo + j..lo + j + n];
    forall k | 0 <= k < n
      ensures inner[k] == outer[k]
    {
      assert s[lo..hi][j + k] == s[lo + (j + k)];
    }
  }

  lemma OccursAtInPart(pattern: string, s: string, lo: nat, hi: nat, j: nat)
    requires lo <= hi <= |s| && OccursAt(pattern, s[lo..hi], j)
    ensures OccursAt(pattern, s, lo + j)
  {
    SliceOfSlice(s, lo, hi, j, |pattern|);
  }

  lemma OccursInPart(pattern: string, s: string, lo: nat, hi: nat)
    requires lo <= hi <= |s| && Occurs(pattern, s[lo..hi])
    ensures Occurs(pattern, s)
  {
    var j: nat :| OccursAt(pattern, s[lo..hi], j);
    OccursAtInPart(pattern, s, lo, hi, j);
  }

  /** The text before the leftmost occurrence is free of the pattern and kept. */
  lemma LeftmostSplit(text: string, s: string, sub: string)
    requires s != "" && Occurs(s, text)
    ensures var p := Find(text, s);
            && p.Some? && p.value + |s| <= |text|
            && !Occurs(s, text[..p.value])
            && text[p.value..p.value + |s|] == s
            && Replaced(text, s, sub) == text[..p.value] + sub + Replaced(text[p.value + |s|..], s, sub)
  {
    hide Replaced, FindFrom;
    var p := Find(text, s).value;
    ReplacedLeftmost(text, s, sub, p);
    FrontFree(text, s, p);
  }

  lemma FrontFree(text: string, s: string, p: nat)
    requires s != "" && p <= |text| && forall j: nat :: j < p ==> !OccursAt(s, text, j)
    ensures !Occurs(s, text[..p])
  {
    if j: nat :| OccursAt(s, text[..p], j) {
      assert text[0..p] == text[..p];
      OccursAtInPart(s, text, 0, p, j);
      assert false;
    }
  }

  /** A character that the pattern does not contain splits searches... */
  lemma OccursAcross(pattern: string, a: string, c: char, b: string)
    requires pattern != "" && c !in pattern
    ensures Occurs(pattern, a + [c] + b) <==> Occurs(pattern, a) || Occurs(pattern, b)
  {
    var s := a + [c] + b;
    if i: nat :| OccursAt(pattern, s, i) {
      OccurrenceOnOneSide(pattern, a, c, b, i);
    }
    if Occurs(pattern, a) {
      assert s[0..|a|] == a;
      OccursInPart(pattern, s, 0, |a|);
    }
    if Occurs(pattern, b) {
      assert s[|a| + 1..|s|] == b;
      OccursInPart(pattern, s, |a| + 1, |s|);
    }
  }

  lemma CharacterOfOccurrence(pattern: string, s: string, i: nat, k: nat)
    requires OccursAt(pattern, s, i) && i <= k < i + |pattern|
    ensures s[k] in pattern
  {
    assert s[i..i + |pattern|][k - i] == s[k];
  }

  lemma OccurrenceChars(pattern: string, s: string, i: nat, k: nat)
    requires OccursAt(pattern, s, i) && k < |pattern|
    ensures s[i + k] == pattern[k]
  {
    assert s[i..i + |pattern|][k] == s[i + k];
  }

  lemma OccurrenceOnOneSide(pattern: string, a: string, c: char, b: string, i: nat)
    requires pattern != "" && c !in pattern && OccursAt(pattern, a + [c] + b, i)
    ensures (i + |pattern| <= |a| && OccursAt(pattern, a, i)) || (i >= |a| + 1 && OccursAt(pattern, b, i - |a| - 1))
  {
    var s := a + [c] + b;
    if i <= |a| < i + |pattern| {
      CharacterOfOccurrence(pattern, s, i, |a|);
      assert false;
    } else if i < |a| {
      assert s[i..i + |pattern|] == a[i..i + |pattern|];
    } else {
      assert s[i..i + |pattern|] == b[i - |a| - 1..i - |a| - 1 + |pattern|];
    }
  }

  lemma SeparatorFirst(pattern: string, c: char, b: string)
    requires pattern != "" && c !in pattern
    ensures !OccursAt(pattern, "" + [c] + b, 0)
  {
    var s := "" + [c] + b;
    assert s[0] == c && pattern[0] in pattern && pattern[0] != c;
    assert |pattern| <= |s| ==> s[0..|pattern|][0] == c;
  }

  /** Whether the pattern starts a text is decided before the separator. */
  lemma StartsBeforeSeparator(pattern: string, a: string, c: char, b: string)
    requires pattern != "" && c !in pattern && a != ""
    ensures OccursAt(pattern, a + [c] + b, 0) <==> OccursAt(pattern, a, 0)
    ensures OccursAt(pattern, a, 0) ==> (a + [c] + b)[|pattern|..] == a[|pattern|..] + [c] + b
    ensures (a + [c] + b)[0] == a[0] && (a + [c] + b)[1..] == a[1..] + [c] + b
  {
    var s := a + [c] + b;
    if OccursAt(pattern, s, 0) {
      OccurrenceOnOneSide(pattern, a, c, b, 0);
    }
    if OccursAt(pattern, a, 0) {
      assert s[0..|pattern|] == a[0..|pattern|];
    }
  }

  /** ...and splits replacements. */
  lemma {:induction false} ReplacedAcross(pattern: string, sub: string, a: string, c: char, b: string)
    requires pattern != "" && c !in pattern
    ensures Replaced(a + [c] + b, pattern, sub) == Replaced(a, pattern, sub) + [c] + Replaced(b, pattern, sub)
    decreases |a|
  {
    ReplacedFirst(a + [c] + b, pattern, sub);
    if a == "" {
      SeparatorFirst(pattern, c, b);
      assert ("" + [c] + b)[1..] == b;
    } else {
      hide Replaced, OccursAt;
      ReplacedFirst(a, pattern, sub);
      StartsBeforeSeparator(pattern, a, c, b);
      if OccursAt(pattern, a, 0) {
        OccursFits(pattern, a, 0);
        ReplacedAcross(pattern, sub, a[|pattern|..], c, b);
        hide *;
        Reassociate(sub, Replaced(a[|pattern|..], pattern, sub), [c], Replaced(b, pattern, sub));
      } else {
        ReplacedAcross(pattern, sub, a[1..], c, b);
        hide *;
        Reassociate([a[0]], Replaced(a[1..], pattern, sub), [c], Replaced(b, pattern, sub));
      }
    }
  }

  lemma Reassociate(x: string, y: string, z: string, t: string)
    ensures x + (y + z + t) == x + y + z + t
  {
  }

  lemma Regroup<T>(x: seq<T>, y: seq<T>, z: seq<T>)
    ensures x + y + z == x + (y + z)
    ensures [] + x == x == x + []
  {
  }

  lemma OccursFits(pattern: string, s: string, i: nat)
    requires OccursAt(pattern, s, i)
    ensures i + |pattern| <= |s|
  {
  }
}
