/** Text runs of a .docx body and their entity decoding (crates/file_inspector/src/lib.rs). */
module Docx {
  import opened Wrappers
  import opened Replace

  // ----- entities -----

  /** The five predefined entities of XML 1.0 section 4.6. */
  datatype Special = Amp | Lt | Gt | Quot | Apos {
    function Char(): char {
      match this
      case Amp => '&'
      case Lt => '<'
      case Gt => '>'
      case Quot => '\"'
      case Apos => '\''
    }

    function Entity(): (e: string)
      ensures |e| >= 4 && e[0] == '&' && forall i :: 1 <= i < |e| ==> e[i] !in "&<>\"'"
    {
      match this
      case Amp => "&amp;"
      case Lt => "&lt;"
      case Gt => "&gt;"
      case Quot => "&quot;"
      case Apos => "&apos;"
    }
  }

  function SpecialOf(c: char): (r: Option<Special>)
    ensures r.Some? ==> r.value.Char() == c
    ensures forall s: Special :: s.Char() == c ==> r == Some(s)
  {
    match c
    case '&' => Some(Amp)
    case '<' => Some(Lt)
    case '>' => Some(Gt)
    case '\"' => Some(Quot)
    case '\'' => Some(Apos)
    case _ => None
  }

  /** How one character is written when the specials in `kept` are the ones still written as entities. */
  function Token(c: char, kept: set<Special>): (t: string)
    ensures t != ""
  {
    match SpecialOf(c)
    case Some(s) => if s in kept then s.Entity() else [c]
    case None => [c]
  }

  function Written(text: string, kept: set<Special>): string {
    if text == "" then "" else Token(text[0], kept) + Written(text[1..], kept)
  }

  const ALL: set<Special> := {Amp, Lt, Gt, Quot, Apos}

  /** What an XML writer produces. */
  function Encode(text: string): string {
    Written(text, ALL)
  }

  function ReplaceEntity(s: string, special: Special): string {
    Replaced(s, special.Entity(), [special.Char()])
  }

  /** `decode_xml_entities`: ampersands first. */
  function Decode(s: string): string {
    ReplaceEntity(ReplaceEntity(ReplaceEntity(ReplaceEntity(ReplaceEntity(s, Amp), Lt), Gt), Quot), Apos)
  }

  function DecodeAmpLast(s: string): string {
    ReplaceEntity(ReplaceEntity(ReplaceEntity(ReplaceEntity(ReplaceEntity(s, Lt), Gt), Quot), Apos), Amp)
  }

  // ----- one replacement pass over written text -----

  predicate Plain(t: string) {
    forall i :: 0 <= i < |t| ==> SpecialOf(t[i]) == None
  }

  lemma PrefixCons(p: string, s: string)
    requires p != "" && s != ""
    ensures p <= s <==> p[0] == s[0] && p[1..] <= s[1..]
  {
    assert p == [p[0]] + p[1..] && s == [s[0]] + s[1..];
  }

  lemma WrittenFirst(text: string, kept: set<Special>)
    requires text != "" && Token(text[0], kept) == [text[0]]
    ensures Written(text, kept) == [text[0]] + Written(text[1..], kept)
    ensures Written(text, kept) != "" && Written(text, kept)[0] == text[0]
    ensures Written(text, kept)[1..] == Written(text[1..], kept)
  {
  }

  /** Characters that need no entity read the same in a text and as written. */
  lemma {:induction false} PlainPrefix(text: string, kept: set<Special>, tail: string)
    requires Plain(tail)
    ensures tail <= Written(text, kept) <==> tail <= text
    ensures tail <= text ==> Written(text, kept) == tail + Written(text[|tail|..], kept)
  {
    if tail != "" && text != "" {
      if SpecialOf(text[0]).Some? {
        assert Token(text[0], kept)[0] != tail[0];
        assert Written(text, kept)[0] == Token(text[0], kept)[0];
      } else {
        PlainPrefix(text[1..], kept, tail[1..]);
        WrittenFirst(text, kept);
        PrefixCons(tail, Written(text, kept));
        PrefixCons(tail, text);
        if tail <= text {
          assert text[1..][|tail[1..]|..] == text[|tail|..];
          assert tail == [tail[0]] + tail[1..];
        }
      }
    }
  }

  /** No entity starts inside another one. */
  lemma NoEntityInEntity(k: Special, s: Special, w: string, i: nat)
    requires k != s && i < |s.Entity()|
    ensures !OccursAt(k.Entity(), s.Entity() + w, i)
  {
    if OccursAt(k.Entity(), s.Entity() + w, i) {
      OccurrenceChars(k.Entity(), s.Entity() + w, i, 0);
      if i == 0 {
        OccurrenceChars(k.Entity(), s.Entity() + w, 0, 1);
        OccurrenceChars(k.Entity(), s.Entity() + w, 0, 2);
      }
      assert false;
    }
  }

  lemma {:induction false} SkipFront(front: string, w: string, pattern: string, sub: string)
    requires pattern != "" && forall i: nat :: i < |front| ==> !OccursAt(pattern, front + w, i)
    ensures Replaced(front + w, pattern, sub) == front + Replaced(w, pattern, sub)
  {
    if front == "" {
      assert front + w == w;
    } else {
      hide Replaced, OccursAt;
      var s := front + w;
      ReplacedFirst(s, pattern, sub);
      assert s[0] == front[0] && s[1..] == front[1..] + w;
      ShiftOccurrences(s, pattern);
      assert !OccursAt(pattern, s, 0);
      SkipFront(front[1..], w, pattern, sub);
      Regroup([front[0]], front[1..], Replaced(w, pattern, sub));
      assert [front[0]] + front[1..] == front;
    }
  }

  lemma StartsWith(pattern: string, s: string)
    ensures OccursAt(pattern, s, 0) <==> pattern <= s
  {
    if |pattern| <= |s| {
      assert s[0..|pattern|] == s[..|pattern|];
    }
  }

  /** The text behind one pass for entity k: while ampersands are escaped the pass sees written entities
      only; once they are raw it also sees the entity where the text itself spells it. */
  function Seen(text: string, kept: set<Special>, k: Special): string {
    if Amp in kept then text else ReplaceEntity(text, k)
  }

  lemma WrittenTokens(text: string, kept: set<Special>)
    requires text != ""
    ensures Written(text, kept) == Token(text[0], kept) + Written(text[1..], kept)
  {
  }

  lemma SeenFirst(text: string, kept: set<Special>, k: Special)
    requires text != "" && (Amp in kept || !(k.Entity() <= text))
    ensures Seen(text, kept, k) == [text[0]] + Seen(text[1..], kept, k)
  {
    StartsWith(k.Entity(), text);
    assert text == [text[0]] + text[1..];
  }

  /** The pass turns each written entity k into its character and changes nothing else of what is seen. */
  lemma {:induction false} OnePass(text: string, kept: set<Special>, k: Special)
    requires k in kept
    ensures ReplaceEntity(Written(text, kept), k) == Written(Seen(text, kept, k), kept - {k})
    decreases |text|
  {
    if text != "" {
      if Amp !in kept && k.Entity() <= text {
        LiteralPass(text, kept, k);
        OnePass(text[|k.Entity()|..], kept, k);
      } else {
        TokenPass(text, kept, k);
        OnePass(text[1..], kept, k);
        SeenFirst(text, kept, k);
        var rest := Seen(text[1..], kept, k);
        hide Seen, Written, ReplaceEntity;
        WrittenTokens([text[0]] + rest, kept - {k});
        assert ([text[0]] + rest)[1..] == rest;
      }
    }
  }

  /** A text that begins with the literal entity, ampersands being raw. */
  lemma LiteralPass(text: string, kept: set<Special>, k: Special)
    requires k in kept && Amp !in kept && k.Entity() <= text
    ensures var rest := text[|k.Entity()|..];
            && ReplaceEntity(Written(text, kept), k) == [k.Char()] + ReplaceEntity(Written(rest, kept), k)
            && Written(Seen(text, kept, k), kept - {k}) == [k.Char()] + Written(Seen(rest, kept, k), kept - {k})
  {
    var e := k.Entity();
    var rest := text[|e|..];
    assert text == e + rest;
    EntityWritten(text, kept, k);
    StartsWith(e, text);
    StartsWith(e, e + Written(rest, kept));
    assert (e + Written(rest, kept))[|e|..] == Written(rest, kept);
    ReplacedFirst(text, e, [k.Char()]);
    ReplacedFirst(e + Written(rest, kept), e, [k.Char()]);
    hide Replaced;
    var seen := Seen(rest, kept, k);
    assert Seen(text, kept, k) == [k.Char()] + seen;
    assert ([k.Char()] + seen)[1..] == seen;
    assert Token(k.Char(), kept - {k}) == [k.Char()];
  }

  lemma EntityWritten(text: string, kept: set<Special>, k: Special)
    requires Amp !in kept && k.Entity() <= text
    ensures Written(text, kept) == k.Entity() + Written(text[|k.Entity()|..], kept)
  {
    assert Token('&', kept) == ['&'];
    hide Written, Token, Plain;
    var e := k.Entity();
    assert text[0] == e[0] == '&';
    WrittenFirst(text, kept);
    PrefixCons(e, text);
    PlainTail(k);
    PlainPrefix(text[1..], kept, e[1..]);
    assert text[1..][|e[1..]|..] == text[|e|..];
    Regroup(['&'], e[1..], Written(text[|e|..], kept));
    assert e == ['&'] + e[1..];
  }

  lemma PlainTail(k: Special)
    ensures Plain(k.Entity()[1..])
  {
    forall i | 0 <= i < |k.Entity()| - 1
      ensures SpecialOf(k.Entity()[1..][i]) == None
    {
      assert k.Entity()[1..][i] == k.Entity()[i + 1];
      assert k.Entity()[i + 1] !in "&<>\"'";
    }
  }

  /** Any other text: the pass handles its first token on its own. */
  lemma TokenPass(text: string, kept: set<Special>, k: Special)
    requires text != "" && k in kept && (Amp in kept || !(k.Entity() <= text))
    ensures ReplaceEntity(Written(text, kept), k)
            == Token(text[0], kept - {k}) + ReplaceEntity(Written(text[1..], kept), k)
  {
    if text[0] == k.Char() {
      EntityPass(text, kept, k);
    } else {
      OtherPass(text, kept, k);
    }
  }

  lemma EntityPass(text: string, kept: set<Special>, k: Special)
    requires text != "" && k in kept && text[0] == k.Char()
    ensures ReplaceEntity(Written(text, kept), k)
            == Token(text[0], kept - {k}) + ReplaceEntity(Written(text[1..], kept), k)
  {
    hide *;
    EntityToken(kept, k);
    WrittenTokens(text, kept);
    EntityFirst(k, Written(text[1..], kept));
  }

  lemma OtherPass(text: string, kept: set<Special>, k: Special)
    requires text != "" && k in kept && (Amp in kept || !(k.Entity() <= text)) && text[0] != k.Char()
    ensures ReplaceEntity(Written(text, kept), k)
            == Token(text[0], kept - {k}) + ReplaceEntity(Written(text[1..], kept), k)
  {
    hide Token, Written, Replaced, OccursAt;
    OtherToken(text[0], kept, k);
    WrittenTokens(text, kept);
    TokenHasNoEntity(text, kept, k);
    SkipFront(Token(text[0], kept), Written(text[1..], kept), k.Entity(), [k.Char()]);
  }

  lemma EntityToken(kept: set<Special>, k: Special)
    requires k in kept
    ensures Token(k.Char(), kept) == k.Entity() && Token(k.Char(), kept - {k}) == [k.Char()]
  {
  }

  lemma OtherToken(c: char, kept: set<Special>, k: Special)
    requires c != k.Char()
    ensures Token(c, kept - {k}) == Token(c, kept)
  {
  }

  lemma EntityFirst(k: Special, w: string)
    ensures ReplaceEntity(k.Entity() + w, k) == [k.Char()] + ReplaceEntity(w, k)
  {
    var e := k.Entity();
    StartsWith(e, e + w);
    assert (e + w)[|e|..] == w;
    ReplacedFirst(e + w, e, [k.Char()]);
  }

  lemma TokenHasNoEntity(text: string, kept: set<Special>, k: Special)
    requires text != "" && (Amp in kept || !(k.Entity() <= text)) && text[0] != k.Char()
    ensures forall i: nat :: i < |Token(text[0], kept)| ==>
              !OccursAt(k.Entity(), Token(text[0], kept) + Written(text[1..], kept), i)
  {
    var e, c := k.Entity(), text[0];
    var t, w := Token(c, kept), Written(text[1..], kept);
    forall i: nat | i < |t|
      ensures !OccursAt(e, t + w, i)
    {
      if SpecialOf(c).Some? && SpecialOf(c).value in kept {
        NoEntityInEntity(k, SpecialOf(c).value, w, i);
      } else {
        RawHasNoEntity(text, kept, k);
      }
    }
  }

  lemma RawHasNoEntity(text: string, kept: set<Special>, k: Special)
    requires text != "" && (Amp in kept || !(k.Entity() <= text)) && Token(text[0], kept) == [text[0]]
    ensures !OccursAt(k.Entity(), [text[0]] + Written(text[1..], kept), 0)
  {
    var e, w := k.Entity(), Written(text[1..], kept);
    StartsWith(e, [text[0]] + w);
    PrefixCons(e, [text[0]] + w);
    PrefixCons(e, text);
    PlainTail(k);
    PlainPrefix(text[1..], kept, e[1..]);
    assert ([text[0]] + w)[1..] == w;
    if text[0] == '&' {
      assert Amp !in kept;
    }
  }

  // ----- decoding what was encoded -----

  lemma {:induction false} WrittenRaw(text: string)
    ensures Written(text, {}) == text
  {
    if text != "" {
      WrittenRaw(text[1..]);
      assert text == [text[0]] + text[1..];
    }
  }

  /** The four passes that follow the ampersand pass. */
  function Twice(text: string): string {
    ReplaceEntity(ReplaceEntity(ReplaceEntity(ReplaceEntity(text, Lt), Gt), Quot), Apos)
  }

  /** Decoding encoded text decodes it twice, except for ampersands: for every text the result is what the
      other four passes make of the text itself. */
  lemma DecodeEncode(text: string)
    ensures Decode(Encode(text)) == Twice(text)
  {
    hide Written, ReplaceEntity;
    OnePass(text, ALL, Amp);
    assert ALL - {Amp} == {Lt, Gt, Quot, Apos};
    var a := ReplaceEntity(text, Lt);
    var b := ReplaceEntity(a, Gt);
    var c := ReplaceEntity(b, Quot);
    var d := ReplaceEntity(c, Apos);
    OnePass(text, {Lt, Gt, Quot, Apos}, Lt);
    assert {Lt, Gt, Quot, Apos} - {Lt} == {Gt, Quot, Apos};
    OnePass(a, {Gt, Quot, Apos}, Gt);
    assert {Gt, Quot, Apos} - {Gt} == {Quot, Apos};
    OnePass(b, {Quot, Apos}, Quot);
    assert {Quot, Apos} - {Quot} == {Apos};
    OnePass(c, {Apos}, Apos);
    assert {Apos} - {Apos} == {};
    WrittenRaw(d);
  }

  /** With the ampersand pass last, decoding inverts encoding on every text. */
  lemma AmpLastInverts(text: string)
    ensures DecodeAmpLast(Encode(text)) == text
  {
    hide Written, ReplaceEntity;
    OnePass(text, ALL, Lt);
    assert ALL - {Lt} == {Amp, Gt, Quot, Apos};
    OnePass(text, {Amp, Gt, Quot, Apos}, Gt);
    assert {Amp, Gt, Quot, Apos} - {Gt} == {Amp, Quot, Apos};
    OnePass(text, {Amp, Quot, Apos}, Quot);
    assert {Amp, Quot, Apos} - {Quot} == {Amp, Apos};
    OnePass(text, {Amp, Apos}, Apos);
    assert {Amp, Apos} - {Apos} == {Amp};
    OnePass(text, {Amp}, Amp);
    assert {Amp} - {Amp} == {};
    WrittenRaw(text);
  }

  lemma {:induction false} PassShortens(s: string, k: Special)
    ensures |ReplaceEntity(s, k)| <= |s|
    ensures Occurs(k.Entity(), s) ==> |ReplaceEntity(s, k)| < |s|
    ensures !Occurs(k.Entity(), s) ==> ReplaceEntity(s, k) == s
    decreases |s|
  {
    var e := k.Entity();
    if Occurs(e, s) {
      LeftmostSplit(s, e, [k.Char()]);
      PassShortens(s[Find(s, e).value + |e|..], k);
    } else {
      ReplacedAbsent(s, e, [k.Char()]);
    }
  }

  /** The text spells none of the four entities that are decoded after ampersands. */
  ghost predicate NoLiterals(text: string) {
    && !Occurs(Lt.Entity(), text) && !Occurs(Gt.Entity(), text)
    && !Occurs(Quot.Entity(), text) && !Occurs(Apos.Entity(), text)
  }

  lemma TwiceShortens(text: string)
    ensures NoLiterals(text) ==> Twice(text) == text
    ensures !NoLiterals(text) ==> |Twice(text)| < |text|
  {
    hide ReplaceEntity, Occurs;
    var a := ReplaceEntity(text, Lt);
    var b := ReplaceEntity(a, Gt);
    var c := ReplaceEntity(b, Quot);
    PassShortens(text, Lt);
    PassShortens(a, Gt);
    PassShortens(b, Quot);
    PassShortens(c, Apos);
  }

  /** Decoding gives an encoded text back exactly when it contains none of the four literals. */
  lemma DecodeInvertsIff(text: string)
    ensures Decode(Encode(text)) == text <==> NoLiterals(text)
  {
    DecodeEncode(text);
    TwiceShortens(text);
  }

  // ----- parts decoded on their own -----

  /** A character that no entity contains keeps what stands on its two sides apart. */
  predicate Separates(c: char) {
    c == '>' || c == ' '
  }

  lemma PassAcross(a: string, c: char, b: string, k: Special)
    requires Separates(c)
    ensures ReplaceEntity(a + [c] + b, k) == ReplaceEntity(a, k) + [c] + ReplaceEntity(b, k)
  {
    hide Replaced;
    ReplacedAcross(k.Entity(), [k.Char()], a, c, b);
  }

  lemma TwiceAcross(a: string, c: char, b: string)
    requires Separates(c)
    ensures Twice(a + [c] + b) == Twice(a) + [c] + Twice(b)
  {
    hide ReplaceEntity;
    PassAcross(a, c, b, Lt);
    var a1, b1 := ReplaceEntity(a, Lt), ReplaceEntity(b, Lt);
    PassAcross(a1, c, b1, Gt);
    var a2, b2 := ReplaceEntity(a1, Gt), ReplaceEntity(b1, Gt);
    PassAcross(a2, c, b2, Quot);
    PassAcross(ReplaceEntity(a2, Quot), c, ReplaceEntity(b2, Quot), Apos);
  }

  lemma DecodeAcross(a: string, c: char, b: string)
    requires Separates(c)
    ensures Decode(a + [c] + b) == Decode(a) + [c] + Decode(b)
  {
    hide ReplaceEntity;
    PassAcross(a, c, b, Amp);
    TwiceAcross(ReplaceEntity(a, Amp), c, ReplaceEntity(b, Amp));
  }

  // ----- a text -----

  /** The entities in full. */
  lemma KnownText()
    ensures Encode("<&>") == "&lt;&amp;&gt;" && Encode("'\"") == "&apos;&quot;"
    ensures Decode("&lt;&amp;&gt;") == "<&>" && Decode("&apos;&quot;") == "'\""
  {
    hide ReplaceEntity;
    KnownEncoding();
    DecodeEncode("<&>");
    DecodeEncode("'\"");
    NothingSpelled("<&>");
    NothingSpelled("'\"");
    TwiceShortens("<&>");
    TwiceShortens("'\"");
  }

  lemma KnownEncoding()
    ensures Encode("<&>") == "&lt;&amp;&gt;" && Encode("'\"") == "&apos;&quot;"
  {
    assert "<&>"[1..] == "&>" && "&>"[1..] == ">" && ">"[1..] == "" && "'\""[1..] == "\"" && "\""[1..] == "";
    assert Written("", ALL) == "";
    assert Written(">", ALL) == "&gt;" && Written("&>", ALL) == "&amp;" + "&gt;";
    assert Written("<&>", ALL) == "&lt;" + ("&amp;" + "&gt;");
    assert Written("\"", ALL) == "&quot;" && Written("'\"", ALL) == "&apos;" + "&quot;";
  }

  lemma NothingSpelled(text: string)
    requires |text| < 4
    ensures NoLiterals(text)
  {
  }
}
