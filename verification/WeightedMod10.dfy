/** Weighted sums modulo 10 with three weights in turn: ABA routing numbers (3, 7, 1) and the check digits of
    machine-readable zones (7, 3, 1; ICAO Doc 9303 part 3, section 4.9), both in crates/pii/src/lib.rs. */
module WeightedMod10 {
  import opened Wrappers
  import opened CheckDigits

  const ABA_WEIGHTS: seq<nat> := [3, 7, 1]
  const MRZ_WEIGHTS: seq<nat> := [7, 3, 1]

  predicate Weights(weights: seq<nat>) {
    weights == ABA_WEIGHTS || weights == MRZ_WEIGHTS
  }

  function Term(weights: seq<nat>, i: nat, v: nat): nat
    requires Weights(weights)
  {
    v * weights[i % 3]
  }

  /** The weighted sum of the first k values. */
  function Sum(weights: seq<nat>, values: seq<nat>, k: nat): nat
    requires Weights(weights) && k <= |values|
  {
    if k == 0 then 0 else Sum(weights, values, k - 1) + Term(weights, k - 1, values[k - 1])
  }

  function CheckDigit(weights: seq<nat>, values: seq<nat>): (r: nat)
    requires Weights(weights)
    ensures r < 10
  {
    Sum(weights, values, |values|) % 10
  }

  // ----- routing numbers -----

  /** Pairing with nine weights reads at most nine characters. */
  function Weighed(s: string): string {
    if |s| <= 9 then s else s[..9]
  }

  /** `to_digit(10)`, and `parse::<u32>().ok()` of one character. */
  function ToDigit(c: char): Option<nat> {
    if IsDigit(c) then Some(c as int - '0' as int) else None
  }

  /** The sum over the first k characters, None from the first one on that has no digit value: there the unwrapped
      `to_digit` panics. */
  function AbaSum(s: string, k: nat): Option<nat>
    requires k <= |s|
  {
    if k == 0 then Some(0)
    else match (AbaSum(s, k - 1), ToDigit(s[k - 1]))
      case (Some(sum), Some(d)) => Some(sum + d * ABA_WEIGHTS[(k - 1) % 3])
      case _ => None
  }

  /** `aba_checksum_valid`, None for the panic. */
  function AbaChecksumValid(digits: string): Option<bool> {
    match AbaSum(Weighed(digits), |Weighed(digits)|)
    case Some(sum) => Some(sum % 10 == 0)
    case None => None
  }

  lemma {:induction false} AbaSumIs(s: string, k: nat)
    requires k <= |s|
    ensures AbaSum(s, k) == if AllDigits(s[..k]) then Some(Sum(ABA_WEIGHTS, DigitValues(s[..k]), k)) else None
  {
    hide Sum;
    if k == 0 {
      SumStep(ABA_WEIGHTS, DigitValues(s[..0]), 0);
    } else {
      AbaSumIs(s, k - 1);
      assert s[..k] == s[..k - 1] + [s[k - 1]];
      if AllDigits(s[..k]) {
        var values := DigitValues(s[..k]);
        assert s[..k][..k - 1] == s[..k - 1] && values[..k - 1] == DigitValues(s[..k - 1]);
        SumStep(ABA_WEIGHTS, values, k - 1);
        SumOfFront(ABA_WEIGHTS, values, k - 1);
      }
    }
  }

  lemma {:induction false} SumOfFront(weights: seq<nat>, values: seq<nat>, k: nat)
    requires Weights(weights) && k <= |values|
    ensures Sum(weights, values[..k], k) == Sum(weights, values, k)
    decreases k
  {
    hide Term, Weights;
    if k > 0 {
      SumOfFront(weights, values, k - 1);
      SumOfFront(weights, values[..k], k - 1);
      assert values[..k][..k - 1] == values[..k - 1];
    }
  }

  /** The check panics exactly when one of the first nine characters is no ASCII digit, and otherwise accepts exactly
      the check digit 0. */
  lemma AbaIs(digits: string)
    ensures AbaChecksumValid(digits)
            == if AllDigits(Weighed(digits)) then Some(CheckDigit(ABA_WEIGHTS, DigitValues(Weighed(digits))) == 0)
               else None
  {
    hide Sum, AbaSum;
    var s := Weighed(digits);
    AbaSumIs(s, |s|);
    assert s[..|s|] == s;
  }

  /** Of nine characters it accepts those digits that the published formula accepts. */
  lemma AbaAcceptsIff(digits: string)
    requires |digits| == 9
    ensures AbaChecksumValid(digits) == Some(true)
            <==> AllDigits(digits)
                 && var d := DigitValues(digits);
                    (3 * (d[0] + d[3] + d[6]) + 7 * (d[1] + d[4] + d[7]) + (d[2] + d[5] + d[8])) % 10 == 0
  {
    hide Sum;
    AbaIs(digits);
    assert Weighed(digits) == digits;
    if AllDigits(digits) {
      NineTerms(DigitValues(digits));
    }
  }

  lemma NineTerms(d: seq<nat>)
    requires |d| == 9
    ensures Sum(ABA_WEIGHTS, d, 9) == 3 * (d[0] + d[3] + d[6]) + 7 * (d[1] + d[4] + d[7]) + (d[2] + d[5] + d[8])
  {
    hide Sum;
    ThreeTerms(d, 0);
    ThreeTerms(d, 3);
    ThreeTerms(d, 6);
    SumStep(ABA_WEIGHTS, d, 0);
  }

  lemma ThreeTerms(d: seq<nat>, i: nat)
    requires i % 3 == 0 && i + 3 <= |d|
    ensures Sum(ABA_WEIGHTS, d, i + 3) == Sum(ABA_WEIGHTS, d, i) + (3 * d[i] + 7 * d[i + 1] + d[i + 2])
  {
    hide Sum;
    SumStep(ABA_WEIGHTS, d, i);
    SumStep(ABA_WEIGHTS, d, i + 1);
    SumStep(ABA_WEIGHTS, d, i + 2);
    assert (i + 1) % 3 == 1 && (i + 2) % 3 == 2;
  }

  /** A number that the scanner's pattern admits: its last digit is an Arabic-Indic one. */
  lemma ForeignDigitPanics()
    ensures AbaChecksumValid("02100002\U{0661}") == None
  {
    AbaIs("02100002\U{0661}");
    assert !IsDigit("02100002\U{0661}"[8]);
  }

  // ----- machine-readable zones -----

  /** `mrz_char_value` */
  function MrzCharValue(c: char): (r: Option<nat>)
    ensures r.Some? ==> r.value < 36
  {
    if IsDigit(c) then Some(c as int - '0' as int)
    else if 'A' <= c <= 'Z' then Some(c as int - 'A' as int + 10)
    else if c == '<' then Some(0)
    else None
  }

  predicate AllMrz(s: string) {
    forall i :: 0 <= i < |s| ==> MrzCharValue(s[i]).Some?
  }

  function MrzValues(s: string): (r: seq<nat>)
    requires AllMrz(s)
    ensures |r| == |s|
    ensures forall i :: 0 <= i < |r| ==> r[i] == MrzCharValue(s[i]).value
  {
    seq(|s|, i requires 0 <= i < |s| => MrzCharValue(s[i]).value)
  }

  function FieldCheck(field: string): Option<nat> {
    if AllMrz(field) then Some(CheckDigit(MRZ_WEIGHTS, MrzValues(field))) else None
  }

  method MrzCheckDigit(field: string) returns (r: Option<nat>)
    ensures r == FieldCheck(field)
  {
    hide Sum, Term;
    var sum := 0;
    if AllMrz(field) {
      SumStep(MRZ_WEIGHTS, MrzValues(field), 0);
    }
    for i := 0 to |field|
      invariant forall j :: 0 <= j < i ==> MrzCharValue(field[j]).Some?
      invariant AllMrz(field) ==> sum == Sum(MRZ_WEIGHTS, MrzValues(field), i)
    {
      var value := MrzCharValue(field[i]);
      if value == None {
        return None;
      }
      if AllMrz(field) {
        SumStep(MRZ_WEIGHTS, MrzValues(field), i);
      }
      sum := sum + value.value * MRZ_WEIGHTS[i % 3];
    }
    return Some(sum % 10);
  }

  lemma SumStep(weights: seq<nat>, values: seq<nat>, k: nat)
    requires Weights(weights) && k <= |values|
    ensures Sum(weights, values, 0) == 0
    ensures k < |values| ==> Sum(weights, values, k + 1) == Sum(weights, values, k) + values[k] * weights[k % 3]
  {
  }

  predicate FieldValid(field: string, check: char) {
    FieldCheck(field) == ToDigit(check)
  }

  /** `mrz_line2_checksums_valid`: passport number, date of birth, date of expiry. */
  predicate MrzLine2ChecksumsValid(line: string)
    requires |line| == 44
  {
    && FieldValid(line[0..9], line[9])
    && FieldValid(line[13..19], line[19])
    && FieldValid(line[21..27], line[27])
  }

  // ----- errors in the values -----

  lemma {:induction false} SumUpdate(weights: seq<nat>, values: seq<nat>, j: nat, v: nat, k: nat)
    requires Weights(weights) && j < |values| && k <= |values|
    ensures Sum(weights, values[j := v], k) + (if j < k then Term(weights, j, values[j]) else 0)
            == Sum(weights, values, k) + (if j < k then Term(weights, j, v) else 0)
  {
    hide Term, Weights;
    if k > 0 {
      SumUpdate(weights, values, j, v, k - 1);
    }
  }

  lemma TermIs(weights: seq<nat>, i: nat, v: nat)
    requires Weights(weights)
    ensures Term(weights, i, v) == if weights[i % 3] == 1 then v else if weights[i % 3] == 3 then 3 * v else 7 * v
    ensures weights[i % 3] == 1 || weights[i % 3] == 3 || weights[i % 3] == 7
  {
  }

  lemma UnitMultiple(d: int)
    ensures (3 * d) % 10 == 0 <==> d % 10 == 0
    ensures (7 * d) % 10 == 0 <==> d % 10 == 0
  {
    var q, r := d / 10, d % 10;
    assert 3 * d == 10 * (3 * q) + 3 * r;
    assert 7 * d == 10 * (7 * q) + 7 * r;
  }

  lemma TwoTimes(d: int)
    ensures (2 * d) % 10 == 0 <==> d % 5 == 0
  {
    assert 2 * d == 10 * (d / 5) + 2 * (d % 5);
  }

  lemma FourTimes(d: int)
    ensures (4 * d) % 10 == 0 <==> d % 5 == 0
  {
    assert 4 * d == 10 * (2 * (d / 5)) + 4 * (d % 5);
  }

  lemma AddTens(x: nat, k: nat)
    ensures (x + 10 * k) % 10 == x % 10
  {
  }

  lemma Congruent(x: nat, y: nat)
    ensures x % 10 == y % 10 <==> (x - y) % 10 == 0
  {
    assert x - y == 10 * (x / 10 - y / 10) + (x % 10 - y % 10);
  }

  lemma CongruentFive(x: nat, y: nat)
    ensures x % 5 == y % 5 <==> (x - y) % 5 == 0
  {
    assert x - y == 5 * (x / 5 - y / 5) + (x % 5 - y % 5);
  }

  lemma UnitChange(w: nat, a: nat, b: nat, s: nat, t: nat)
    requires w == 1 || w == 3 || w == 7
    requires w == 1 ==> t + a == s + b
    requires w == 3 ==> t + 3 * a == s + 3 * b
    requires w == 7 ==> t + 7 * a == s + 7 * b
    ensures s % 10 == t % 10 <==> a % 10 == b % 10
  {
    Congruent(s, t);
    Congruent(a, b);
    UnitMultiple(a - b);
    assert s - t == if w == 1 then a - b else if w == 3 then 3 * (a - b) else 7 * (a - b);
  }

  lemma EvenChange(m: nat, a: nat, b: nat, s: nat, t: nat)
    requires m == 2 || m == 4 || m == 6
    requires m == 2 ==> t + 2 * a == s + 2 * b
    requires m == 4 ==> t + 4 * a == s + 4 * b
    requires m == 6 ==> t + 6 * a == s + 6 * b
    ensures s % 10 == t % 10 <==> a % 5 == b % 5
    decreases m
  {
    if m == 6 {
      AddTens(s, b);
      AddTens(t, a);
      EvenChange(4, a, b, t + 10 * a, s + 10 * b);
    } else {
      Congruent(s, t);
      CongruentFive(a, b);
      if m == 2 {
        TwoTimes(a - b);
      } else {
        FourTimes(a - b);
      }
    }
  }

  /** Replacing one value by another leaves the check digit alone exactly when they agree modulo 10. */
  lemma SingleErrorMissedIff(weights: seq<nat>, values: seq<nat>, j: nat, v: nat)
    requires Weights(weights) && j < |values|
    ensures CheckDigit(weights, values[j := v]) == CheckDigit(weights, values) <==> v % 10 == values[j] % 10
  {
    hide Sum, Term;
    SumUpdate(weights, values, j, v, |values|);
    TermIs(weights, j, v);
    TermIs(weights, j, values[j]);
    UnitChange(weights[j % 3], values[j], v, Sum(weights, values, |values|), Sum(weights, values[j := v], |values|));
  }

  lemma SwapChange(weights: seq<nat>, i: nat, a: nat, b: nat, s: nat, t: nat)
    requires Weights(weights)
    requires t + Term(weights, i, a) + Term(weights, i + 1, b) == s + Term(weights, i, b) + Term(weights, i + 1, a)
    ensures s % 10 == t % 10 <==> a % 5 == b % 5
  {
    hide Term;
    TermIs(weights, i, a);
    TermIs(weights, i, b);
    TermIs(weights, i + 1, a);
    TermIs(weights, i + 1, b);
    assert (i + 1) % 3 == if i % 3 == 2 then 0 else i % 3 + 1;
    var w, x := weights[i % 3], weights[(i + 1) % 3];
    if w == 3 && x == 7 {
      EvenChange(4, b, a, s, t);
    } else if w == 7 && x == 3 {
      EvenChange(4, a, b, s, t);
    } else if w == 7 && x == 1 {
      EvenChange(6, a, b, s, t);
    } else if w == 1 && x == 7 {
      EvenChange(6, b, a, s, t);
    } else if w == 1 && x == 3 {
      EvenChange(2, b, a, s, t);
    } else {
      EvenChange(2, a, b, s, t);
    }
  }

  /** Swapping two neighbours leaves the check digit alone exactly when they agree modulo 5. */
  lemma SwapMissedIff(weights: seq<nat>, values: seq<nat>, j: nat)
    requires Weights(weights) && j + 1 < |values|
    ensures CheckDigit(weights, Swapped(values, j)) == CheckDigit(weights, values)
            <==> values[j] % 5 == values[j + 1] % 5
  {
    hide Sum, Term, Weights;
    var a, b := values[j], values[j + 1];
    var half := values[j := b];
    SumUpdate(weights, values, j, b, |values|);
    SumUpdate(weights, half, j + 1, a, |values|);
    SwapChange(weights, j, a, b, Sum(weights, values, |values|), Sum(weights, Swapped(values, j), |values|));
  }

  // ----- errors in a routing number -----

  /** No change of a single character leaves a valid number valid: another digit makes it invalid, anything else
      is the panic. */
  lemma AbaSingleErrorDetected(digits: string, j: nat, c: char)
    requires |digits| == 9 && AbaChecksumValid(digits) == Some(true)
    requires j < 9 && c != digits[j]
    ensures AbaChecksumValid(digits[j := c]) == if IsDigit(c) then Some(false) else None
  {
    hide CheckDigit, AbaChecksumValid;
    AbaIs(digits);
    AbaIs(digits[j := c]);
    if IsDigit(c) {
      var v := c as int - '0' as int;
      SingleErrorMissedIff(ABA_WEIGHTS, DigitValues(digits), j, v);
      assert DigitValues(digits[j := c]) == DigitValues(digits)[j := v];
    } else {
      assert !IsDigit(digits[j := c][j]);
    }
  }

  /** A swap of neighbours is missed exactly when the digits are equal or five apart. */
  lemma AbaSwapMissedIff(digits: string, j: nat)
    requires |digits| == 9 && AbaChecksumValid(digits) == Some(true) && j < 8
    ensures AbaChecksumValid(Swapped(digits, j)) == Some(digits[j] as int - digits[j + 1] as int in {-5, 0, 5})
  {
    hide CheckDigit, AbaChecksumValid;
    AbaIs(digits);
    AbaIs(Swapped(digits, j));
    SwapMissedIff(ABA_WEIGHTS, DigitValues(digits), j);
    assert DigitValues(Swapped(digits, j)) == Swapped(DigitValues(digits), j);
    FiveApart(DigitValues(digits)[j], DigitValues(digits)[j + 1]);
  }

  lemma FiveApart(a: nat, b: nat)
    requires a < 10 && b < 10
    ensures a % 5 == b % 5 <==> a - b in {-5, 0, 5}
  {
  }

  // ----- errors in a machine-readable zone -----

  /** The value of a character of the alphabet. */
  function Value(c: char): nat
    requires MrzCharValue(c).Some?
  {
    MrzCharValue(c).value
  }

  /** The values as published: digits stand for themselves, letters for 10 to 35, the filler for 0. */
  lemma ValuesAre(c: char)
    ensures '0' <= c <= '9' ==> MrzCharValue(c) == Some(c as int - 48)
    ensures 'A' <= c <= 'Z' ==> MrzCharValue(c) == Some(c as int - 55)
    ensures c == '<' ==> MrzCharValue(c) == Some(0)
  {
  }

  /** The published formula for the fields of six characters (dates) and of nine (the number): weights 7, 3, 1. */
  lemma FieldFormula(field: string, check: char)
    requires AllMrz(field)
    ensures |field| == 6 ==>
              (FieldValid(field, check)
               <==> check as int == 48 + (7 * (Value(field[0]) + Value(field[3]))
                                          + 3 * (Value(field[1]) + Value(field[4]))
                                          + (Value(field[2]) + Value(field[5]))) % 10)
    ensures |field| == 9 ==>
              (FieldValid(field, check)
               <==> check as int == 48 + (7 * (Value(field[0]) + Value(field[3]) + Value(field[6]))
                                          + 3 * (Value(field[1]) + Value(field[4]) + Value(field[7]))
                                          + (Value(field[2]) + Value(field[5]) + Value(field[8]))) % 10)
  {
    hide Sum, FieldValid, FieldCheck;
    FieldValidIff(field, check);
    var v := MrzValues(field);
    if |field| == 6 {
      SixTerms(v);
    } else if |field| == 9 {
      SixTerms(v);
      WeightedTerms(v, 6);
    }
  }

  lemma SixTerms(v: seq<nat>)
    requires |v| >= 6
    ensures Sum(MRZ_WEIGHTS, v, 6) == 7 * (v[0] + v[3]) + 3 * (v[1] + v[4]) + (v[2] + v[5])
  {
    hide Sum;
    SumStep(MRZ_WEIGHTS, v, 0);
    WeightedTerms(v, 0);
    WeightedTerms(v, 3);
  }

  lemma WeightedTerms(v: seq<nat>, i: nat)
    requires i % 3 == 0 && i + 3 <= |v|
    ensures Sum(MRZ_WEIGHTS, v, i + 3) == Sum(MRZ_WEIGHTS, v, i) + (7 * v[i] + 3 * v[i + 1] + v[i + 2])
  {
    hide Sum;
    SumStep(MRZ_WEIGHTS, v, i);
    SumStep(MRZ_WEIGHTS, v, i + 1);
    SumStep(MRZ_WEIGHTS, v, i + 2);
    assert (i + 1) % 3 == 1 && (i + 2) % 3 == 2;
  }

  /** A date of birth with its check digit. */
  lemma KnownField()
    ensures FieldValid("690806", '1')
  {
    hide FieldValid, CheckDigit;
    FieldFormula("690806", '1');
  }

  /** A field of the alphabet has exactly one check character, a digit. */
  lemma FieldValidIff(field: string, check: char)
    requires AllMrz(field)
    ensures FieldValid(field, check) <==> check as int == '0' as int + CheckDigit(MRZ_WEIGHTS, MrzValues(field))
  {
    hide CheckDigit;
  }

  /** A field with a foreign character, which the scanner's own pattern never delivers, has no check digit, and the
      comparison accepts every check character that is no digit. */
  lemma ForeignFieldValidIff(field: string, check: char)
    requires !AllMrz(field)
    ensures FieldValid(field, check) <==> !IsDigit(check)
  {
  }

  lemma FieldErrorMissedIff(field: string, check: char, j: nat, c: char)
    requires AllMrz(field) && FieldValid(field, check) && j < |field| && MrzCharValue(c).Some?
    ensures FieldValid(field[j := c], check)
            <==> MrzCharValue(c).value % 10 == MrzCharValue(field[j]).value % 10
  {
    hide CheckDigit;
    var v := MrzCharValue(c).value;
    SingleErrorMissedIff(MRZ_WEIGHTS, MrzValues(field), j, v);
    assert MrzValues(field[j := c]) == MrzValues(field)[j := v];
    assert AllMrz(field[j := c]);
  }

  predicate InField(j: nat) {
    j < 9 || 13 <= j < 19 || 21 <= j < 27
  }

  predicate IsCheck(j: nat) {
    j == 9 || j == 19 || j == 27
  }

  /** One wrong character in a valid line is missed exactly when it stands outside the three checked fields, or
      stands in one of them with a value that agrees modulo 10 (K for A, < for 0). */
  lemma LineErrorMissedIff(line: string, j: nat, c: char)
    requires |line| == 44 && AllMrz(line) && MrzLine2ChecksumsValid(line)
    requires j < 44 && MrzCharValue(c).Some?
    ensures MrzLine2ChecksumsValid(line[j := c])
            <==> c == line[j] || !(InField(j) || IsCheck(j))
                 || (InField(j) && MrzCharValue(c).value % 10 == MrzCharValue(line[j]).value % 10)
  {
    hide FieldCheck, FieldValid;
    var changed := line[j := c];
    PartErrorMissedIff(line, 0, 9, j, c);
    PartErrorMissedIff(line, 13, 19, j, c);
    PartErrorMissedIff(line, 21, 27, j, c);
  }

  lemma PartErrorMissedIff(line: string, from: nat, to: nat, j: nat, c: char)
    requires from <= to < |line| && AllMrz(line) && FieldValid(line[from..to], line[to])
    requires j < |line| && MrzCharValue(c).Some?
    ensures FieldValid(line[j := c][from..to], line[j := c][to])
            <==> c == line[j] || j < from || to < j
                 || (j < to && MrzCharValue(c).value % 10 == MrzCharValue(line[j]).value % 10)
  {
    hide FieldCheck, FieldValid, CheckDigit;
    var field := line[from..to];
    if j < from || to < j {
      assert line[j := c][from..to] == field;
    } else if j == to {
      assert line[j := c][from..to] == field;
      FieldValidIff(field, line[to]);
      FieldValidIff(field, c);
    } else {
      assert line[j := c][from..to] == field[j - from := c];
      FieldErrorMissedIff(field, line[to], j - from, c);
    }
  }
}
