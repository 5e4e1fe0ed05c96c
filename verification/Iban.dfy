/** The MOD 97-10 check of account numbers (`iban_checksum_valid`, crates/pii/src/lib.rs; ISO/IEC 7064): the
    streaming remainder, the big number it stands for, and the errors it detects. */
module Iban {
  import opened CheckDigits
  import Utf8

  newtype U64 = x: int | 0 <= x < 0x1_0000_0000_0000_0000

  type Digit = d: int | 0 <= d < 10

  predicate IsLetter(c: char) {
    'A' <= c <= 'Z'
  }

  predicate IsAsciiAlphabetic(c: char) {
    IsLetter(c) || 'a' <= c <= 'z'
  }

  predicate Alphanumeric(s: string) {
    forall i :: 0 <= i < |s| ==> IsDigit(s[i]) || IsLetter(s[i])
  }

  function ToUpper(s: string): (r: string)
    requires Utf8.Ascii(s)
    ensures |r| == |s|
    ensures forall i :: 0 <= i < |r| ==> !('a' <= r[i] <= 'z')
  {
    seq(|s|, i requires 0 <= i < |s| => if 'a' <= s[i] <= 'z' then s[i] - 'a' + 'A' else s[i])
  }

  /** The digits a character stands for: itself, or 10 to 35 for a letter. */
  function Expand(c: char): seq<Digit>
    requires IsDigit(c) || IsLetter(c)
  {
    if IsDigit(c) then [c as int - '0' as int]
    else var value := c as int - 'A' as int + 10; [value / 10, value % 10]
  }

  function ExpandAll(s: string): seq<Digit>
    requires Alphanumeric(s)
  {
    if s == "" then [] else ExpandAll(s[..|s| - 1]) + Expand(s[|s| - 1])
  }

  /** The integer a digit string writes. */
  function Number(digits: seq<Digit>): nat {
    if digits == [] then 0 else 10 * Number(digits[..|digits| - 1]) + digits[|digits| - 1]
  }

  function Rearranged(s: string): (r: string)
    requires |s| >= 4
    ensures |r| == |s|
  {
    s[4..] + s[..4]
  }

  predicate IsIban(s: string) {
    && 15 <= |s| <= 34
    && IsLetter(s[0]) && IsLetter(s[1])
    && Alphanumeric(s)
    && Number(ExpandAll(Rearranged(s))) % 97 == 1
  }

  // ----- the streaming remainder -----

  function Step(r: nat, c: char): nat
    requires IsDigit(c) || IsLetter(c)
  {
    if IsDigit(c) then (10 * r + (c as int - '0' as int)) % 97
    else (100 * r + (c as int - 'A' as int + 10)) % 97
  }

  function Remainder(s: string): (r: nat)
    requires Alphanumeric(s)
    ensures r < 97
  {
    if s == "" then 0 else Step(Remainder(s[..|s| - 1]), s[|s| - 1])
  }

  method IbanChecksumValid(candidate: string) returns (valid: bool)
    requires Utf8.Ascii(candidate)
    ensures valid <==> IsIban(ToUpper(candidate))
  {
    hide Number, ExpandAll, Remainder, Step, ToUpper;
    var upper := ToUpper(candidate);
    if |upper| < 15 || |upper| > 34 {
      return false;
    }
    if !IsAsciiAlphabetic(upper[0]) || !IsAsciiAlphabetic(upper[1]) {
      return false;
    }
    var rearranged := upper[4..] + upper[..4];
    RearrangedAlphanumeric(upper);

    var remainder: U64 := 0;
    EmptyRemainder();
    for i := 0 to |rearranged|
      invariant Alphanumeric(rearranged[..i])
      invariant remainder < 97 && remainder as int == Remainder(rearranged[..i])
    {
      var c := rearranged[i];
      if IsDigit(c) {
        StepIs(remainder as int, c);
        remainder := (remainder * 10 + (c as int - '0' as int) as U64) % 97;
      } else if IsAsciiAlphabetic(c) {
        var value := c as U64 - 'A' as U64 + 10;
        StepIs(remainder as int, c);
        TwoDigits(remainder as int, value as int);
        remainder := (remainder * 10 + value / 10) % 97;
        remainder := (remainder * 10 + value % 10) % 97;
      } else {
        return false;
      }
      RemainderStep(rearranged, i);
    }
    assert rearranged[..|rearranged|] == rearranged;
    RemainderIsNumberMod97(rearranged);
    return remainder == 1;
  }

  lemma EmptyRemainder()
    ensures Remainder("") == 0
  {
  }

  lemma RemainderStep(s: string, i: nat)
    requires i < |s| && Alphanumeric(s[..i]) && (IsDigit(s[i]) || IsLetter(s[i]))
    ensures Alphanumeric(s[..i + 1]) && Remainder(s[..i + 1]) == Step(Remainder(s[..i]), s[i])
  {
    assert s[..i + 1][..i] == s[..i];
  }

  lemma RearrangedAlphanumeric(s: string)
    requires |s| >= 4
    ensures Alphanumeric(Rearranged(s)) <==> Alphanumeric(s)
  {
    var r := Rearranged(s);
    forall i | 0 <= i < |s| ensures s[i] == r[if i < 4 then |s| - 4 + i else i - 4] {
    }
    forall i | 0 <= i < |r| ensures r[i] == s[if i < |s| - 4 then i + 4 else i - (|s| - 4)] {
    }
  }

  lemma ModAbsorbs(k: nat, r: nat, v: nat)
    requires k == 10 || k == 100
    ensures (k * (r % 97) + v) % 97 == (k * r + v) % 97
  {
    var q := r / 97;
    assert r == 97 * q + r % 97;
    if k == 10 {
      assert 10 * r + v == 97 * (10 * q) + (10 * (r % 97) + v);
    } else {
      assert 100 * r + v == 97 * (100 * q) + (100 * (r % 97) + v);
    }
  }

  /** The two single-digit steps of a letter are one step by its value. */
  lemma TwoDigits(r: nat, value: nat)
    requires 10 <= value < 36
    ensures (10 * ((10 * r + value / 10) % 97) + value % 10) % 97 == (100 * r + value) % 97
  {
    ModAbsorbs(10, 10 * r + value / 10, value % 10);
    assert 10 * (10 * r + value / 10) + value % 10 == 100 * r + value;
  }

  lemma NumberOfTwo(digits: seq<Digit>, a: Digit, b: Digit)
    ensures Number(digits + [a]) == 10 * Number(digits) + a
    ensures Number(digits + [a, b]) == 100 * Number(digits) + 10 * a + b
  {
    assert (digits + [a])[..|digits|] == digits;
    assert (digits + [a, b])[..|digits| + 1] == digits + [a];
  }

  /** The remainder kept along the way is that of the whole number, whatever its length. */
  lemma {:induction false} RemainderIsNumberMod97(s: string)
    requires Alphanumeric(s)
    ensures Remainder(s) == Number(ExpandAll(s)) % 97
  {
    if s != "" {
      var front, c := s[..|s| - 1], s[|s| - 1];
      RemainderIsNumberMod97(front);
      StepIsNumber(ExpandAll(front), c);
    }
  }

  lemma StepIsNumber(digits: seq<Digit>, c: char)
    requires IsDigit(c) || IsLetter(c)
    ensures Step(Number(digits) % 97, c) == Number(digits + Expand(c)) % 97
  {
    hide Number;
    var n := Number(digits);
    if IsDigit(c) {
      ModAbsorbs(10, n, c as int - '0' as int);
      NumberOfTwo(digits, c as int - '0' as int, 0);
    } else {
      var value := c as int - 'A' as int + 10;
      ModAbsorbs(100, n, value);
      NumberOfTwo(digits, value / 10, value % 10);
    }
  }

  // ----- errors -----

  /** Two characters that stand for the same number of digits. */
  predicate SameKind(c: char, d: char) {
    (IsDigit(c) && IsDigit(d)) || (IsLetter(c) && IsLetter(d))
  }

  function Value(c: char): nat
    requires IsDigit(c) || IsLetter(c)
  {
    if IsDigit(c) then c as int - '0' as int else c as int - 'A' as int + 10
  }

  lemma Congruent(x: nat, y: nat)
    ensures x % 97 == y % 97 <==> (x - y) % 97 == 0
  {
    assert x - y == 97 * (x / 97 - y / 97) + (x % 97 - y % 97);
  }

  /** 97 is prime to the factors that occur, so they cancel. */
  lemma Cancel(m: nat, e: int)
    requires m == 9 || m == 10 || m == 99 || m == 100
    requires -97 < e < 97
    ensures (m * e) % 97 == 0 <==> e == 0
  {
    var k := (m * e) / 97;
    if (m * e) % 97 == 0 {
      assert m * e == 97 * k;
      if m == 9 {
        assert e == 97 * (54 * k - 5 * e);
      } else if m == 10 {
        assert e == 97 * (68 * k - 7 * e);
      } else if m == 99 {
        assert e == 97 * (49 * (k - e) - e);
      } else {
        assert e == 97 * (65 * (k - e) - 2 * e);
      }
    }
  }

  lemma StepInjective(r: nat, s: nat, c: char)
    requires r < 97 && s < 97 && (IsDigit(c) || IsLetter(c))
    ensures Step(r, c) == Step(s, c) <==> r == s
  {
    if IsDigit(c) {
      Congruent(10 * r + Value(c), 10 * s + Value(c));
      Cancel(10, r - s);
    } else {
      Congruent(100 * r + Value(c), 100 * s + Value(c));
      Cancel(100, r - s);
    }
  }

  lemma StepSeparates(r: nat, c: char, d: char)
    requires SameKind(c, d) && c != d
    ensures Step(r, c) != Step(r, d)
  {
    var m := if IsDigit(c) then 10 else 100;
    Congruent(m * r + Value(c), m * r + Value(d));
  }

  /** What follows keeps remainders apart, and equal ones equal. */
  lemma {:induction false} TailKeeps(x: string, y: string, tail: string)
    requires Alphanumeric(x) && Alphanumeric(y) && Alphanumeric(tail)
    ensures Remainder(x + tail) == Remainder(y + tail) <==> Remainder(x) == Remainder(y)
  {
    hide Step;
    if tail == "" {
      assert x + tail == x && y + tail == y;
    } else {
      var front, c := tail[..|tail| - 1], tail[|tail| - 1];
      TailKeeps(x, y, front);
      assert (x + tail)[..|x + tail| - 1] == x + front;
      assert (y + tail)[..|y + tail| - 1] == y + front;
      StepInjective(Remainder(x + front), Remainder(y + front), c);
    }
  }

  lemma RemainderOfTwo(u: string, a: char, b: char)
    requires Alphanumeric(u) && (IsDigit(a) || IsLetter(a)) && (IsDigit(b) || IsLetter(b))
    ensures Remainder(u + [a]) == Step(Remainder(u), a)
    ensures Remainder(u + [a, b]) == Step(Step(Remainder(u), a), b)
  {
    hide Step;
    assert (u + [a])[..|u|] == u;
    assert (u + [a, b])[..|u| + 1] == u + [a];
  }

  function Place(s: string, j: nat): nat
    requires 4 <= |s| && j < |s|
  {
    if j < 4 then |s| - 4 + j else j - 4
  }

  lemma IbanIff(s: string)
    ensures IsIban(s) <==> 15 <= |s| <= 34 && IsLetter(s[0]) && IsLetter(s[1]) && Alphanumeric(s)
                           && (RearrangedAlphanumeric(s); Remainder(Rearranged(s)) == 1)
  {
    hide Remainder, ExpandAll, Number;
    if |s| >= 4 && Alphanumeric(s) {
      RearrangedAlphanumeric(s);
      RemainderIsNumberMod97(Rearranged(s));
    }
  }

  /** Replacing any digit by another digit, or any letter by another letter, makes a valid number invalid. */
  lemma SingleErrorDetected(s: string, j: nat, c: char)
    requires IsIban(s) && j < |s| && SameKind(s[j], c) && c != s[j]
    ensures !IsIban(s[j := c])
  {
    hide Remainder, Step, ExpandAll, Number;
    var t := s[j := c];
    IbanIff(s);
    IbanIff(t);
    RearrangedAlphanumeric(s);
    var r, p := Rearranged(s), Place(s, j);
    var u, tail := r[..p], r[p + 1..];
    assert r == u + [s[j]] + tail;
    assert Rearranged(t) == u + [c] + tail;
    RemainderOfTwo(u, s[j], s[j]);
    RemainderOfTwo(u, c, c);
    StepSeparates(Remainder(u), s[j], c);
    TailKeeps(u + [s[j]], u + [c], tail);
  }

  /** The neighbours whose swap goes unnoticed: equal ones, 1 with B, 2 with M and 3 with X. */
  predicate Blind(c: char, d: char) {
    c == d || {c, d} == {'1', 'B'} || {c, d} == {'2', 'M'} || {c, d} == {'3', 'X'}
  }

  lemma TwoSteps(r: nat, a: char, b: char)
    requires (IsDigit(a) || IsLetter(a)) && (IsDigit(b) || IsLetter(b))
    ensures Step(Step(r, a), b)
            == ((if SameKind(a, b) then if IsDigit(a) then 100 * r else 10000 * r else 1000 * r)
                + (if IsDigit(b) then 10 * Value(a) else 100 * Value(a)) + Value(b)) % 97
  {
    var x := if IsDigit(a) then 10 * r + Value(a) else 100 * r + Value(a);
    assert Step(r, a) == x % 97;
    ModAbsorbs(if IsDigit(b) then 10 else 100, x, Value(b));
  }

  lemma SwapSteps(r: nat, a: char, b: char)
    requires (IsDigit(a) || IsLetter(a)) && (IsDigit(b) || IsLetter(b))
    ensures Step(Step(r, a), b) == Step(Step(r, b), a) <==> Blind(a, b)
  {
    hide Step, Blind;
    if SameKind(a, b) {
      SwapOfKind(r, a, b);
    } else if IsDigit(a) {
      SwapOfDigitAndLetter(r, a, b);
    } else {
      SwapOfDigitAndLetter(r, b, a);
      BlindIff(b, a);
    }
  }

  lemma SwapOfKind(r: nat, a: char, b: char)
    requires SameKind(a, b)
    ensures Step(Step(r, a), b) == Step(Step(r, b), a) <==> Blind(a, b)
  {
    hide Step, Blind;
    TwoSteps(r, a, b);
    TwoSteps(r, b, a);
    BlindOfKind(a, b);
    var va: int, vb: int := Value(a), Value(b);
    if IsDigit(a) {
      Congruent(100 * r + 10 * va + vb, 100 * r + 10 * vb + va);
      Cancel(9, va - vb);
    } else {
      Congruent(10000 * r + 100 * va + vb, 10000 * r + 100 * vb + va);
      Cancel(99, va - vb);
    }
  }

  lemma SwapOfDigitAndLetter(r: nat, d: char, c: char)
    requires IsDigit(d) && IsLetter(c)
    ensures Step(Step(r, d), c) == Step(Step(r, c), d) <==> Blind(d, c)
  {
    hide Step, Blind;
    TwoSteps(r, d, c);
    TwoSteps(r, c, d);
    BlindIff(d, c);
    var vd: int, vc: int := Value(d), Value(c);
    Congruent(1000 * r + 100 * vd + vc, 1000 * r + 10 * vc + vd);
    Cancel(9, 11 * vd - vc);
  }

  lemma BlindOfKind(a: char, b: char)
    requires SameKind(a, b)
    ensures Blind(a, b) <==> Value(a) == Value(b)
  {
  }

  lemma BlindIff(d: char, c: char)
    requires IsDigit(d) && IsLetter(c)
    ensures Blind(d, c) <==> Value(c) == 11 * Value(d)
    ensures Blind(c, d) <==> Blind(d, c)
  {
  }

  lemma SwapPlaces(s: string, j: nat)
    requires 4 <= |s| && j + 1 < |s| && j != 3
    ensures Place(s, j) + 1 < |s|
    ensures var (r, p) := (Rearranged(s), Place(s, j));
            r == r[..p] + [s[j], s[j + 1]] + r[p + 2..]
            && Rearranged(Swapped(s, j)) == r[..p] + [s[j + 1], s[j]] + r[p + 2..]
  {
    assert Rearranged(Swapped(s, j)) == Swapped(Rearranged(s), Place(s, j));
  }

  /** Swapping two neighbours other than the fourth and fifth characters, which the rearrangement parts: the
      number stays valid exactly when the pair is blind and the country code keeps its two letters. */
  lemma SwapMissedIff(s: string, j: nat)
    requires IsIban(s) && j + 1 < |s| && j != 3
    ensures IsIban(Swapped(s, j)) <==> Blind(s[j], s[j + 1]) && (j == 1 ==> IsLetter(s[2]))
  {
    hide Remainder, Step, ExpandAll, Number;
    var t, a, b := Swapped(s, j), s[j], s[j + 1];
    IbanIff(s);
    IbanIff(t);
    RearrangedAlphanumeric(s);
    RearrangedAlphanumeric(t);
    assert Alphanumeric(t);
    var r, p := Rearranged(s), Place(s, j);
    SwapPlaces(s, j);
    var u, tail := r[..p], r[p + 2..];
    RemainderOfTwo(u, a, b);
    RemainderOfTwo(u, b, a);
    SwapSteps(Remainder(u), a, b);
    TailKeeps(u + [a, b], u + [b, a], tail);
  }

  // ----- the fourth and fifth characters -----

  function PowerOfTenMod97(n: nat): (r: nat)
    ensures r < 97
  {
    if n == 0 then 1 else 10 * PowerOfTenMod97(n - 1) % 97
  }

  /** Ten to the number of digits that s expands to, modulo 97. */
  function Weight(s: string): (r: nat)
    requires Alphanumeric(s)
    ensures r < 97
  {
    if s == "" then 1
    else (if IsDigit(s[|s| - 1]) then 10 else 100) * Weight(s[..|s| - 1]) % 97
  }

  lemma {:induction false} WeightIs(s: string)
    requires Alphanumeric(s)
    ensures |s| <= |ExpandAll(s)| <= 2 * |s| && Weight(s) == PowerOfTenMod97(|ExpandAll(s)|)
  {
    if s != "" {
      var n := |ExpandAll(s[..|s| - 1])|;
      WeightIs(s[..|s| - 1]);
      ModAbsorbs(10, 10 * PowerOfTenMod97(n), 0);
      assert PowerOfTenMod97(n + 2) == 10 * PowerOfTenMod97(n + 1) % 97;
    }
  }

  /** The next `steps` powers behind p are not 1. */
  predicate StaysOffOne(p: nat, steps: nat)
    decreases steps
  {
    steps == 0 || (10 * p % 97 != 1 && StaysOffOne(10 * p % 97, steps - 1))
  }

  lemma FiveSteps(p: nat, a: nat, b: nat, c: nat, d: nat, e: nat, steps: nat)
    requires a == 10 * p % 97 && b == 10 * a % 97 && c == 10 * b % 97 && d == 10 * c % 97 && e == 10 * d % 97
    requires a != 1 && b != 1 && c != 1 && d != 1 && e != 1 && StaysOffOne(e, steps)
    ensures StaysOffOne(p, steps + 5)
  {
    assert StaysOffOne(d, steps + 1);
    assert StaysOffOne(c, steps + 2);
    assert StaysOffOne(b, steps + 3);
    assert StaysOffOne(a, steps + 4);
  }

  /** The first powers: the order of ten modulo 97 is larger than any number of digits here. */
  lemma PowersStayOffOne()
    ensures StaysOffOne(1, 70)
  {
    hide StaysOffOne;
    OffOneEnds(72);
    FiveSteps(59, 8, 80, 24, 46, 72, 0);
    FiveSteps(47, 82, 44, 52, 35, 59, 5);
    FiveSteps(21, 16, 63, 48, 92, 47, 10);
    FiveSteps(94, 67, 88, 7, 70, 21, 15);
    FiveSteps(42, 32, 29, 96, 87, 94, 20);
    FiveSteps(91, 37, 79, 14, 43, 42, 25);
    FiveSteps(84, 64, 58, 95, 77, 91, 30);
    FiveSteps(85, 74, 61, 28, 86, 84, 35);
    FiveSteps(71, 31, 19, 93, 57, 85, 40);
    FiveSteps(73, 51, 25, 56, 75, 71, 45);
    FiveSteps(45, 62, 38, 89, 17, 73, 50);
    FiveSteps(49, 5, 50, 15, 53, 45, 55);
    FiveSteps(90, 27, 76, 81, 34, 49, 60);
    FiveSteps(1, 10, 3, 30, 9, 90, 65);
  }

  lemma OffOneEnds(p: nat)
    ensures StaysOffOne(p, 0)
  {
  }

  lemma {:induction false} NotOne(k: nat, steps: nat, n: nat)
    requires StaysOffOne(PowerOfTenMod97(k), steps) && k < n <= k + steps
    ensures PowerOfTenMod97(n) != 1
    decreases steps
  {
    if n > k + 1 {
      NotOne(k + 1, steps - 1, n);
    }
  }

  lemma NotDivides(f: nat)
    requires 2 <= f < 97
    ensures 97 % f != 0
  {
    var q := 97 / f;
    assert 97 == q * f + 97 % f;
    if f >= 10 {
      assert q < 10 by {
        if q >= 10 {
          TimesMonotone(10, q, f);
        }
      }
    }
  }

  lemma TimesMonotone(a: nat, b: nat, f: nat)
    requires a <= b
    ensures a * f <= b * f
  {
  }

  /** 97 is prime: a factor it does not divide cancels. */
  lemma {:induction false} PrimeCancels(f: nat, e: int)
    requires 0 < f < 97 && (f * e) % 97 == 0
    ensures e % 97 == 0
  {
    if f > 1 {
      var q, r, m := 97 / f, 97 % f, (f * e) / 97;
      NotDivides(f);
      assert f * e == 97 * m && 97 == q * f + r;
      Remaining(f, e, q, r, m);
      PrimeCancels(r, e);
    }
  }

  lemma Remaining(f: nat, e: int, q: nat, r: nat, m: int)
    requires f * e == 97 * m && 97 == q * f + r
    ensures (r * e) % 97 == 0
  {
    assert 97 * e == (q * f + r) * e == q * (f * e) + r * e;
    assert r * e == 97 * (e - q * m);
  }

  /** What stands between the fifth character and the fourth once the number is rearranged. */
  function Middle(s: string): string
    requires |s| >= 5
  {
    s[5..] + s[..3]
  }

  /** A value v in front of a string with weight w and remainder r. */
  function InFront(v: nat, w: nat, r: nat): nat {
    v * w + r
  }

  /** One more character of value d behind a number n. */
  function Behind(k: nat, n: nat, d: nat): nat {
    k * n + d
  }

  /** A character in front counts by its value and the digits behind it. */
  lemma {:induction false} FrontCharacter(x: char, s: string)
    requires (IsDigit(x) || IsLetter(x)) && Alphanumeric(s)
    ensures Remainder([x] + s) == InFront(Value(x), Weight(s), Remainder(s)) % 97
  {
    hide Remainder, Weight, Step;
    EmptyRemainder();
    if s == "" {
      assert [x] + s == "" + [x];
      RemainderOfTwo("", x, x);
      StepIs(0, x);
      WeightStep("", x);
    } else {
      var front, c := s[..|s| - 1], s[|s| - 1];
      assert s == front + [c];
      FrontCharacter(x, front);
      FrontStep(x, front, c);
    }
  }

  lemma FrontStep(x: char, front: string, c: char)
    requires (IsDigit(x) || IsLetter(x)) && (IsDigit(c) || IsLetter(c)) && Alphanumeric(front)
    requires Remainder([x] + front) == InFront(Value(x), Weight(front), Remainder(front)) % 97
    ensures Remainder([x] + (front + [c])) == InFront(Value(x), Weight(front + [c]), Remainder(front + [c])) % 97
  {
    hide Remainder, Weight, Step, Value, InFront, Behind;
    var w, r, v, k := Weight(front), Remainder(front), Value(x), if IsDigit(c) then 10 else 100;
    assert [x] + (front + [c]) == [x] + front + [c];
    RemainderOfTwo([x] + front, c, c);
    RemainderOfTwo(front, c, c);
    StepIs(InFront(v, w, r) % 97, c);
    StepIs(r, c);
    WeightStep(front, c);
    FrontArithmetic(k, v, w, r, Value(c));
  }

  lemma FrontArithmetic(k: nat, v: nat, w: nat, r: nat, d: nat)
    requires k == 10 || k == 100
    ensures Behind(k, InFront(v, w, r) % 97, d) % 97 == InFront(v, k * w % 97, Behind(k, r, d) % 97) % 97
  {
    ModAbsorbs(k, v * w + r, d);
    StepOfFront(k, v, w, r, d);
  }

  lemma StepIs(r: nat, c: char)
    requires IsDigit(c) || IsLetter(c)
    ensures Step(r, c) == Behind(if IsDigit(c) then 10 else 100, r, Value(c)) % 97
  {
  }

  lemma WeightStep(front: string, c: char)
    requires Alphanumeric(front) && (IsDigit(c) || IsLetter(c))
    ensures Weight("") == 1
    ensures Weight(front + [c]) == (if IsDigit(c) then 10 else 100) * Weight(front) % 97
  {
    assert (front + [c])[..|front|] == front;
  }

  lemma StepOfFront(k: nat, v: nat, w: nat, r: nat, d: nat)
    requires k == 10 || k == 100
    ensures (k * (v * w + r) + d) % 97 == (v * (k * w % 97) + (k * r + d) % 97) % 97
  {
    var q, p := k * w / 97, (k * r + d) / 97;
    assert k * w == 97 * q + k * w % 97;
    assert k * r + d == 97 * p + (k * r + d) % 97;
    assert k * (v * w + r) + d == v * (k * w) + (k * r + d);
    assert v * (k * w) == 97 * (v * q) + v * (k * w % 97);
    Multiple(v * q + p, v * (k * w % 97) + (k * r + d) % 97);
  }

  lemma Multiple(q: int, x: int)
    ensures (97 * q + x) % 97 == x % 97
  {
  }

  /** The remainder when x stands in front of the middle and y behind it. */
  lemma EndsRemainder(x: char, s: string, y: char)
    requires (IsDigit(x) || IsLetter(x)) && (IsDigit(y) || IsLetter(y)) && Alphanumeric(s)
    ensures Remainder([x] + s + [y])
            == Behind(if IsDigit(y) then 10 else 100, InFront(Value(x), Weight(s), Remainder(s)), Value(y)) % 97
  {
    hide Remainder, Weight, Step, Value, InFront;
    var n := InFront(Value(x), Weight(s), Remainder(s));
    FrontCharacter(x, s);
    RemainderOfTwo([x] + s, y, y);
    StepIs(n % 97, y);
    ModAbsorbs(if IsDigit(y) then 10 else 100, n, Value(y));
  }

  lemma EndsDifference(k: nat, w: nat, r: nat, va: nat, vb: nat)
    ensures var x: int, y: int := Behind(k, InFront(vb, w, r), va), Behind(k, InFront(va, w, r), vb);
            x - y == (k * w) * (vb - va) - (vb - va)
  {
    assert k * (vb * w + r) == k * (vb * w) + k * r;
    assert k * (va * w + r) == k * (va * w) + k * r;
    assert k * (vb * w) - k * (va * w) == (k * w) * (vb - va);
  }

  lemma OneLess(n: nat, e: int)
    requires (n * e - e) % 97 == 0 && n % 97 != 1
    ensures e % 97 == 0
  {
    var q, f := n / 97, n % 97 - 1;
    assert n == 97 * q + (f + 1);
    assert n * e == 97 * (q * e) + f * e + e;
    Multiple(q * e, f * e);
    if f == -1 {
      Multiple(-e, 96 * e);
      PrimeCancels(96, e);
    } else {
      PrimeCancels(f, e);
    }
  }

  lemma EndsDiffer(k: nat, w: nat, r: nat, va: nat, vb: nat)
    requires k * w % 97 != 1 && va != vb && va < 97 && vb < 97
    ensures Behind(k, InFront(vb, w, r), va) % 97 != Behind(k, InFront(va, w, r), vb) % 97
  {
    hide Behind, InFront;
    EndsDifference(k, w, r, va, vb);
    EndsApart(k * w, Behind(k, InFront(vb, w, r), va), Behind(k, InFront(va, w, r), vb), va, vb);
  }

  lemma EndsApart(n: nat, x: nat, y: nat, va: nat, vb: nat)
    requires n % 97 != 1 && va != vb && va < 97 && vb < 97
    requires x - y == n * (vb - va) - (vb - va)
    ensures x % 97 != y % 97
  {
    Congruent(x, y);
    if (x - y) % 97 == 0 {
      OneLess(n, vb - va);
    }
  }

  /** The digit d and the letter value c may stand on either side of the middle of weight w. */
  predicate AcrossBlind(w: nat, d: nat, c: nat) {
    (100 * w * (c - d) + 10 * d - c - 9) % 97 == 0
  }

  lemma EndsMixed(w: nat, r: nat, d: nat, c: nat)
    ensures var (x, y) := (Behind(10, InFront(c, w, r), d), Behind(100, InFront(d, w, r), c));
            && (x % 97 == 1 ==> (y % 97 == 1 <==> AcrossBlind(w, d, c)))
            && (y % 97 == 1 ==> (x % 97 == 1 <==> AcrossBlind(w, d, c)))
  {
    hide Behind, InFront;
    MixedDifference(w, r, d, c);
    MixedResidues(100 * w * (c - d) + 10 * d - c, Behind(10, InFront(c, w, r), d), Behind(100, InFront(d, w, r), c));
  }

  lemma MixedDifference(w: nat, r: nat, d: nat, c: nat)
    ensures var x: int, y: int := Behind(10, InFront(c, w, r), d), Behind(100, InFront(d, w, r), c);
            100 * w * (c - d) + 10 * d - c == 10 * x - y
  {
    assert 100 * w * (c - d) == 100 * (c * w) - 100 * (d * w);
  }

  lemma MixedResidues(z: int, x: nat, y: nat)
    requires z == 10 * x - y
    ensures x % 97 == 1 ==> (y % 97 == 1 <==> (z - 9) % 97 == 0)
    ensures y % 97 == 1 ==> (x % 97 == 1 <==> (z - 9) % 97 == 0)
  {
    var p, q := x / 97, y / 97;
    assert x == 97 * p + x % 97 && y == 97 * q + y % 97;
    assert z - 9 == 97 * (10 * p - q) + (10 * (x % 97) - y % 97 - 9);
    Multiple(10 * p - q, 10 * (x % 97) - y % 97 - 9);
    Cancel(10, x % 97 - 1);
  }

  lemma AcrossPlaces(s: string)
    requires |s| >= 5
    ensures Rearranged(s) == [s[4]] + Middle(s) + [s[3]]
    ensures Rearranged(Swapped(s, 3)) == [s[3]] + Middle(s) + [s[4]]
    ensures Alphanumeric(s) ==> Alphanumeric(Middle(s)) && Alphanumeric(Swapped(s, 3))
  {
    assert s[4..] == [s[4]] + s[5..] && s[..4] == s[..3] + [s[3]];
    var t := Swapped(s, 3);
    assert t[4..] == [s[3]] + s[5..] && t[..4] == s[..3] + [s[4]];
  }

  /** Swapping the fourth and fifth characters, which the rearrangement moves to the two ends: two characters of one
      kind must be equal, and of a digit and a letter the number of digits in between decides. */
  lemma SwapAcrossIff(s: string)
    requires IsIban(s)
    ensures Alphanumeric(Middle(s))
    ensures IsIban(Swapped(s, 3)) <==>
            if SameKind(s[3], s[4]) then s[3] == s[4]
            else if IsDigit(s[3]) then AcrossBlind(Weight(Middle(s)), Value(s[3]), Value(s[4]))
            else AcrossBlind(Weight(Middle(s)), Value(s[4]), Value(s[3]))
  {
    hide Remainder, ExpandAll, Number, Weight, AcrossBlind, InFront, Behind;
    var t, a, b := Swapped(s, 3), s[3], s[4];
    var middle := Middle(s);
    AcrossPlaces(s);
    IbanIff(s);
    IbanIff(t);
    RearrangedAlphanumeric(s);
    RearrangedAlphanumeric(t);
    EndsRemainder(b, middle, a);
    EndsRemainder(a, middle, b);
    if SameKind(a, b) {
      assert a == b ==> t == s;
      if a != b {
        OffOne(middle);
        EndsDiffer(if IsDigit(a) then 10 else 100, Weight(middle), Remainder(middle), Value(a), Value(b));
      }
    } else if IsDigit(a) {
      EndsMixed(Weight(middle), Remainder(middle), Value(a), Value(b));
    } else {
      EndsMixed(Weight(middle), Remainder(middle), Value(b), Value(a));
    }
  }

  lemma OffOne(s: string)
    requires Alphanumeric(s) && |s| <= 34 - 2
    ensures 10 * Weight(s) % 97 != 1 && 100 * Weight(s) % 97 != 1
  {
    hide StaysOffOne;
    WeightIs(s);
    var n := |ExpandAll(s)|;
    PowersStayOffOne();
    assert PowerOfTenMod97(0) == 1;
    NotOne(0, 70, n + 1);
    NotOne(0, 70, n + 2);
    ModAbsorbs(10, 10 * PowerOfTenMod97(n), 0);
    assert PowerOfTenMod97(n + 1) == 10 * PowerOfTenMod97(n) % 97;
    assert PowerOfTenMod97(n + 2) == 10 * PowerOfTenMod97(n + 1) % 97;
  }

  // ----- the check digits -----

  /** The number `country`, two check digits, `account`. */
  function Assembled(country: string, check: nat, account: string): string
    requires check < 100
  {
    country + [(check / 10) as char + '0', (check % 10) as char + '0'] + account
  }

  /** The check digits the standard prescribes: 98 less the remainder with 00 in their place. */
  function Prescribed(country: string, account: string): (r: nat)
    requires Alphanumeric(country) && Alphanumeric(account)
    ensures 2 <= r <= 98
  {
    98 - (100 * Remainder(account + country)) % 97
  }

  predicate SameCheck(a: int, b: int) {
    a == b || a == b - 97 || a == b + 97
  }

  /** The prescribed check digits are accepted, and besides them only an alias 97 away: 00 for 97, 01 for 98
      and 99 for 02. */
  lemma CheckDigitsIff(country: string, check: nat, account: string)
    requires |country| == 2 && IsLetter(country[0]) && IsLetter(country[1])
    requires Alphanumeric(account) && check < 100
    ensures IsIban(Assembled(country, check, account))
            <==> 11 <= |account| <= 30 && SameCheck(check, Prescribed(country, account))
  {
    hide Remainder, Step, ExpandAll, Number;
    var s, u := Assembled(country, check, account), account + country;
    var d, e := (check / 10) as char + '0', (check % 10) as char + '0';
    assert Alphanumeric(s);
    IbanIff(s);
    assert s[4..] == account;
    assert Rearranged(s) == u + [d, e];
    RemainderOfTwo(u, d, e);
    TwoSteps(Remainder(u), d, e);
    assert Remainder(Rearranged(s)) == (100 * Remainder(u) + check) % 97;
    Complement(100 * Remainder(u), check);
  }

  lemma Complement(n: nat, check: nat)
    requires check < 100
    ensures (n + check) % 97 == 1 <==> SameCheck(check, 98 - n % 97)
  {
    var q, r := n / 97, n % 97;
    assert n + check == 97 * q + (r + check);
  }

  /** The values of the characters: digits stand for themselves, letters for 10 to 35 in two digits. */
  lemma ExpandIs(c: char)
    ensures '0' <= c <= '9' ==> Expand(c) == [c as int - 48]
    ensures 'A' <= c <= 'Z' ==> Number(Expand(c)) == c as int - 55 && |Expand(c)| == 2
  {
    if 'A' <= c <= 'Z' {
      NumberOfTwo([], (c as int - 55) / 10, (c as int - 55) % 10);
      assert [] + Expand(c) == Expand(c) && Number([]) == 0;
    }
  }

  /** A lower-case letter counts as its capital. */
  lemma UpperIgnoresCase(s: string, i: nat, c: char)
    requires Utf8.Ascii(s) && i < |s| && 'A' <= c <= 'Z'
    requires s[i] == c || s[i] as int == c as int + 32
    ensures ToUpper(s)[i] == c && ToUpper(s) == ToUpper(s[i := c])
  {
  }

  lemma UpperKeeps(s: string, i: nat)
    requires Utf8.Ascii(s) && i < |s| && !('a' <= s[i] <= 'z')
    ensures ToUpper(s)[i] == s[i]
  {
  }
}
