/** The Luhn check in an even base: payment cards (base 10, ISO/IEC 7812-1 Annex B) and GSTIN (base 36),
    both in crates/pii/src/lib.rs. */
module LuhnModN {
  import opened Wrappers
  import opened CheckDigits

  /** A doubled digit with its two base-n digits added together. */
  function Doubled(n: nat, v: nat): nat
    requires n > 0
  {
    2 * v / n + 2 * v % n
  }

  /** What digit v adds at position i from the right. */
  function Term(n: nat, i: nat, v: nat): nat
    requires n > 0
  {
    if i % 2 == 0 then v else Doubled(n, v)
  }

  /** The sum over the last k digits. */
  function Sum(n: nat, digits: seq<nat>, k: nat): nat
    requires n > 0 && k <= |digits|
  {
    if k == 0 then 0 else Sum(n, digits, k - 1) + Term(n, k - 1, digits[|digits| - k])
  }

  predicate Valid(n: nat, digits: seq<nat>)
    requires n > 0
  {
    Sum(n, digits, |digits|) % n == 0
  }

  predicate InBase(n: nat, digits: seq<nat>) {
    forall i :: 0 <= i < |digits| ==> digits[i] < n
  }

  /** The bases in use, both even. */
  predicate Base(n: nat) {
    n == 10 || n == 36
  }

  // ----- the two users -----

  method LuhnChecksumValid(digits: string) returns (valid: bool)
    requires AllDigits(digits)
    ensures valid <==> Valid(10, DigitValues(digits))
  {
    hide Sum, Term;
    var sum := 0;
    ghost var values := DigitValues(digits);
    SumStep(10, values, 0);
    for i := 0 to |digits|
      invariant sum == Sum(10, values, i)
    {
      var d := digits[|digits| - 1 - i] as int - '0' as int;
      SumStep(10, values, i);
      CardTerm(i, d);
      if i % 2 == 0 {
        sum := sum + d;
      } else {
        var doubled := d * 2;
        sum := sum + if doubled > 9 then doubled - 9 else doubled;
      }
    }
    return sum % 10 == 0;
  }

  lemma SumStep(n: nat, digits: seq<nat>, k: nat)
    requires n > 0 && k <= |digits|
    ensures Sum(n, digits, 0) == 0
    ensures k < |digits| ==> Sum(n, digits, k + 1) == Sum(n, digits, k) + Term(n, k, digits[|digits| - 1 - k])
  {
  }

  lemma CardTerm(i: nat, d: nat)
    requires d < 10
    ensures Term(10, i, d) == if i % 2 == 0 then d else if 2 * d > 9 then 2 * d - 9 else 2 * d
  {
    DoubledIs(10, d);
  }

  /** Position in "0123456789ABCDEFGHIJKLMNOPQRSTUVWXYZ". */
  function CodePoint(c: char): (r: Option<nat>)
    ensures r.Some? ==> r.value < 36
  {
    if '0' <= c <= '9' then Some(c as int - '0' as int)
    else if 'A' <= c <= 'Z' then Some(c as int - 'A' as int + 10)
    else None
  }

  predicate AllCodes(s: string) {
    forall i :: 0 <= i < |s| ==> CodePoint(s[i]).Some?
  }

  function Codes(s: string): (r: seq<nat>)
    requires AllCodes(s)
    ensures |r| == |s| && InBase(36, r)
    ensures forall i :: 0 <= i < |r| ==> r[i] == CodePoint(s[i]).value
  {
    seq(|s|, i requires 0 <= i < |s| => CodePoint(s[i]).value)
  }

  method GstinChecksumValid(gstin: string) returns (valid: bool)
    ensures valid <==> |gstin| == 15 && AllCodes(gstin) && Valid(36, Codes(gstin))
  {
    hide Sum;
    if |gstin| != 15 {
      return false;
    }
    var factor := 2;
    var sum: nat := 0;
    var i := 14;
    if AllCodes(gstin) {
      SumOfLast(36, Codes(gstin));
    }
    while i > 0
      invariant 0 <= i <= 14
      invariant factor == if i % 2 == 0 then 2 else 1
      invariant forall j :: i <= j < 14 ==> CodePoint(gstin[j]).Some?
      invariant AllCodes(gstin) ==> sum + Codes(gstin)[14] == Sum(36, Codes(gstin), 15 - i)
    {
      i := i - 1;
      var code := CodePoint(gstin[i]);
      if code == None {
        return false;
      }
      var digit := factor * code.value;
      if AllCodes(gstin) {
        TermOfFactor(gstin, i, factor);
      }
      sum := sum + (digit / 36 + digit % 36);
      factor := if factor == 2 then 1 else 2;
    }
    var check := (36 - sum % 36) % 36;
    assert forall j :: 0 <= j < 14 ==> CodePoint(gstin[j]).Some?;
    valid := CodePoint(gstin[14]) == Some(check);
    assert AllCodes(gstin) <==> CodePoint(gstin[14]).Some?;
    if CodePoint(gstin[14]).Some? {
      CheckMeets(sum, CodePoint(gstin[14]).value);
    }
  }

  lemma SumOfLast(n: nat, digits: seq<nat>)
    requires n > 0 && digits != []
    ensures Sum(n, digits, 1) == digits[|digits| - 1]
  {
    assert Sum(n, digits, 0) == 0;
  }

  lemma TermOfFactor(gstin: string, i: nat, factor: nat)
    requires |gstin| == 15 && AllCodes(gstin) && i < 14 && factor == if i % 2 == 0 then 1 else 2
    ensures Sum(36, Codes(gstin), 15 - i)
            == Sum(36, Codes(gstin), 14 - i) + (factor * Codes(gstin)[i] / 36 + factor * Codes(gstin)[i] % 36)
  {
    hide Sum, Term;
    SumStep(36, Codes(gstin), 14 - i);
    FactorTerm(14 - i, Codes(gstin)[i]);
    assert (14 - i) % 2 == i % 2;
  }

  lemma FactorTerm(k: nat, v: nat)
    requires v < 36
    ensures Term(36, k, v) == if k % 2 == 0 then 1 * v / 36 + 1 * v % 36 else 2 * v / 36 + 2 * v % 36
  {
  }

  lemma CheckMeets(sum: nat, check: nat)
    requires check < 36
    ensures check == (36 - sum % 36) % 36 <==> (sum + check) % 36 == 0
  {
  }

  // ----- arithmetic in a base -----

  lemma DoubledIs(n: nat, v: nat)
    requires Base(n) && v < n
    ensures Doubled(n, v) == if v < n / 2 then 2 * v else 2 * v - n + 1
  {
    if n == 10 {
      assert Doubled(10, v) == 2 * v / 10 + 2 * v % 10;
    } else {
      assert Doubled(36, v) == 2 * v / 36 + 2 * v % 36;
    }
  }

  /** Numbers less than one base apart are congruent only when equal. */
  lemma Near(n: nat, x: nat, y: nat)
    requires Base(n) && x < y + n && y < x + n
    ensures x % n == y % n <==> x == y
  {
    if n == 10 {
      assert x % 10 == y % 10 <==> x == y;
    } else {
      assert x % 36 == y % 36 <==> x == y;
    }
  }

  /** Each term maps the digits of the base one to one into the base. */
  lemma TermInjective(n: nat, i: nat, a: nat, b: nat)
    requires Base(n) && a < n && b < n
    ensures Term(n, i, a) < n && (Term(n, i, a) == Term(n, i, b) <==> a == b)
  {
    DoubledIs(n, a);
    DoubledIs(n, b);
  }

  /** Replacing one digit changes the sum by the change of its term. */
  lemma {:induction false} SumUpdate(n: nat, digits: seq<nat>, j: nat, v: nat, k: nat)
    requires n > 0 && j < |digits| && k <= |digits|
    ensures Sum(n, digits[j := v], k) + (if j >= |digits| - k then Term(n, |digits| - 1 - j, digits[j]) else 0)
            == Sum(n, digits, k) + (if j >= |digits| - k then Term(n, |digits| - 1 - j, v) else 0)
  {
    hide Term;
    if k > 0 {
      SumUpdate(n, digits, j, v, k - 1);
    }
  }

  // ----- errors -----

  /** Changing any one digit, at any length, makes a valid number invalid. */
  lemma SingleErrorDetected(n: nat, digits: seq<nat>, j: nat, v: nat)
    requires Base(n) && InBase(n, digits) && Valid(n, digits)
    requires j < |digits| && v < n && v != digits[j]
    ensures !Valid(n, digits[j := v])
  {
    hide Term, Sum;
    var i := |digits| - 1 - j;
    SumUpdate(n, digits, j, v, |digits|);
    TermInjective(n, i, digits[j], v);
    TermInjective(n, i, v, v);
    Near(n, Sum(n, digits, |digits|), Sum(n, digits[j := v], |digits|));
  }

  /** Exactly one last digit completes a number. */
  lemma UniqueCheckDigit(n: nat, prefix: seq<nat>, u: nat, v: nat)
    requires Base(n) && InBase(n, prefix) && u < n && v < n
    requires Valid(n, prefix + [u])
    ensures Valid(n, prefix + [v]) <==> u == v
  {
    if u != v {
      SingleErrorDetected(n, prefix + [u], |prefix|, v);
      assert (prefix + [u])[|prefix| := v] == prefix + [v];
    }
  }

  /** A check digit exists: the complement of what the prefix sums to. */
  lemma CheckDigitExists(n: nat, prefix: seq<nat>) returns (u: nat)
    requires Base(n)
    ensures u < n && Valid(n, prefix + [u])
  {
    var zero := prefix + [0];
    var s := Sum(n, zero, |zero|);
    u := (n - s % n) % n;
    assert zero[|prefix| := u] == prefix + [u];
    SumUpdate(n, zero, |prefix|, u, |zero|);
    Complement(n, s, u);
  }

  lemma Complement(n: nat, s: nat, u: nat)
    requires Base(n) && u == (n - s % n) % n
    ensures (s + u) % n == 0 && u < n
  {
    if n == 10 {
      assert u == (10 - s % 10) % 10;
    } else {
      assert u == (36 - s % 36) % 36;
    }
  }

  /** The one pair of neighbours whose swap goes unnoticed: 0 and the highest digit. */
  predicate Blind(n: nat, a: nat, b: nat) {
    a == b || (a == 0 && b == n - 1) || (a == n - 1 && b == 0)
  }

  lemma SwapChange(n: nat, a: nat, b: nat, s: nat, t: nat)
    requires Base(n) && a < n && b < n
    requires t + a + Doubled(n, b) == s + b + Doubled(n, a)
    ensures s % n == t % n <==> Blind(n, a, b)
  {
    hide Doubled;
    DoubledIs(n, a);
    DoubledIs(n, b);
    Near(n, s, t);
  }

  /** Swapping two neighbours of a valid number leaves it valid only when they are equal or 0 and n - 1
      (for cards 09 and 90). */
  lemma SwapDetectedIff(n: nat, digits: seq<nat>, j: nat)
    requires Base(n) && InBase(n, digits) && Valid(n, digits) && j + 1 < |digits|
    ensures Valid(n, Swapped(digits, j)) <==> Blind(n, digits[j], digits[j + 1])
  {
    hide Sum, Doubled;
    var a, b, i := digits[j], digits[j + 1], |digits| - 2 - j;
    var half := digits[j := b];
    SumUpdate(n, digits, j, b, |digits|);
    SumUpdate(n, half, j + 1, a, |digits|);
    var s, t := Sum(n, digits, |digits|), Sum(n, Swapped(digits, j), |digits|);
    assert t + Term(n, i + 1, a) + Term(n, i, b) == s + Term(n, i + 1, b) + Term(n, i, a);
    if i % 2 == 0 {
      SwapChange(n, b, a, s, t);
    } else {
      SwapChange(n, a, b, s, t);
    }
  }

  // ----- the numbers themselves -----

  /** The sum from the right: of two more digits in front of an even number of them, the second counts once and the
      first twice, less n - 1 when doubling it leaves the base. */
  lemma FrontPair(n: nat, a: nat, b: nat, digits: seq<nat>)
    requires Base(n) && a < n && b < n && |digits| % 2 == 0
    ensures Sum(n, [], 0) == 0
    ensures Sum(n, [a, b] + digits, |digits| + 2)
            == Sum(n, digits, |digits|) + b + (if 2 * a < n then 2 * a else 2 * a - n + 1)
  {
    hide Sum, Term, Doubled;
    var all, k := [a, b] + digits, |digits|;
    SumStep(n, [], 0);
    SumStep(n, all, k);
    SumStep(n, all, k + 1);
    SumOfBack(n, [a, b], digits, k);
    PairTerms(n, k, a, b);
  }

  lemma PairTerms(n: nat, k: nat, a: nat, b: nat)
    requires Base(n) && a < n && b < n && k % 2 == 0
    ensures Term(n, k, b) == b && Term(n, k + 1, a) == if 2 * a < n then 2 * a else 2 * a - n + 1
  {
    hide Doubled;
    DoubledIs(n, a);
  }

  lemma {:induction false} SumOfBack(n: nat, front: seq<nat>, digits: seq<nat>, k: nat)
    requires n > 0 && k <= |digits|
    ensures Sum(n, front + digits, k) == Sum(n, digits, k)
  {
    hide Term;
    if k > 0 {
      SumOfBack(n, front, digits, k - 1);
    }
  }

  /** A number is valid when that sum is a multiple of the base: of two digits, 18 and 26 are, and all zeros are. */
  lemma ValidPairs(n: nat, a: nat, b: nat)
    requires Base(n) && a < n && b < n
    ensures Valid(n, [a, b]) <==> b + (if 2 * a < n then 2 * a else 2 * a - n + 1) in {0, n, 2 * n}
  {
    hide Sum;
    FrontPair(n, a, b, []);
    assert [a, b] + [] == [a, b];
    Multiples(n, b + (if 2 * a < n then 2 * a else 2 * a - n + 1));
  }

  lemma Multiples(n: nat, s: nat)
    requires Base(n) && s <= 2 * n
    ensures s % n == 0 <==> s in {0, n, 2 * n}
  {
    if n == 10 {
      assert s % 10 == 0 <==> s in {0, 10, 20};
    } else {
      assert s % 36 == 0 <==> s in {0, 36, 72};
    }
  }

  /** The alphabet of the codes: digits, then letters. */
  lemma CodePointIs(c: char)
    ensures '0' <= c <= '9' ==> CodePoint(c) == Some(c as int - 48)
    ensures 'A' <= c <= 'Z' ==> CodePoint(c) == Some(c as int - 55)
    ensures !('0' <= c <= '9') && !('A' <= c <= 'Z') ==> CodePoint(c) == None
  {
  }
}
