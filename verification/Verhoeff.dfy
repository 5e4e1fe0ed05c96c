/** The Verhoeff check of Aadhaar numbers (crates/pii/src/lib.rs), and the errors it detects. */
module Verhoeff {
  import opened CheckDigits

  type Digit = d: int | 0 <= d < 10

  const D: seq<seq<Digit>> := [
    [0, 1, 2, 3, 4, 5, 6, 7, 8, 9],
    [1, 2, 3, 4, 0, 6, 7, 8, 9, 5],
    [2, 3, 4, 0, 1, 7, 8, 9, 5, 6],
    [3, 4, 0, 1, 2, 8, 9, 5, 6, 7],
    [4, 0, 1, 2, 3, 9, 5, 6, 7, 8],
    [5, 9, 8, 7, 6, 0, 4, 3, 2, 1],
    [6, 5, 9, 8, 7, 1, 0, 4, 3, 2],
    [7, 6, 5, 9, 8, 2, 1, 0, 4, 3],
    [8, 7, 6, 5, 9, 3, 2, 1, 0, 4],
    [9, 8, 7, 6, 5, 4, 3, 2, 1, 0]]

  const P: seq<seq<Digit>> := [
    [0, 1, 2, 3, 4, 5, 6, 7, 8, 9],
    [1, 5, 7, 6, 2, 8, 3, 0, 9, 4],
    [5, 8, 0, 3, 7, 9, 6, 1, 4, 2],
    [8, 9, 1, 6, 0, 4, 3, 5, 2, 7],
    [9, 4, 5, 3, 1, 2, 6, 8, 7, 0],
    [4, 2, 8, 6, 5, 7, 3, 9, 0, 1],
    [2, 7, 9, 3, 8, 0, 6, 4, 1, 5],
    [7, 0, 4, 6, 9, 1, 3, 2, 5, 8]]

  lemma TableShape()
    ensures |D| == 10 && |P| == 8
    ensures forall i :: 0 <= i < 10 ==> |D[i]| == 10
    ensures forall i :: 0 <= i < 8 ==> |P[i]| == 10
  {
  }

  function Mul(a: Digit, b: Digit): Digit {
    TableShape();
    D[a][b]
  }

  function Perm(i: nat, d: Digit): Digit {
    TableShape();
    P[i % 8][d]
  }

  /** The running total after the last k digits, right to left. */
  function Total(digits: seq<Digit>, k: nat): Digit
    requires k <= |digits|
  {
    if k == 0 then 0 else Mul(Total(digits, k - 1), Perm(k - 1, digits[|digits| - k]))
  }

  function DigitsOf(candidate: string): seq<Digit> {
    if candidate == "" then []
    else (if IsDigit(candidate[0]) then [candidate[0] as int - '0' as int] else []) + DigitsOf(candidate[1..])
  }

  predicate Valid(digits: seq<Digit>) {
    |digits| >= 12 && Total(digits[..12], 12) == 0
  }

  method AadhaarChecksumValid(candidate: string) returns (valid: bool)
    ensures valid <==> Valid(DigitsOf(candidate))
  {
    var digits := DigitsOf(candidate);
    if |digits| < 12 {
      return false;
    }
    var first := digits[..12];
    var c: Digit := 0;
    for i := 0 to 12
      invariant c == Total(first, i)
    {
      c := Mul(c, Perm(i, first[11 - i]));
    }
    return c == 0;
  }

  // ----- the tables -----

  /** Sums of two residues modulo 5. */
  function Wrap(n: int): int {
    if n >= 5 then n - 5 else n
  }

  /** Table D is the dihedral group of order 10. */
  function Dihedral(a: Digit, b: Digit): Digit {
    if a < 5 then (if b < 5 then Wrap(a + b) else 5 + Wrap(a + b - 5))
    else if b < 5 then 5 + Wrap(a - b)
    else Wrap(a - b + 5)
  }

  lemma RowIs(a: Digit, row: seq<Digit>, b: Digit)
    requires |row| == 10
    requires row[0] == Dihedral(a, 0) && row[1] == Dihedral(a, 1) && row[2] == Dihedral(a, 2)
    requires row[3] == Dihedral(a, 3) && row[4] == Dihedral(a, 4) && row[5] == Dihedral(a, 5)
    requires row[6] == Dihedral(a, 6) && row[7] == Dihedral(a, 7)
    requires row[8] == Dihedral(a, 8) && row[9] == Dihedral(a, 9)
    ensures row[b] == Dihedral(a, b)
  {
  }

  lemma MulIsDihedral(a: Digit, b: Digit)
    ensures Mul(a, b) == Dihedral(a, b)
  {
    match a
    case 0 => RowIs(0, D[0], b);
    case 1 => RowIs(1, D[1], b);
    case 2 => RowIs(2, D[2], b);
    case 3 => RowIs(3, D[3], b);
    case 4 => RowIs(4, D[4], b);
    case 5 => RowIs(5, D[5], b);
    case 6 => RowIs(6, D[6], b);
    case 7 => RowIs(7, D[7], b);
    case 8 => RowIs(8, D[8], b);
    case 9 => RowIs(9, D[9], b);
  }

  lemma DihedralAssociative(a: Digit, b: Digit, c: Digit)
    ensures Dihedral(Dihedral(a, b), c) == Dihedral(a, Dihedral(b, c))
  {
  }

  lemma Associative(a: Digit, b: Digit, c: Digit)
    ensures Mul(Mul(a, b), c) == Mul(a, Mul(b, c))
  {
    hide *;
    MulIsDihedral(a, b);
    MulIsDihedral(b, c);
    MulIsDihedral(Mul(a, b), c);
    MulIsDihedral(a, Mul(b, c));
    DihedralAssociative(a, b, c);
  }

  function Inverse(a: Digit): Digit {
    if a == 0 || a >= 5 then a else 5 - a
  }

  lemma InverseCancels(a: Digit)
    ensures Mul(Inverse(a), a) == 0 && Mul(a, Inverse(a)) == 0 && Mul(0, a) == a && Mul(a, 0) == a
  {
    MulIsDihedral(Inverse(a), a);
    MulIsDihedral(a, Inverse(a));
    MulIsDihedral(0, a);
    MulIsDihedral(a, 0);
  }

  lemma CancelLeft(c: Digit, a: Digit, b: Digit)
    requires Mul(c, a) == Mul(c, b)
    ensures a == b
  {
    Associative(Inverse(c), c, a);
    Associative(Inverse(c), c, b);
    InverseCancels(c);
    InverseCancels(a);
    InverseCancels(b);
  }

  lemma CancelRight(a: Digit, b: Digit, c: Digit)
    requires Mul(a, c) == Mul(b, c)
    ensures a == b
  {
    Associative(a, c, Inverse(c));
    Associative(b, c, Inverse(c));
    InverseCancels(c);
    InverseCancels(a);
    InverseCancels(b);
  }

  const P1_INVERSE: seq<Digit> := [7, 0, 4, 6, 9, 1, 3, 2, 5, 8]

  function Unperm(d: Digit): Digit {
    P1_INVERSE[d]
  }

  lemma PermOneInverts(d: Digit)
    ensures Unperm(Perm(1, d)) == d && Perm(1, Unperm(d)) == d
  {
    match d
    case 0 =>
    case 1 =>
    case 2 =>
    case 3 =>
    case 4 =>
    case 5 =>
    case 6 =>
    case 7 =>
    case 8 =>
    case 9 =>
  }

  lemma RowsCompose(row: seq<Digit>, next: seq<Digit>, d: Digit)
    requires |row| == 10 && |next| == 10
    requires next[0] == Perm(1, row[0]) && next[1] == Perm(1, row[1]) && next[2] == Perm(1, row[2])
    requires next[3] == Perm(1, row[3]) && next[4] == Perm(1, row[4]) && next[5] == Perm(1, row[5])
    requires next[6] == Perm(1, row[6]) && next[7] == Perm(1, row[7])
    requires next[8] == Perm(1, row[8]) && next[9] == Perm(1, row[9])
    ensures next[d] == Perm(1, row[d])
  {
  }

  /** Each row of P is row 1 applied to the row before it, around the cycle of eight. */
  lemma PermStep(i: nat, d: Digit)
    ensures Perm(i + 1, d) == Perm(1, Perm(i, d))
  {
    assert (i + 1) % 8 == (i % 8 + 1) % 8;
    match i % 8
    case 0 => RowsCompose(P[0], P[1], d);
    case 1 => RowsCompose(P[1], P[2], d);
    case 2 => RowsCompose(P[2], P[3], d);
    case 3 => RowsCompose(P[3], P[4], d);
    case 4 => RowsCompose(P[4], P[5], d);
    case 5 => RowsCompose(P[5], P[6], d);
    case 6 => RowsCompose(P[6], P[7], d);
    case 7 => RowsCompose(P[7], P[0], d);
  }

  lemma {:induction false} PermInjective(i: nat, a: Digit, b: Digit)
    requires Perm(i, a) == Perm(i, b)
    ensures a == b
  {
    hide Perm, Unperm;
    if i > 0 {
      PermStep(i - 1, a);
      PermStep(i - 1, b);
      PermOneInverts(Perm(i - 1, a));
      PermOneInverts(Perm(i - 1, b));
      PermInjective(i - 1, a, b);
    } else {
      PermZero(a);
      PermZero(b);
    }
  }

  lemma PermZero(d: Digit)
    ensures Perm(0, d) == d
  {
    match d
    case 0 =>
    case 1 =>
    case 2 =>
    case 3 =>
    case 4 =>
    case 5 =>
    case 6 =>
    case 7 =>
    case 8 =>
    case 9 =>
  }

  /** Swapping two unequal digits next to each other changes their joint contribution. */
  lemma AntiSymmetric(x: Digit, y: Digit)
    requires x != y
    ensures Mul(x, Perm(1, y)) != Mul(y, Perm(1, x))
  {
    MulIsDihedral(x, Perm(1, y));
    MulIsDihedral(y, Perm(1, x));
    hide Mul;
    DihedralAntiSymmetric(x, y, Perm(1, x), Perm(1, y));
  }

  predicate InPermOne(x: Digit, px: Digit) {
    match x
    case 0 => px == 1
    case 1 => px == 5
    case 2 => px == 7
    case 3 => px == 6
    case 4 => px == 2
    case 5 => px == 8
    case 6 => px == 3
    case 7 => px == 0
    case 8 => px == 9
    case 9 => px == 4
  }

  lemma DihedralAntiSymmetric(x: Digit, y: Digit, px: Digit, py: Digit)
    requires x != y && InPermOne(x, px) && InPermOne(y, py)
    ensures Dihedral(x, py) != Dihedral(y, px)
  {
  }

  // ----- errors in a number -----

  lemma {:induction false} TotalOfSame(a: seq<Digit>, b: seq<Digit>, k: nat)
    requires |a| == |b| && k <= |a| && forall i :: |a| - k <= i < |a| ==> a[i] == b[i]
    ensures Total(a, k) == Total(b, k)
  {
    hide Mul, Perm;
    if k > 0 {
      TotalOfSame(a, b, k - 1);
    }
  }

  /** Totals that differ keep differing while the remaining digits are the same. */
  lemma {:induction false} DifferenceStays(a: seq<Digit>, b: seq<Digit>, from: nat, k: nat)
    requires |a| == |b| && from <= k <= |a|
    requires Total(a, from) != Total(b, from)
    requires forall i :: 0 <= i < |a| - from ==> a[i] == b[i]
    ensures Total(a, k) != Total(b, k)
  {
    hide Mul, Perm;
    if k > from {
      DifferenceStays(a, b, from, k - 1);
      assert a[|a| - k] == b[|a| - k];
      if Total(a, k) == Total(b, k) {
        CancelRight(Total(a, k - 1), Total(b, k - 1), Perm(k - 1, a[|a| - k]));
      }
    }
  }

  lemma OneDigitChanges(a: seq<Digit>, j: nat, d: Digit)
    requires j < |a| && d != a[j]
    ensures Total(a[j := d], |a|) != Total(a, |a|)
  {
    hide Mul, Perm;
    var b, k := a[j := d], |a| - 1 - j;
    TotalOfSame(a, b, k);
    if Total(a, k + 1) == Total(b, k + 1) {
      CancelLeft(Total(a, k), Perm(k, a[j]), Perm(k, d));
      PermInjective(k, a[j], d);
    }
    DifferenceStays(a, b, k + 1, |a|);
  }

  lemma TwoDigitsSwapped(a: seq<Digit>, j: nat)
    requires j + 1 < |a| && a[j] != a[j + 1]
    ensures Total(Swapped(a, j), |a|) != Total(a, |a|)
  {
    hide Mul, Perm;
    var b, k := Swapped(a, j), |a| - 2 - j;
    TotalOfSame(a, b, k);
    var c, x, y := Total(a, k), Perm(k, a[j + 1]), Perm(k, a[j]);
    PermStep(k, a[j]);
    PermStep(k, a[j + 1]);
    assert Total(a, k + 2) == Mul(Mul(c, x), Perm(1, y));
    assert Total(b, k + 2) == Mul(Mul(c, y), Perm(1, x));
    if Total(a, k + 2) == Total(b, k + 2) {
      Associative(c, x, Perm(1, y));
      Associative(c, y, Perm(1, x));
      CancelLeft(c, Mul(x, Perm(1, y)), Mul(y, Perm(1, x)));
      DistinctPerm(k, a[j + 1], a[j]);
      AntiSymmetric(x, y);
    }
    DifferenceStays(a, b, k + 2, |a|);
  }

  lemma DistinctPerm(i: nat, a: Digit, b: Digit)
    requires a != b
    ensures Perm(i, a) != Perm(i, b)
  {
    if Perm(i, a) == Perm(i, b) {
      PermInjective(i, a, b);
    }
  }

  /** Changing any one of the first twelve digits of a valid number makes it invalid. */
  lemma SingleErrorDetected(digits: seq<Digit>, j: nat, d: Digit)
    requires Valid(digits) && j < 12 && d != digits[j]
    ensures !Valid(digits[j := d])
  {
    hide Total;
    OneDigitChanges(digits[..12], j, d);
    assert digits[j := d][..12] == digits[..12][j := d];
  }

  /** Swapping any two unequal neighbours among the first twelve digits makes it invalid. */
  lemma SwapDetected(digits: seq<Digit>, j: nat)
    requires Valid(digits) && j < 11 && digits[j] != digits[j + 1]
    ensures !Valid(Swapped(digits, j))
  {
    hide Total;
    var first := digits[..12];
    TwoDigitsSwapped(first, j);
    assert Swapped(digits, j)[..12] == Swapped(first, j);
  }

  /** The digit that must come last for the total to reach `target`. */
  function Solve(prefix: seq<Digit>, k: nat, target: Digit): Digit
    requires k <= |prefix|
  {
    if k == 0 then target
    else Solve(prefix, k - 1, Mul(target, Inverse(Perm(k, prefix[|prefix| - k]))))
  }

  lemma {:induction false} SolveSolves(prefix: seq<Digit>, k: nat, target: Digit, d: Digit)
    requires k <= |prefix|
    ensures Total(prefix + [d], k + 1) == target <==> d == Solve(prefix, k, target)
  {
    hide Mul, Perm, Inverse;
    var number := prefix + [d];
    if k == 0 {
      PermZero(d);
      InverseCancels(d);
      assert Total(number, 0) == 0 && Total(number, 1) == Mul(0, Perm(0, d));
    } else {
      var x := Perm(k, prefix[|prefix| - k]);
      assert number[|number| - (k + 1)] == prefix[|prefix| - k];
      var t := Total(number, k);
      SolveSolves(prefix, k - 1, Mul(target, Inverse(x)), d);
      DivideBack(t, x, target);
    }
  }

  lemma DivideBack(t: Digit, x: Digit, target: Digit)
    ensures Mul(t, x) == target <==> t == Mul(target, Inverse(x))
  {
    hide Mul;
    Associative(t, x, Inverse(x));
    Associative(target, Inverse(x), x);
    InverseCancels(x);
    InverseCancels(t);
    InverseCancels(target);
  }

  /** Every prefix of eleven digits has exactly one check digit. */
  lemma UniqueCheckDigit(prefix: seq<Digit>, more: seq<Digit>, d: Digit)
    requires |prefix| == 11
    ensures Valid(prefix + [d] + more) <==> d == Solve(prefix, 11, 0)
  {
    hide Total, Solve;
    assert (prefix + [d] + more)[..12] == prefix + [d];
    SolveSolves(prefix, 11, 0, d);
  }

  // ----- a number -----

  /** A valid number, digit by digit from the right. */
  lemma KnownNumber()
    ensures Valid([2, 3, 4, 1, 2, 3, 4, 1, 2, 3, 4, 6])
  {
    var d: seq<Digit> := [2, 3, 4, 1, 2, 3, 4, 1, 2, 3, 4, 6];
    assert d[..12] == d;
    KnownStart(d);
    TotalStep(d, 6);
    TotalStep(d, 7);
    TotalStep(d, 8);
    TotalStep(d, 9);
    TotalStep(d, 10);
    TotalStep(d, 11);
    hide Total;
    assert Mul(1, Perm(6, 3)) == 4;
    assert Mul(4, Perm(7, 2)) == 3;
    assert Mul(3, Perm(8, 1)) == 4;
    assert Mul(4, Perm(9, 4)) == 1;
    assert Mul(1, Perm(10, 3)) == 4;
    assert Mul(4, Perm(11, 2)) == 0;
  }

  lemma KnownStart(d: seq<Digit>)
    requires d == [2, 3, 4, 1, 2, 3, 4, 1, 2, 3, 4, 6]
    ensures Total(d, 6) == 1
  {
    TotalStep(d, 0);
    TotalStep(d, 1);
    TotalStep(d, 2);
    TotalStep(d, 3);
    TotalStep(d, 4);
    TotalStep(d, 5);
    hide Total;
    assert Mul(0, Perm(0, 6)) == 6;
    assert Mul(6, Perm(1, 4)) == 9;
    assert Mul(9, Perm(2, 3)) == 6;
    assert Mul(6, Perm(3, 2)) == 5;
    assert Mul(5, Perm(4, 1)) == 6;
    assert Mul(6, Perm(5, 4)) == 1;
  }

  lemma TotalStep(digits: seq<Digit>, k: nat)
    requires k < |digits|
    ensures Total(digits, 0) == 0
    ensures Total(digits, k + 1) == Mul(Total(digits, k), Perm(k, digits[|digits| - 1 - k]))
  {
  }

  /** The digits of a text in their order; all other characters are passed over. */
  lemma {:induction false} DigitsOfParts(a: string, b: string)
    ensures DigitsOf(a + b) == DigitsOf(a) + DigitsOf(b)
  {
    if a == "" {
      assert a + b == b;
    } else {
      DigitsOfParts(a[1..], b);
      assert (a + b)[1..] == a[1..] + b;
    }
  }

  lemma DigitsOfOne(c: char)
    ensures DigitsOf([c]) == if '0' <= c <= '9' then [c as int - 48] else []
  {
    assert [c][1..] == "" && DigitsOf("") == [];
  }
}
