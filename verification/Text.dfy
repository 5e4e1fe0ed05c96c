/** The Rust string primitives the HTTP code relies on: trimming, ASCII case folding,
    and printing and parsing of unsigned 64-bit numbers. */
module Text {
  import opened Wrappers

  const USIZE_END := 0x1_0000_0000_0000_0000

  // ----- trimming -----

  predicate IsEol(c: char) {
    c == '\r' || c == '\n'
  }

  /** `char::is_whitespace`: the Unicode White_Space property. */
  predicate IsWhitespace(c: char) {
    var n := c as int;
    || 9 <= n <= 13 || n == 32 || n == 0x85 || n == 0xA0 || n == 0x1680 || 0x2000 <= n <= 0x200A
    || n == 0x2028 || n == 0x2029 || n == 0x202F || n == 0x205F || n == 0x3000
  }

  function TrimEndBy(s: string, p: char -> bool): (r: string)
    ensures r <= s
    ensures r == [] || !p(r[|r| - 1])
    ensures s == [] || !p(s[|s| - 1]) ==> r == s
  {
    if s != [] && p(s[|s| - 1]) then TrimEndBy(s[..|s| - 1], p) else s
  }

  function TrimStartBy(s: string, p: char -> bool): (r: string)
    ensures |r| <= |s| && forall c :: c in r ==> c in s
    ensures r == [] || (!p(r[0]) && r[|r| - 1] == s[|s| - 1])
    ensures s == [] || !p(s[0]) ==> r == s
  {
    if s != [] && p(s[0]) then TrimStartBy(s[1..], p) else s
  }

  function TrimEol(s: string): (r: string)
    ensures r <= s
  {
    TrimEndBy(s, IsEol)
  }

  function TrimEnd(s: string): (r: string)
    ensures r <= s
  {
    TrimEndBy(s, IsWhitespace)
  }

  function Trim(s: string): (r: string)
    ensures |r| <= |s|
    ensures forall c :: c in r ==> c in s
  {
    TrimStartBy(TrimEnd(s), IsWhitespace)
  }

  /** A string that `trim` leaves alone. */
  predicate Trimmed(s: string) {
    s == [] || (!IsWhitespace(s[0]) && !IsWhitespace(s[|s| - 1]))
  }

  lemma TrimIsTrimmed(s: string)
    ensures Trimmed(Trim(s))
    ensures Trimmed(s) ==> Trim(s) == s
  {
    var e := TrimEnd(s);
    var r := Trim(s);
    if r != [] {
      assert r[|r| - 1] == e[|e| - 1];
    }
  }

  /** Trimming forgets one leading space and the line ending that a writer puts around a trimmed value. */
  lemma TrimSpace(s: string)
    requires Trimmed(s)
    ensures Trim(" " + s) == s
  {
    if s == [] {
      assert TrimEnd(" ") == TrimEndBy("", IsWhitespace) == "";
      assert " " + s == " ";
    } else {
      assert (" " + s)[|s|] == s[|s| - 1];
      assert TrimEnd(" " + s) == " " + s;
      assert (" " + s)[1..] == s;
    }
  }

  lemma TrimEndOfTwo(s: string, a: char, b: char, p: char -> bool)
    requires s == [] || !p(s[|s| - 1])
    requires p(a) && p(b)
    ensures TrimEndBy(s + [a, b], p) == s
  {
    assert (s + [a, b])[..|s| + 1] == s + [a];
    assert (s + [a])[..|s|] == s;
    assert TrimEndBy(s + [a], p) == TrimEndBy(s, p);
  }

  lemma TrimEolOfLine(s: string)
    requires s == [] || !IsEol(s[|s| - 1])
    ensures TrimEol(s + "\r\n") == s
  {
    TrimEndOfTwo(s, '\r', '\n', IsEol);
  }

  lemma TrimEndOfLine(s: string)
    requires s == [] || !IsWhitespace(s[|s| - 1])
    ensures TrimEnd(s + "\r\n") == s
  {
    TrimEndOfTwo(s, '\r', '\n', IsWhitespace);
  }

  // ----- splitting -----

  /** The part before the first `c`, or all of `s`. */
  function Before(s: string, c: char): (r: string)
    ensures r <= s && c !in r
    ensures if c in s then |r| < |s| && s[|r|] == c else r == s
  {
    if s == [] || s[0] == c then [] else [s[0]] + Before(s[1..], c)
  }

  lemma {:induction false} BeforeFirst(s: string, c: char, t: string)
    requires c !in s
    ensures Before(s + [c] + t, c) == s
  {
    if s == [] {
      assert ([] + [c] + t)[0] == c;
    } else {
      BeforeFirst(s[1..], c, t);
      assert (s + [c] + t)[1..] == s[1..] + [c] + t;
    }
  }

  // ----- case folding -----

  function LowerAscii(c: char): char {
    if 'A' <= c <= 'Z' then (c as int + 32) as char else c
  }

  predicate EqIgnoreAsciiCase(s: string, t: string) {
    |s| == |t| && forall i :: 0 <= i < |s| ==> LowerAscii(s[i]) == LowerAscii(t[i])
  }

  /** `to_lowercase` as far as ASCII letters can tell: besides A-Z, only U+212A (Kelvin sign)
      lowercases to an ASCII letter of "chunked". */
  function Lower(c: char): char {
    if c == '\U{212A}' then 'k' else LowerAscii(c)
  }

  function ToLower(s: string): string {
    seq(|s|, i requires 0 <= i < |s| => Lower(s[i]))
  }

  // ----- unsigned numbers -----

  function DigitValue(c: char): (r: Option<nat>)
    ensures r.Some? ==> r.value < 16
  {
    if '0' <= c <= '9' then Some(c as int - '0' as int)
    else if 'a' <= c <= 'f' then Some(c as int - 'a' as int + 10)
    else if 'A' <= c <= 'F' then Some(c as int - 'A' as int + 10)
    else None
  }

  function DigitChar(d: nat): (c: char)
    requires d < 16
    ensures DigitValue(c) == Some(d)
    ensures !IsWhitespace(c) && c != ';' && c != '\n' && c != ':' && c != '+'
  {
    if d < 10 then ('0' as int + d) as char else ('a' as int + d - 10) as char
  }

  /** Positional value, most significant digit first; None when a character is not a digit of the radix. */
  function PositionalValue(s: string, radix: nat): Option<nat> {
    if s == [] then Some(0)
    else match (PositionalValue(s[..|s| - 1], radix), DigitValue(s[|s| - 1]))
      case (Some(hi), Some(lo)) => if lo < radix then Some(hi * radix + lo) else None
      case _ => None
  }

  /** `usize::from_str_radix` on a 64-bit target: an optional plus sign, at least one digit, no overflow. */
  function ParseUsize(s: string, radix: nat): (r: Option<nat>)
    ensures r.Some? ==> r.value < USIZE_END && s != []
  {
    var digits := if s != [] && s[0] == '+' then s[1..] else s;
    if digits == [] then None
    else match PositionalValue(digits, radix)
      case Some(n) => if n < USIZE_END then Some(n) else None
      case None => None
  }

  lemma DivideByRadix(n: nat, radix: nat)
    requires (radix == 10 || radix == 16) && radix <= n
    ensures n / radix < n
    ensures n / radix * radix + n % radix == n
  {
    if radix == 10 {
      assert n / 10 * 10 + n % 10 == n;
    } else {
      assert n / 16 * 16 + n % 16 == n;
    }
  }

  function Print(n: nat, radix: nat): (s: string)
    requires radix == 10 || radix == 16
    ensures s != [] && s[0] != '+' && !IsWhitespace(s[0]) && !IsWhitespace(s[|s| - 1])
    ensures '\n' !in s && ';' !in s && ':' !in s
    ensures PositionalValue(s, radix) == Some(n)
  {
    if n < radix then
      assert [DigitChar(n)][..0] == [];
      [DigitChar(n)]
    else
      DivideByRadix(n, radix);
      var hi := Print(n / radix, radix);
      var s := hi + [DigitChar(n % radix)];
      assert s[..|s| - 1] == hi;
      s
  }

  function Decimal(n: nat): string {
    Print(n, 10)
  }

  /** Printing a number and parsing it back. */
  lemma ParsePrint(n: nat, radix: nat)
    requires radix == 10 || radix == 16
    ensures ParseUsize(Print(n, radix), radix) == if n < USIZE_END then Some(n) else None
  {
  }
}
