/** UTF-8 (RFC 3629) as Rust's `String` uses it: encoding of Unicode scalar values and the
    strict decoding that rejects overlong forms, surrogates and values above 0x10FFFF. */
module Utf8 {
  import opened Wrappers

  type Byte = b: int | 0 <= b < 256
  type Bytes = seq<Byte>

  function EncodeChar(c: char): (r: Bytes)
    ensures 1 <= |r| <= 4
  {
    var n := c as int;
    if n < 0x80 then [n]
    else if n < 0x800 then [0xC0 + n / 64, 0x80 + n % 64]
    else if n < 0x1_0000 then [0xE0 + n / 4096, 0x80 + n / 64 % 64, 0x80 + n % 64]
    else [0xF0 + n / 262144, 0x80 + n / 4096 % 64, 0x80 + n / 64 % 64, 0x80 + n % 64]
  }

  function Encode(s: string): Bytes {
    if s == [] then [] else EncodeChar(s[0]) + Encode(s[1..])
  }

  predicate IsContinuation(b: Byte) {
    0x80 <= b < 0xC0
  }

  function Payload2(a: int, b: int): int {
    (a - 0xC0) * 64 + (b - 0x80)
  }

  function Payload3(a: int, b: int, c: int): int {
    (a - 0xE0) * 4096 + (b - 0x80) * 64 + (c - 0x80)
  }

  function Payload4(a: int, b: int, c: int, d: int): int {
    (a - 0xF0) * 262144 + (b - 0x80) * 4096 + (c - 0x80) * 64 + (d - 0x80)
  }

  /** The first scalar value of `b` and the number of bytes it takes. */
  function DecodeChar(b: Bytes): (r: Option<(char, nat)>)
    ensures r.Some? ==> 1 <= r.value.1 <= |b|
  {
    if |b| >= 1 && b[0] < 0x80 then Some((b[0] as char, 1))
    else if |b| >= 2 && 0xC2 <= b[0] < 0xE0 && IsContinuation(b[1]) then
      Some((Payload2(b[0], b[1]) as char, 2))
    else if |b| >= 3 && 0xE0 <= b[0] < 0xF0 && IsContinuation(b[1]) && IsContinuation(b[2]) then
      var n := Payload3(b[0], b[1], b[2]);
      if n < 0x800 || 0xD800 <= n < 0xE000 then None else Some((n as char, 3))
    else if |b| >= 4 && 0xF0 <= b[0] < 0xF5 && IsContinuation(b[1]) && IsContinuation(b[2]) && IsContinuation(b[3]) then
      var n := Payload4(b[0], b[1], b[2], b[3]);
      if n < 0x1_0000 || 0x11_0000 <= n then None else Some((n as char, 4))
    else None
  }

  function Decode(b: Bytes): Option<string> {
    if b == [] then Some([])
    else match DecodeChar(b)
      case None => None
      case Some((c, n)) =>
        match Decode(b[n..])
        case None => None
        case Some(s) => Some([c] + s)
  }

  predicate Ascii(s: string) {
    forall i :: 0 <= i < |s| ==> s[i] as int < 0x80
  }

  lemma SixBitGroups(n: int)
    requires 0 <= n
    ensures n == n / 64 * 64 + n % 64
    ensures n == n / 4096 * 4096 + n / 64 % 64 * 64 + n % 64
    ensures n == n / 262144 * 262144 + n / 4096 % 64 * 4096 + n / 64 % 64 * 64 + n % 64
  {
    assert n / 4096 == n / 64 / 64;
    assert n / 262144 == n / 4096 / 64;
  }

  lemma DecodeCharInverts(c: char, rest: Bytes)
    ensures DecodeChar(EncodeChar(c) + rest) == Some((c, |EncodeChar(c)|))
  {
    var n := c as int;
    var b := EncodeChar(c) + rest;
    SixBitGroups(n);
    if n < 0x80 {
      assert b[0] == n;
    } else if n < 0x800 {
      assert Payload2(b[0], b[1]) == n;
    } else if n < 0x1_0000 {
      assert Payload3(b[0], b[1], b[2]) == n;
    } else {
      assert Payload4(b[0], b[1], b[2], b[3]) == n;
    }
  }

  /** Decoding inverts encoding on every string. */
  lemma {:induction false} DecodeEncode(s: string)
    ensures Decode(Encode(s)) == Some(s)
  {
    if s != [] {
      DecodeCharInverts(s[0], Encode(s[1..]));
      assert Encode(s)[|EncodeChar(s[0])|..] == Encode(s[1..]);
      DecodeEncode(s[1..]);
      assert s == [s[0]] + s[1..];
    }
  }

  lemma GroupsOfSum(x: int, y: int, z: int)
    requires 0 <= x && 0 <= y < 64 && 0 <= z < 64
    ensures (x * 64 + z) / 64 == x && (x * 64 + z) % 64 == z
    ensures var n := x * 4096 + y * 64 + z; n / 4096 == x && n / 64 % 64 == y && n % 64 == z
  {
    var n := x * 4096 + y * 64 + z;
    assert n == (x * 64 + y) * 64 + z;
    assert n / 64 == x * 64 + y;
    assert n / 4096 == n / 64 / 64;
  }

  lemma GroupsOfFour(w: int, x: int, y: int, z: int)
    requires 0 <= w && 0 <= x < 64 && 0 <= y < 64 && 0 <= z < 64
    ensures var n := w * 262144 + x * 4096 + y * 64 + z;
            n / 262144 == w && n / 4096 % 64 == x && n / 64 % 64 == y && n % 64 == z
  {
    var n := w * 262144 + x * 4096 + y * 64 + z;
    GroupsOfSum(w * 64 + x, y, z);
    assert n == (w * 64 + x) * 4096 + y * 64 + z;
    assert n / 4096 == w * 64 + x;
    assert n / 262144 == n / 4096 / 64;
  }

  lemma EncodeCharInverts(b: Bytes)
    requires DecodeChar(b).Some?
    ensures EncodeChar(DecodeChar(b).value.0) == b[..DecodeChar(b).value.1]
  {
    if b[0] < 0x80 {
    } else if b[0] < 0xE0 {
      GroupsOfSum(b[0] - 0xC0, 0, b[1] - 0x80);
    } else if b[0] < 0xF0 {
      GroupsOfSum(b[0] - 0xE0, b[1] - 0x80, b[2] - 0x80);
    } else {
      GroupsOfFour(b[0] - 0xF0, b[1] - 0x80, b[2] - 0x80, b[3] - 0x80);
    }
  }

  /** Only encodings decode: together with DecodeEncode, `Decode` accepts exactly the image of `Encode`. */
  lemma {:induction false} EncodeDecode(b: Bytes)
    requires Decode(b).Some?
    ensures Encode(Decode(b).value) == b
  {
    if b != [] {
      var (c, n) := DecodeChar(b).value;
      EncodeCharInverts(b);
      EncodeDecode(b[n..]);
      var s := Decode(b[n..]).value;
      assert ([c] + s)[1..] == s;
      assert b == b[..n] + b[n..];
    }
  }

  lemma {:induction false} EncodeConcat(s: string, t: string)
    ensures Encode(s + t) == Encode(s) + Encode(t)
  {
    if s == [] {
      assert s + t == t;
    } else {
      EncodeConcat(s[1..], t);
      assert (s + t)[1..] == s[1..] + t;
    }
  }

  /** A byte below 0x80 occurs in an encoding exactly as the ASCII character it stands for. */
  lemma {:induction false} AsciiByteIn(s: string, a: Byte)
    requires a < 0x80
    ensures a in Encode(s) <==> a as char in s
  {
    if s != [] {
      AsciiByteIn(s[1..], a);
      assert a in EncodeChar(s[0]) <==> a as char == s[0];
      assert s == [s[0]] + s[1..];
    }
  }

  // ----- character boundaries -----

  /** `str::is_char_boundary` */
  predicate IsCharBoundary(b: Bytes, i: nat) {
    i == 0 || i == |b| || (i < |b| && !IsContinuation(b[i]))
  }

  /** The byte offset of character k. */
  function Offset(s: string, k: nat): nat
    requires k <= |s|
  {
    |Encode(s[..k])|
  }

  lemma CharBytes(c: char)
    ensures !IsContinuation(EncodeChar(c)[0])
    ensures forall i :: 1 <= i < |EncodeChar(c)| ==> IsContinuation(EncodeChar(c)[i])
  {
  }

  lemma Slice(s: string, i: nat, j: nat)
    requires i <= j <= |s|
    ensures Offset(s, i) <= Offset(s, j) <= |Encode(s)|
    ensures Encode(s)[Offset(s, i)..Offset(s, j)] == Encode(s[i..j])
  {
    hide Encode;
    assert s[..j] == s[..i] + s[i..j];
    assert s == s[..j] + s[j..];
    EncodeConcat(s[..i], s[i..j]);
    EncodeConcat(s[..j], s[j..]);
  }

  lemma OffsetsAreBoundaries(s: string, k: nat)
    requires k <= |s|
    ensures Offset(s, k) <= |Encode(s)| && IsCharBoundary(Encode(s), Offset(s, k))
  {
    assert s == s[..k] + s[k..];
    EncodeConcat(s[..k], s[k..]);
    if k < |s| {
      CharBytes(s[k]);
      assert Encode(s)[Offset(s, k)] == Encode(s[k..])[0];
    }
  }

  lemma {:induction false} BoundariesAreOffsets(s: string, i: nat) returns (k: nat)
    requires i <= |Encode(s)| && IsCharBoundary(Encode(s), i)
    ensures k <= |s| && Offset(s, k) == i
  {
    k := 0;
    if i > 0 {
      var e := EncodeChar(s[0]);
      CharBytes(s[0]);
      assert Encode(s) == e + Encode(s[1..]);
      if i >= |e| {
        k := BoundariesAreOffsets(s[1..], i - |e|);
        k := k + 1;
        assert s[..k][1..] == s[1..][..k - 1];
      } else {
        assert false;
      }
    }
  }

  lemma OffsetOrder(s: string, i: nat, j: nat)
    requires i <= |s| && j <= |s|
    ensures Offset(s, i) <= Offset(s, j) <==> i <= j
  {
    if i < j {
      OffsetStep(s, i, j);
    } else if j < i {
      OffsetStep(s, j, i);
    }
  }

  lemma OffsetStep(s: string, i: nat, j: nat)
    requires i < j <= |s|
    ensures Offset(s, i) < Offset(s, j)
  {
    assert s[..j] == s[..i] + s[i..j];
    EncodeConcat(s[..i], s[i..j]);
  }

  lemma NextOffset(s: string, k: nat)
    requires k < |s|
    ensures Offset(s, k) < Offset(s, k + 1) <= Offset(s, k) + 4
  {
    assert s[..k + 1] == s[..k] + [s[k]];
    EncodeConcat(s[..k], [s[k]]);
    assert Encode([s[k]]) == EncodeChar(s[k]) + Encode([]);
  }

  lemma EmptyOffset(s: string)
    ensures Offset(s, 0) == 0
  {
  }
}
