/** Numbers as text: decimal digits, signed 64-bit integers, hexadecimal bytes. */
module Numbers {
  import opened Basics
  import opened Bytes

  /** The bytes of a text. Those of a C string are not zero; see `CString`. */
  type Text = seq<byte>

  /** The text in a buffer: the bytes before the first zero, or all of them. */
  function CString(buf: seq<byte>): (r: Text)
    ensures 0 !in r
  {
    if buf == [] || buf[0] == 0 then [] else [buf[0]] + CString(buf[1..])
  }

  /** A text without zeros is what a buffer holds that starts with it and a zero. */
  lemma {:induction false} CStringOf(s: Text, junk: seq<byte>)
    requires 0 !in s
    ensures CString(s + [0] + junk) == s && CString(s) == s
  {
    if s != [] {
      assert (s + [0] + junk)[1..] == s[1..] + [0] + junk;
      CStringOf(s[1..], junk);
    }
  }

  const DIGIT_0: byte := 48
  const MINUS: byte := 45
  const PLUS: byte := 43
  const POINT: byte := 46
  const NEWLINE: byte := 10

  const S64_MAX: int := 0x7fff_ffff_ffff_ffff
  const S64_MIN: int := -0x8000_0000_0000_0000

  datatype Result<T> = Ok(value: T) | Err(error: int)

  predicate IsDigit(c: byte) { DIGIT_0 <= c < DIGIT_0 + 10 }

  predicate AllDigits(s: Text) { forall i | 0 <= i < |s| :: IsDigit(s[i]) }

  function Pow10(k: nat): (r: nat)
    ensures r > 0
  {
    if k == 0 then 1 else 10 * Pow10(k - 1)
  }

  /** The number that digits stand for. */
  function Dec(s: Text): nat
    requires AllDigits(s)
  {
    if s == [] then 0 else Dec(s[..|s| - 1]) * 10 + (s[|s| - 1] - DIGIT_0)
  }

  lemma DecPush(s: Text, c: byte)
    requires AllDigits(s) && IsDigit(c)
    ensures AllDigits(s + [c]) && Dec(s + [c]) == Dec(s) * 10 + (c - DIGIT_0)
  {
    assert (s + [c])[..|s|] == s;
  }

  /** Digits side by side: the first ones count for powers of ten. */
  lemma {:induction false} DecConcat(a: Text, b: Text)
    requires AllDigits(a) && AllDigits(b)
    ensures AllDigits(a + b) && Dec(a + b) == Dec(a) * Pow10(|b|) + Dec(b)
    decreases |b|
  {
    if b == [] {
      assert a + b == a;
    } else {
      var m, c := b[..|b| - 1], b[|b| - 1];
      DecConcat(a, m);
      DecPush(a + m, c);
      assert a + b == (a + m) + [c];
      Regroup(Dec(a), Pow10(|m|), Dec(m), c - DIGIT_0);
    }
  }

  lemma Regroup(a: int, p: int, m: int, c: int)
    ensures (a * p + m) * 10 + c == a * (10 * p) + (m * 10 + c)
  {
  }

  lemma {:induction false} DecBound(s: Text)
    requires AllDigits(s)
    ensures Dec(s) < Pow10(|s|)
    decreases |s|
  {
    if s != [] {
      DecBound(s[..|s| - 1]);
    }
  }

  /** The digits of a number without leading zeros. */
  function Digits(n: nat): (r: Text)
    ensures r != [] && AllDigits(r)
  {
    if n < 10 then [DIGIT_0 + n] else Digits(n / 10) + [DIGIT_0 + n % 10]
  }

  lemma {:induction false} DecOfDigits(n: nat)
    ensures Dec(Digits(n)) == n
  {
    if n < 10 {
      assert Digits(n)[..0] == [];
    } else {
      DecOfDigits(n / 10);
      DecPush(Digits(n / 10), DIGIT_0 + n % 10);
    }
  }

  // ---------------------------------------------------- signed integers

  predicate IsS64(v: int) { S64_MIN <= v <= S64_MAX }

  function Format(v: int): Text { if v < 0 then [MINUS] + Digits(-v) else Digits(v) }

  /** The digits after the sign, without the newline that may end them. */
  function Body(s: Text): Text {
    var t := if s != [] && (s[0] == MINUS || s[0] == PLUS) then s[1..] else s;
    if t != [] && t[|t| - 1] == NEWLINE then t[..|t| - 1] else t
  }

  /** A whole string read as a decimal number: sign, digits, possibly a newline. */
  function ParseS64(s: Text): Result<int> {
    var b := Body(s);
    if b == [] || !AllDigits(b) then Err(EINVAL)
    else
      var v := if s[0] == MINUS then -(Dec(b) as int) else Dec(b);
      if IsS64(v) then Ok(v) else Err(ERANGE)
  }

  /** Every integer is read back from its text. */
  lemma ParseOfFormat(v: int)
    requires IsS64(v)
    ensures ParseS64(Format(v)) == Ok(v)
  {
    var n := if v < 0 then -v else v;
    var d := Digits(n);
    assert IsDigit(d[0]) && IsDigit(d[|d| - 1]);
    DecOfDigits(n);
    assert v < 0 ==> Format(v)[1..] == d;
    assert Body(Format(v)) == d;
  }

  /** No zero in front of other digits, and a sign exactly for negative numbers. */
  predicate Canonical(s: Text) { AllDigits(s) && s != [] && (|s| > 1 ==> s[0] != DIGIT_0) }

  lemma {:induction false} DigitsCanonical(n: nat)
    ensures Canonical(Digits(n)) && (n > 0 ==> Digits(n)[0] != DIGIT_0)
  {
    if n >= 10 {
      DigitsCanonical(n / 10);
    }
  }

  lemma FormatCanonical(v: int)
    ensures var t := Format(v); t != [] && if v < 0 then t[0] == MINUS && Canonical(t[1..]) && t[1] != DIGIT_0 else Canonical(t)
  {
    if v < 0 {
      DigitsCanonical(-v);
      assert Format(v)[1..] == Digits(-v);
    } else {
      DigitsCanonical(v);
    }
  }

  /** Two's complement, little-endian. */
  function SignedBytes(v: int, width: nat): (r: seq<byte>)
    ensures |r| == width
  {
    Le(v % Pow256(width), width)
  }

  function Signed(s: seq<byte>): int {
    var n := Nat(s);
    if 2 * n >= Pow256(|s|) then n - Pow256(|s|) else n
  }

  predicate FitsSigned(v: int, width: nat) { -(Pow256(width) as int) <= 2 * v < Pow256(width) }

  lemma SignedRoundTrip(v: int, width: nat)
    requires FitsSigned(v, width)
    ensures Signed(SignedBytes(v, width)) == v
  {
    var p := Pow256(width);
    assert v % p == if v < 0 then v + p else v by { ModShift(v, p); }
    NatOfLe(v % p, width);
  }

  lemma ModShift(v: int, p: nat)
    requires p > 0 && 0 <= v + p && v < p
    ensures v % p == if v < 0 then v + p else v
  {
    if v < 0 {
      assert v / p == -1;
    }
  }

  // ------------------------------------------------------- hexadecimal

  function HexNibble(c: byte): int {
    if IsDigit(c) then c - DIGIT_0
    else if 97 <= c <= 102 then c - 97 + 10
    else if 65 <= c <= 70 then c - 65 + 10
    else -1
  }

  /** The digits are the sixteen, in either case. */
  lemma Nibbles(c: byte)
    ensures HexNibble(c) in {-1, 0, 1, 2, 3, 4, 5, 6, 7, 8, 9, 10, 11, 12, 13, 14, 15}
    ensures forall n | 0 <= n < 16 :: HexNibble(c) == n <==> c == HexDigit(n) || (n >= 10 && c == HexDigit(n) - 32)
  {
  }

  function HexDigit(n: nat): byte
    requires n < 16
  {
    if n < 10 then DIGIT_0 + n else 97 + n - 10
  }

  function FormatHex(b: seq<byte>): (r: Text)
    ensures |r| == 2 * |b|
  {
    if b == [] then [] else FormatHex(b[..|b| - 1]) + [HexDigit(b[|b| - 1] / 16), HexDigit(b[|b| - 1] % 16)]
  }

  predicate HexPair(s: Text, i: nat)
    requires 2 * i + 1 < |s|
  {
    HexNibble(s[2 * i]) >= 0 && HexNibble(s[2 * i + 1]) >= 0
  }

  function PairValue(s: Text, i: nat): byte
    requires 2 * i + 1 < |s| && HexPair(s, i)
  {
    HexNibble(s[2 * i]) * 16 + HexNibble(s[2 * i + 1])
  }

  /** `s` is exactly `n` bytes in hexadecimal, two digits each, of either case. */
  predicate IsHex(s: Text, n: nat) { |s| == 2 * n && forall i | 0 <= i < n :: HexPair(s, i) }

  function HexBytes(s: Text, n: nat): (r: seq<byte>)
    requires IsHex(s, n)
    ensures |r| == n && forall i | 0 <= i < n :: r[i] == PairValue(s, i)
  {
    seq(n, i requires 0 <= i < n => PairValue(s, i))
  }

  method ParseHex(s: Text, n: nat) returns (r: Result<seq<byte>>)
    ensures r == if IsHex(s, n) then Ok(HexBytes(s, n)) else Err(EINVAL)
  {
    if |s| != 2 * n {
      return Err(EINVAL);
    }
    var out: seq<byte> := [];
    for i := 0 to n
      invariant |out| == i
      invariant forall j | 0 <= j < i :: HexPair(s, j) && out[j] == PairValue(s, j)
    {
      var hi, lo := HexNibble(s[2 * i]), HexNibble(s[2 * i + 1]);
      if hi < 0 || lo < 0 {
        assert !HexPair(s, i);
        return Err(EINVAL);
      }
      out := out + [hi * 16 + lo];
    }
    assert out == HexBytes(s, n);
    r := Ok(out);
  }

  lemma {:induction false} FormatHexPairs(b: seq<byte>, i: nat)
    requires i < |b|
    ensures HexPair(FormatHex(b), i) && PairValue(FormatHex(b), i) == b[i]
    decreases |b|
  {
    var k := |b| - 1;
    if i < k {
      FormatHexPairs(b[..k], i);
    }
  }

  /** Reading the text of some bytes gives them back. */
  lemma HexRoundTrip(b: seq<byte>)
    ensures IsHex(FormatHex(b), |b|) && HexBytes(FormatHex(b), |b|) == b
  {
    hide FormatHex, PairValue, HexPair;
    forall i | 0 <= i < |b|
      ensures HexPair(FormatHex(b), i) && PairValue(FormatHex(b), i) == b[i]
    {
      FormatHexPairs(b, i);
    }
  }
}
