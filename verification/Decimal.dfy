/** Decimal text with four places, stored as a scaled 64-bit integer. */
module Decimals {
  import opened Basics
  import opened Bytes
  import opened Numbers

  const SCALE: nat := 4
  const SCALE_MUL: nat := 10000

  // ------------------------------------------------- 64-bit wrap-around

  function Wrap64(x: int): (r: int)
    ensures IsS64(r)
  {
    (x - S64_MIN) % U64 + S64_MIN
  }

  lemma WrapId(x: int)
    requires IsS64(x)
    ensures Wrap64(x) == x
  {
  }

  lemma ModMultiple(y: int, k: int)
    ensures (y + k * U64) % U64 == y % U64
  {
    var q := y / U64;
    assert y + k * U64 == (q + k) * U64 + y % U64;
    DivUnique(y + k * U64, q + k, y % U64);
  }

  lemma DivUnique(x: int, q: int, r: int)
    requires x == q * U64 + r && 0 <= r < U64
    ensures x % U64 == r
  {
  }

  lemma WrapShift(x: int, k: int)
    ensures Wrap64(x + k * U64) == Wrap64(x)
  {
    ModMultiple(x - S64_MIN, k);
  }

  /** Wrapping early or late makes no difference. */
  lemma WrapLinear(x: int, m: int, c: int)
    ensures Wrap64(Wrap64(x) * m + c) == Wrap64(x * m + c)
  {
    var k := (x - S64_MIN) / U64;
    assert Wrap64(x) == x - k * U64;
    Expand(x, k, m, c);
    WrapShift(Wrap64(x) * m + c, k * m);
  }

  lemma Expand(x: int, k: int, m: int, c: int)
    ensures (x - k * U64) * m + c + (k * m) * U64 == x * m + c
  {
    assert (k * U64) * m == (k * m) * U64;
    assert (x - k * U64) * m == x * m - (k * U64) * m;
  }

  // ------------------------------------------------------ text and value

  /** Text taken apart: a sign, the digits before the point, the digits after it. */
  datatype Parts = Parts(neg: bool, whole: Text, frac: Text)

  predicate PartsOk(p: Parts) { AllDigits(p.whole) && AllDigits(p.frac) }

  /** `s` is `p` written down: a plus may stand for no sign, the point may be missing
      when no digits follow it, and something follows the sign. */
  predicate IsRendering(s: Text, p: Parts, sign: Text, point: Text) {
    && PartsOk(p) && s == sign + p.whole + point + p.frac
    && (if p.neg then sign == [MINUS] else sign == [] || sign == [PLUS])
    && (point == [POINT] || (point == [] && p.frac == []))
    && p.whole + point != []
  }

  /** The first four places, filled up with zeros. */
  function Places(frac: Text): (r: Text)
    requires AllDigits(frac)
    ensures |r| == SCALE && AllDigits(r)
    decreases SCALE - |frac|
  {
    if |frac| >= SCALE then frac[..SCALE] else Places(frac + [DIGIT_0])
  }

  /** The value times 10^4, without the places after the fourth. */
  function Magnitude(p: Parts): nat
    requires PartsOk(p)
  {
    Dec(p.whole) * SCALE_MUL + Dec(Places(p.frac))
  }

  function Scaled(p: Parts): int
    requires PartsOk(p)
  {
    if p.neg then -(Magnitude(p) as int) else Magnitude(p)
  }

  lemma {:induction false} Pow10Sum(a: nat, b: nat)
    ensures Pow10(a + b) == Pow10(a) * Pow10(b)
    decreases a
  {
    if a > 0 {
      Pow10Sum(a - 1, b);
      assert 10 * (Pow10(a - 1) * Pow10(b)) == (10 * Pow10(a - 1)) * Pow10(b);
    }
  }

  lemma Pow10Scale()
    ensures Pow10(SCALE) == SCALE_MUL
  {
    assert Pow10(2) == 100;
    assert Pow10(3) == 1000;
  }

  lemma {:induction false} PlacesShort(frac: Text)
    requires AllDigits(frac) && |frac| <= SCALE
    ensures Dec(Places(frac)) == Dec(frac) * Pow10(SCALE - |frac|)
    decreases SCALE - |frac|
  {
    if |frac| < SCALE {
      PlacesShort(frac + [DIGIT_0]);
      DecPush(frac, DIGIT_0);
      var k := SCALE - |frac| - 1;
      assert (Dec(frac) * 10) * Pow10(k) == Dec(frac) * (10 * Pow10(k));
    } else {
      assert frac[..SCALE] == frac;
    }
  }

  lemma Monotone(x: nat, y: nat, b: nat)
    requires x <= y
    ensures x * b <= y * b
  {
  }

  lemma DivExact(a: nat, b: nat, r: nat)
    requires r < b
    ensures (a * b + r) / b == a
  {
    var q := (a * b + r) / b;
    assert q * b <= a * b + r < (q + 1) * b;
    assert !(q < a) by {
      if q < a {
        Monotone(q + 1, a, b);
      }
    }
    assert !(q > a) by {
      if q > a {
        Monotone(a + 1, q, b);
      }
    }
  }

  /** The stored magnitude is the exact value times 10^4, rounded towards zero. */
  lemma MagnitudeTruncates(p: Parts)
    requires PartsOk(p)
    ensures AllDigits(p.whole + p.frac)
    ensures Magnitude(p) == Dec(p.whole + p.frac) * SCALE_MUL / Pow10(|p.frac|)
  {
    hide Dec, Pow10;
    var f := |p.frac|;
    Pow10Scale();
    DecConcat(p.whole, p.frac);
    if f <= SCALE {
      PlacesShort(p.frac);
      Pow10Sum(SCALE - f, f);
      ShortCase(Dec(p.whole), Dec(p.frac), Pow10(f), Pow10(SCALE - f));
    } else {
      var a, b := p.frac[..SCALE], p.frac[SCALE..];
      assert p.frac == a + b;
      DecConcat(a, b);
      DecBound(b);
      Pow10Sum(SCALE, |b|);
      LongCase(Dec(p.whole), Dec(a), Dec(b), Pow10(|b|));
    }
  }

  lemma ShortCase(w: nat, d: nat, pf: nat, pr: nat)
    requires pf > 0 && pr * pf == SCALE_MUL
    ensures (w * pf + d) * SCALE_MUL / pf == w * SCALE_MUL + d * pr
  {
    var e := w * SCALE_MUL + d * pr;
    calc {
      (w * pf + d) * SCALE_MUL;
      (w * pf) * SCALE_MUL + d * SCALE_MUL;
      { assert (w * pf) * SCALE_MUL == (w * SCALE_MUL) * pf; assert d * (pr * pf) == (d * pr) * pf; }
      (w * SCALE_MUL) * pf + (d * pr) * pf;
      e * pf + 0;
    }
    DivExact(e, pf, 0);
  }

  lemma LongCase(w: nat, a: nat, b: nat, pb: nat)
    requires b < pb
    ensures SCALE_MUL * pb > 0
    ensures (w * (SCALE_MUL * pb) + (a * pb + b)) * SCALE_MUL / (SCALE_MUL * pb) == w * SCALE_MUL + a
  {
    var e, m := w * SCALE_MUL + a, SCALE_MUL * pb;
    assert w * (SCALE_MUL * pb) == (w * SCALE_MUL) * pb;
    assert (w * SCALE_MUL) * pb + a * pb == e * pb;
    assert (e * pb + b) * SCALE_MUL == e * m + b * SCALE_MUL;
    DivExact(e, m, b * SCALE_MUL);
  }

  // -------------------------------------------------------------- parsing

  /** Where the run of digits from `from` ends. */
  function DigitEnd(s: Text, from: nat): (r: nat)
    requires from <= |s|
    ensures from <= r <= |s| && AllDigits(s[from..r])
    ensures r < |s| ==> !IsDigit(s[r])
    decreases |s| - from
  {
    if from < |s| && IsDigit(s[from]) then
      var r := DigitEnd(s, from + 1);
      assert s[from..r] == [s[from]] + s[from + 1..r];
      r
    else from
  }

  function SignLength(s: Text): nat { if s != [] && (s[0] == MINUS || s[0] == PLUS) then 1 else 0 }

  /** How the text is read: sign, digits, and after a point more digits, to the end. */
  function Split(s: Text): Result<Parts> {
    var a := SignLength(s);
    if a == |s| then Err(EINVAL)
    else
      var b := DigitEnd(s, a);
      var neg := s[0] == MINUS;
      if b == |s| then Ok(Parts(neg, s[a..b], []))
      else if s[b] != POINT then Err(EINVAL)
      else if DigitEnd(s, b + 1) != |s| then Err(EINVAL)
      else Ok(Parts(neg, s[a..b], s[b + 1..]))
  }

  /** Exactly the renderings are accepted, and each is taken apart as it was put together. */
  lemma SplitOfRendering(s: Text, p: Parts, sign: Text, point: Text)
    requires IsRendering(s, p, sign, point)
    ensures Split(s) == Ok(p)
  {
    hide Dec, AllDigits, IsDigit, DigitEnd;
    var a, b := |sign|, |sign| + |p.whole|;
    FourParts(sign, p.whole, point, p.frac);
    assert a == SignLength(s) by { FirstNoSign(p, sign, point); }
    EndOfWhole(p, point);
    assert b < |s| ==> point == [POINT] && s[b] == POINT;
    DigitRun(s, a, b);
    if b < |s| {
      DigitRun(s, b + 1, |s|);
    }
  }

  lemma FourParts(w: Text, x: Text, y: Text, z: Text)
    ensures var s, a, b, c := w + x + y + z, |w|, |w| + |x|, |w| + |x| + |y|;
      && |s| == c + |z| && s[..a] == w && s[a..b] == x && s[b..c] == y && s[c..|s|] == z && s[c..] == z
      && (y != [] ==> s[b] == y[0])
  {
  }

  lemma FirstNoSign(p: Parts, sign: Text, point: Text)
    requires IsRendering(sign + p.whole + point + p.frac, p, sign, point)
    ensures SignLength(sign + p.whole + point + p.frac) == |sign| < |sign + p.whole + point + p.frac|
    ensures (sign + p.whole + point + p.frac)[0] == MINUS <==> p.neg
  {
    var s := sign + p.whole + point + p.frac;
    if sign == [] {
      assert s[0] == (p.whole + point)[0];
    } else {
      assert s[0] == sign[0];
    }
  }

  lemma EndOfWhole(p: Parts, point: Text)
    requires PartsOk(p)
    ensures !IsDigit(POINT)
  {
  }

  lemma RenderingOfSplit(s: Text)
    requires Split(s).Ok?
    ensures exists sign, point :: IsRendering(s, Split(s).value, sign, point)
  {
    hide AllDigits, DigitEnd, IsDigit;
    EmptyRun(s, 0);
    var a, p := SignLength(s), Split(s).value;
    var b := DigitEnd(s, a);
    var sign, point := s[..a], if b == |s| then [] else [POINT];
    SignIs(s);
    Regroup(s, a, b);
    assert p == Parts(s[0] == MINUS, s[a..b], if b == |s| then [] else s[b + 1..]);
    hide Split;
    assert IsRendering(s, p, sign, point);
  }

  lemma SignIs(s: Text)
    requires s != []
    ensures var a := SignLength(s); s[..a] == (if a == 0 then [] else [s[0]]) && (a == 0 <==> s[0] != MINUS && s[0] != PLUS)
  {
  }

  /** Text cut at two places, the second of them its end or a point. */
  lemma Regroup(s: Text, a: nat, b: nat)
    requires a <= b <= |s| && (b < |s| ==> s[b] == POINT)
    ensures s == s[..a] + s[a..b] + (if b == |s| then [] else [POINT]) + (if b == |s| then [] else s[b + 1..])
    ensures b < |s| ==> s[b + 1..|s|] == s[b + 1..]
  {
  }

  lemma {:induction false} DigitRun(s: Text, from: nat, to: nat)
    requires from <= to <= |s| && AllDigits(s[from..to]) && (to < |s| ==> !IsDigit(s[to]))
    ensures DigitEnd(s, from) == to
    decreases |s| - from
  {
    if from < to {
      assert IsDigit(s[from..to][0]);
      assert s[from + 1..to] == s[from..to][1..];
      DigitRun(s, from + 1, to);
    }
  }

  /** Encodes decimal text; arithmetic wraps at 64 bits. */
  method EncodeDecimal(s: Text, room: nat) returns (r: Result<seq<byte>>)
    ensures room < 8 ==> r == Err(ENOSPC)
    ensures room >= 8 ==> (r.Ok? <==> Split(s).Ok?) && (r.Err? ==> r.error == EINVAL)
    ensures r.Ok? ==> PartsOk(Split(s).value) && r.value == SignedBytes(Wrap64(Scaled(Split(s).value)), 8)
    ensures r.Ok? && Magnitude(Split(s).value) <= S64_MAX ==> Signed(r.value) == Truncated(Split(s).value)
  {
    hide Dec, AllDigits, IsDigit, DigitEnd, Places, Wrap64, SignedBytes;
    if room < 8 {
      return Err(ENOSPC);
    }
    var p, neg := 0, false;
    if s != [] && s[0] == MINUS {
      neg := true;
      p := 1;
    } else if s != [] && s[0] == PLUS {
      p := 1;
    }
    if p == |s| {
      return Err(EINVAL);
    }
    var intPart;
    intPart, p := ReadDigits(s, p);
    var fracPart := 0;
    if p < |s| && s[p] == POINT {
      fracPart, p := ReadFraction(s, p + 1);
    } else {
      NoPlaces();
    }
    if p != |s| {
      return Err(EINVAL);
    }
    ghost var parts := Split(s).value;
    EmptyRun(s, 0);
    assert forall b | 0 <= b <= |s| :: s[b..|s|] == s[b..];
    assert PartsOk(parts) && fracPart == Dec(Places(parts.frac)) && intPart == Wrap64(Dec(parts.whole));
    var result := Wrap64(Wrap64(intPart * SCALE_MUL) + fracPart);
    WrapTwice(Dec(parts.whole), fracPart, neg);
    if neg {
      result := Wrap64(-result);
    }
    r := Ok(SignedBytes(result, 8));
    if Magnitude(parts) <= S64_MAX {
      StoredValue(parts);
    }
  }

  /** The exact value times 10^4, rounded towards zero. */
  function Truncated(p: Parts): int
    requires PartsOk(p)
  {
    DecConcat(p.whole, p.frac);
    var m := Dec(p.whole + p.frac) * SCALE_MUL / Pow10(|p.frac|);
    if p.neg then -(m as int) else m
  }

  /** Without overflow that is what is stored. */
  lemma StoredValue(p: Parts)
    requires PartsOk(p) && Magnitude(p) <= S64_MAX
    ensures Signed(SignedBytes(Wrap64(Scaled(p)), 8)) == Scaled(p) == Truncated(p)
  {
    hide Magnitude, Dec, Pow10, Signed, SignedBytes;
    MagnitudeTruncates(p);
    WrapId(Scaled(p));
    Widths();
    SignedRoundTrip(Scaled(p), 8);
  }

  lemma NoPlaces()
    ensures Dec(Places([])) == 0
  {
    PlacesShort([]);
  }

  lemma SlicePush(s: Text, from: nat, p: nat)
    requires from <= p < |s|
    ensures s[from..p + 1] == s[from..p] + [s[p]]
  {
  }

  /** Reads digits to their end, keeps the first four, and fills up with zeros. */
  method ReadFraction(s: Text, from: nat) returns (v: nat, p: nat)
    requires from <= |s|
    ensures p == DigitEnd(s, from) && v == Dec(Places(s[from..p]))
  {
    hide Places, Dec, AllDigits, DigitEnd, IsDigit;
    v, p := ReadPlaces(s, from);
    var digits := p - from;
    ghost var e := p;
    while p < |s| && IsDigit(s[p])
      invariant e <= p <= |s| && DigitEnd(s, from) == DigitEnd(s, p) && (p > e ==> digits == SCALE)
    {
      DigitStep(s, p);
      p := p + 1;
    }
    DigitStop(s, p);
    SliceOfSlice(s, from, e, p);
    PlacesPrefix(s[from..p], digits);
    v := FillPlaces(v, digits, s[from..e]);
  }

  lemma SliceOfSlice(s: Text, from: nat, e: nat, p: nat)
    requires from <= e <= p <= |s|
    ensures s[from..p][..e - from] == s[from..e]
  {
  }

  /** Reads up to four digits. */
  method ReadPlaces(s: Text, from: nat) returns (v: nat, p: nat)
    requires from <= |s|
    ensures from <= p <= |s| && p - from <= SCALE && AllDigits(s[from..p]) && v == Dec(s[from..p])
    ensures DigitEnd(s, from) == DigitEnd(s, p)
    ensures p - from == SCALE || p == |s| || !IsDigit(s[p])
  {
    hide Dec, AllDigits, DigitEnd, IsDigit;
    v, p := 0, from;
    EmptyRun(s, from);
    while p < |s| && IsDigit(s[p]) && p - from < SCALE
      invariant from <= p <= |s| && p - from <= SCALE
      invariant AllDigits(s[from..p]) && v == Dec(s[from..p]) && DigitEnd(s, from) == DigitEnd(s, p)
    {
      PlaceStep(s, from, p);
      v := v * 10 + DigitValue(s[p]);
      p := p + 1;
    }
  }

  function DigitValue(c: byte): nat
    requires IsDigit(c)
  {
    c - DIGIT_0
  }

  lemma PlaceStep(s: Text, from: nat, p: nat)
    requires from <= p < |s| && IsDigit(s[p]) && AllDigits(s[from..p])
    ensures AllDigits(s[from..p + 1]) && Dec(s[from..p + 1]) == Dec(s[from..p]) * 10 + DigitValue(s[p])
    ensures DigitEnd(s, p) == DigitEnd(s, p + 1)
  {
    hide Dec, AllDigits, DigitEnd, IsDigit;
    DigitStep(s, p);
    DecPush(s[from..p], s[p]);
    SlicePush(s, from, p);
  }

  /** Fills up with zeros. */
  method FillPlaces(v: nat, digits: nat, ghost frac: Text) returns (r: nat)
    requires digits == |frac| <= SCALE && AllDigits(frac) && v == Dec(frac)
    ensures r == Dec(Places(frac))
  {
    hide Places, Dec, AllDigits;
    r := v;
    var n := digits;
    ghost var all := frac;
    while n < SCALE
      invariant n == |all| <= SCALE && AllDigits(all) && r == Dec(all) && Places(all) == Places(frac)
    {
      DecPush(all, DIGIT_0);
      PlacesPad(all);
      all := all + [DIGIT_0];
      r := r * 10;
      n := n + 1;
    }
    PlacesFull(all);
  }

  lemma EmptyRun(s: Text, from: nat)
    requires from <= |s|
    ensures s[from..from] == [] && AllDigits([]) && Dec([]) == 0
  {
  }

  lemma DigitStep(s: Text, p: nat)
    requires p < |s| && IsDigit(s[p])
    ensures DigitEnd(s, p) == DigitEnd(s, p + 1)
  {
  }

  lemma DigitStop(s: Text, p: nat)
    requires p <= |s| && (p < |s| ==> !IsDigit(s[p]))
    ensures DigitEnd(s, p) == p
  {
  }

  lemma PlacesPad(frac: Text)
    requires AllDigits(frac) && |frac| < SCALE
    ensures AllDigits(frac + [DIGIT_0]) && Places(frac) == Places(frac + [DIGIT_0])
  {
  }

  lemma PlacesFull(frac: Text)
    requires AllDigits(frac) && |frac| == SCALE
    ensures Places(frac) == frac
  {
    assert frac[..SCALE] == frac;
  }

  /** Reads digits as a wrapped number. */
  method ReadDigits(s: Text, from: nat) returns (v: int, p: nat)
    requires from <= |s|
    ensures p == DigitEnd(s, from) && v == Wrap64(Dec(s[from..p]))
  {
    hide Dec, AllDigits, DigitEnd, Wrap64;
    v, p := 0, from;
    WrapId(0);
    EmptyRun(s, from);
    while p < |s| && IsDigit(s[p])
      invariant from <= p <= |s| && DigitEnd(s, from) == DigitEnd(s, p)
      invariant AllDigits(s[from..p]) && v == Wrap64(Dec(s[from..p]))
    {
      DigitStep(s, p);
      DecPush(s[from..p], s[p]);
      SlicePush(s, from, p);
      WrapLinear(Dec(s[from..p]), 10, s[p] - DIGIT_0);
      v := Wrap64(v * 10 + (s[p] - DIGIT_0));
      p := p + 1;
    }
    DigitStop(s, p);
  }

  /** Digits after the fourth place do not matter. */
  lemma PlacesPrefix(frac: Text, k: nat)
    requires AllDigits(frac) && k <= |frac| && (k == |frac| || k == SCALE)
    ensures AllDigits(frac[..k]) && Places(frac[..k]) == Places(frac)
  {
    assert k == |frac| ==> frac[..k] == frac;
    assert k == SCALE ==> frac[..k][..SCALE] == frac[..SCALE];
  }

  lemma WrapTwice(w: nat, f: nat, neg: bool)
    ensures var m := Wrap64(Wrap64(Wrap64(w) * SCALE_MUL) + f);
      m == Wrap64(w * SCALE_MUL + f) && Wrap64(-m) == Wrap64(-(w * SCALE_MUL + f))
  {
    WrapLinear(w, SCALE_MUL, 0);
    WrapLinear(w * SCALE_MUL, 1, f);
    WrapLinear(w * SCALE_MUL + f, -1, 0);
  }

  // ----------------------------------------------------------- formatting

  /** Negation of a 64-bit integer, division and remainder rounding towards zero. */
  function Neg64(v: int): int { Wrap64(-v) }

  function TruncDiv(a: int, b: nat): int
    requires b > 0
  {
    if a < 0 then -((-a) / b) else a / b
  }

  function TruncMod(a: int, b: nat): int
    requires b > 0
  {
    a - TruncDiv(a, b) * b
  }

  /** `%0*lld`: at least `w` characters, the sign among them. */
  function FormatPadded(v: int, w: nat): Text
    requires w > 0
  {
    if v < 0 then [MINUS] + PadTo(Digits(-v), w - 1) else PadTo(Digits(v), w)
  }

  function PadTo(d: Text, w: nat): Text
    decreases w - |d|
  {
    if |d| >= w then d else PadTo([DIGIT_0] + d, w)
  }

  /** The text of a stored decimal. */
  function DecodeDecimal(v: int): Text {
    var m := if v < 0 then Neg64(v) else v;
    (if v < 0 then [MINUS] else []) + Format(TruncDiv(m, SCALE_MUL)) + [POINT] + FormatPadded(TruncMod(m, SCALE_MUL), SCALE)
  }

  lemma {:induction false} PadZeros(d: Text, w: nat)
    requires AllDigits(d) && |d| <= w
    ensures |PadTo(d, w)| == w && AllDigits(PadTo(d, w)) && Dec(PadTo(d, w)) == Dec(d)
    decreases w - |d|
  {
    if |d| < w {
      PadZeros([DIGIT_0] + d, w);
      DecConcat([DIGIT_0], d);
      assert Dec([DIGIT_0]) == 0 by { assert [DIGIT_0][..0] == []; }
    }
  }

  lemma {:induction false} DigitsLength(n: nat, w: nat)
    requires n < Pow10(w) && w > 0
    ensures |Digits(n)| <= w
    decreases w
  {
    assert w == 1 ==> Pow10(w) == 10;
    if n >= 10 {
      DigitsLength(n / 10, w - 1);
    }
  }

  /** Every stored decimal but the least is read back from its own text; the text of the
      least one, whose negation overflows, is not a decimal at all. */
  lemma DecimalRoundTrip(v: int)
    requires IsS64(v)
    ensures v != S64_MIN ==> Split(DecodeDecimal(v)).Ok? && PartsOk(Split(DecodeDecimal(v)).value) && Scaled(Split(DecodeDecimal(v)).value) == v
    ensures v != S64_MIN ==> var p := Split(DecodeDecimal(v)).value;
      && Canonical(p.whole) && |p.frac| == 4
      && DecodeDecimal(v) == (if v < 0 then [MINUS] else []) + p.whole + [POINT] + p.frac
    ensures v == S64_MIN ==> Split(DecodeDecimal(v)) == Err(EINVAL)
  {
    if v == S64_MIN {
      LeastDecimal();
    } else {
      hide Digits, Split, PadTo, Dec, Pow10;
      var m: nat := if v < 0 then -v else v;
      WrapId(m);
      var whole, low := m / SCALE_MUL, m % SCALE_MUL;
      var frac := PadTo(Digits(low), SCALE);
      Pow10Scale();
      DigitsLength(low, SCALE);
      PadZeros(Digits(low), SCALE);
      DecOfDigits(low);
      DecOfDigits(whole);
      DigitsCanonical(whole);
      var p := Parts(v < 0, Digits(whole), frac);
      assert IsRendering(DecodeDecimal(v), p, if v < 0 then [MINUS] else [], [POINT]);
      SplitOfRendering(DecodeDecimal(v), p, if v < 0 then [MINUS] else [], [POINT]);
      assert frac[..SCALE] == frac;
    }
  }

  lemma LeastDecimal()
    ensures Split(DecodeDecimal(S64_MIN)) == Err(EINVAL)
  {
    assert Neg64(S64_MIN) == S64_MIN;
    hide Digits, PadTo;
    var s := DecodeDecimal(S64_MIN);
    assert TruncDiv(S64_MIN, SCALE_MUL) < 0;
    assert s[0] == MINUS && s[1] == MINUS;
    assert DigitEnd(s, 1) == 1;
  }
}
