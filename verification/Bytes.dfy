/** Bytes, little-endian numbers, and copying into a fixed buffer. */
module Bytes {

  type byte = b: int | 0 <= b < 256

  function Pow256(k: nat): (r: nat)
    ensures r > 0
  {
    if k == 0 then 1 else 256 * Pow256(k - 1)
  }

  function Le(n: nat, k: nat): (r: seq<byte>)
    ensures |r| == k
  {
    if k == 0 then [] else [n % 256] + Le(n / 256, k - 1)
  }

  function Nat(s: seq<byte>): (r: nat)
    ensures r < Pow256(|s|)
  {
    if s == [] then 0 else s[0] + 256 * Nat(s[1..])
  }

  /** A number that fits is read back. */
  lemma {:induction false} NatOfLe(n: nat, k: nat)
    requires n < Pow256(k)
    ensures Nat(Le(n, k)) == n
  {
    if k > 0 {
      NatOfLe(n / 256, k - 1);
      assert Le(n, k)[1..] == Le(n / 256, k - 1);
    }
  }

  /** A number that does not fit loses its high digits. */
  lemma {:induction false} NatOfLeLow(n: nat, k: nat)
    ensures Nat(Le(n, k)) == n % Pow256(k)
  {
    if k > 0 {
      NatOfLeLow(n / 256, k - 1);
      assert Le(n, k)[1..] == Le(n / 256, k - 1);
      LowDigit(n, Pow256(k - 1));
    }
  }

  lemma LowDigit(n: nat, p: nat)
    requires p > 0
    ensures n % (256 * p) == n % 256 + 256 * (n / 256 % p)
  {
    var q, r := n / 256 / p, n / 256 % p;
    assert n / 256 == q * p + r;
    assert n == q * (256 * p) + (256 * r + n % 256);
    QuotientUnique(n, 256 * p, q, 256 * r + n % 256);
  }

  lemma QuotientUnique(n: nat, d: nat, q: nat, r: nat)
    requires d > 0 && n == q * d + r && r < d
    ensures n % d == r
  {
    SameRemainder(d, q, r, n / d, n % d);
  }

  lemma SameRemainder(d: nat, q: int, r: int, q': int, r': int)
    requires q * d + r == q' * d + r' && 0 <= r < d && 0 <= r' < d
    ensures r == r'
  {
    assert (q - q') * d == r' - r;
    if q > q' {
      AtLeast(q - q', d);
    } else if q < q' {
      AtLeast(q' - q, d);
    }
  }

  lemma AtLeast(k: int, d: nat)
    requires k >= 1
    ensures k * d >= d
  {
    assert k * d == (k - 1) * d + d;
  }

  /** Numbers below 2^16 (2^64) fit into 2 (8) bytes. */
  lemma Widths()
    ensures Pow256(1) == 0x100 && Pow256(2) == 0x1_0000 && Pow256(4) == 0x1_0000_0000 && Pow256(8) == 0x1_0000_0000_0000_0000
  {
    assert Pow256(3) == 0x100_0000;
    assert Pow256(5) == 0x100_0000_0000;
    assert Pow256(6) == 0x1_0000_0000_0000;
    assert Pow256(7) == 0x100_0000_0000_0000;
  }

  /** `b` with `s` written over it from `at` on. */
  function Splice(b: seq<byte>, at: nat, s: seq<byte>): (r: seq<byte>)
    requires at + |s| <= |b|
    ensures |r| == |b|
    ensures r[at..at + |s|] == s
  {
    b[..at] + s + b[at + |s|..]
  }

  /** A write leaves every disjoint range alone. */
  lemma SpliceElsewhere(b: seq<byte>, at: nat, s: seq<byte>, from: nat, to: nat)
    requires at + |s| <= |b| && from <= to <= |b|
    requires to <= at || at + |s| <= from
    ensures Splice(b, at, s)[from..to] == b[from..to]
  {
    var r := Splice(b, at, s);
    forall i | from <= i < to
      ensures r[i] == b[i]
    {
      SpliceIndex(b, at, s, i);
    }
    hide Splice;
  }

  lemma SpliceIndex(b: seq<byte>, at: nat, s: seq<byte>, i: nat)
    requires at + |s| <= |b| && i < |b|
    ensures Splice(b, at, s)[i] == if at <= i < at + |s| then s[i - at] else b[i]
  {
    if i >= at + |s| {
      assert b[at + |s|..][i - at - |s|] == b[i];
    }
  }

  method CopyIn(buf: array<byte>, at: nat, src: seq<byte>)
    requires at + |src| <= buf.Length
    modifies buf
    ensures buf[..] == Splice(old(buf[..]), at, src)
  {
    for i := 0 to |src|
      invariant forall j | 0 <= j < buf.Length :: buf[j] == if at <= j < at + i then src[j - at] else old(buf[j])
    {
      buf[at + i] := src[i];
    }
  }
}
