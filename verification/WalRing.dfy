/** The circular log buffer: absolute offsets that only grow, an index that wraps. */
module WalRing {

  import opened Bytes

  const BUF_SIZE: nat := 4 * 1024 * 1024

  /** The bytes at the absolute offsets [from, to). */
  ghost function Slice(buf: seq<byte>, from: nat, to: nat): (r: seq<byte>)
    requires |buf| == BUF_SIZE && from <= to
    ensures |r| == to - from
  {
    seq(to - from, i requires 0 <= i < to - from => buf[(from + i) % BUF_SIZE])
  }

  /** The buffer after writing `src` at absolute offset `at`. */
  ghost function Put(buf: seq<byte>, at: nat, src: seq<byte>): (r: seq<byte>)
    requires |buf| == BUF_SIZE
    ensures |r| == BUF_SIZE
  {
    seq(BUF_SIZE, j requires 0 <= j < BUF_SIZE => var d := (j - at) % BUF_SIZE; if d < |src| then src[d] else buf[j])
  }

  lemma SliceSplit(buf: seq<byte>, a: nat, b: nat, c: nat)
    requires |buf| == BUF_SIZE && a <= b <= c
    ensures Slice(buf, a, c) == Slice(buf, a, b) + Slice(buf, b, c)
  {
    forall i | b - a <= i < c - a ensures Slice(buf, a, c)[i] == Slice(buf, b, c)[i - (b - a)] {
      assert a + i == b + (i - (b - a));
    }
  }

  /** A remainder is determined by any quotient that leaves it in range. */
  lemma Remainder(n: int, q: int, r: nat)
    requires n == q * BUF_SIZE + r && r < BUF_SIZE
    ensures n % BUF_SIZE == r
  {
  }

  lemma WrapDistance(j: nat, at: nat, d: nat)
    requires d < BUF_SIZE && (j == at + d || j + BUF_SIZE == at + d)
    ensures (j % BUF_SIZE - at) % BUF_SIZE == d
  {
    Remainder(j % BUF_SIZE - at, (if j == at + d then 0 else -1) - j / BUF_SIZE, d);
  }

  /** Writing does not touch what is still buffered, as long as there is room. */
  lemma PutKeeps(buf: seq<byte>, from: nat, at: nat, src: seq<byte>)
    requires |buf| == BUF_SIZE && from <= at && at + |src| <= from + BUF_SIZE
    ensures Slice(Put(buf, at, src), from, at) == Slice(buf, from, at)
  {
    forall i | 0 <= i < at - from ensures Slice(Put(buf, at, src), from, at)[i] == Slice(buf, from, at)[i] {
      WrapDistance(from + i, at, from + i + BUF_SIZE - at);
    }
  }

  lemma PutReads(buf: seq<byte>, at: nat, src: seq<byte>)
    requires |buf| == BUF_SIZE && |src| <= BUF_SIZE
    ensures Slice(Put(buf, at, src), at, at + |src|) == src
  {
    forall i | 0 <= i < |src| ensures Slice(Put(buf, at, src), at, at + |src|)[i] == src[i] {
      WrapDistance(at + i, at, i);
    }
  }

  /** Appending to the ring appends to the buffered bytes. */
  lemma PutAppends(buf: seq<byte>, from: nat, at: nat, src: seq<byte>)
    requires |buf| == BUF_SIZE && from <= at && at + |src| <= from + BUF_SIZE
    ensures Slice(Put(buf, at, src), from, at + |src|) == Slice(buf, from, at) + src
  {
    SliceSplit(Put(buf, at, src), from, at, at + |src|);
    PutKeeps(buf, from, at, src);
    PutReads(buf, at, src);
  }

  /** Copies `src` into the ring, in two parts when it wraps. */
  method RingWrite(buf: array<byte>, at: nat, src: seq<byte>)
    requires buf.Length == BUF_SIZE && |src| <= BUF_SIZE
    modifies buf
    ensures buf[..] == Put(old(buf[..]), at, src)
  {
    ghost var b := buf[..];
    var idx := at % BUF_SIZE;
    if idx + |src| <= BUF_SIZE {
      CopyIn(buf, idx, src);
    } else {
      var first := BUF_SIZE - idx;
      CopyIn(buf, idx, src[..first]);
      CopyIn(buf, 0, src[first..]);
    }
    PutParts(b, at, src);
  }

  /** A write in one or two parts. */
  lemma PutParts(b: seq<byte>, at: nat, src: seq<byte>)
    requires |b| == BUF_SIZE && |src| <= BUF_SIZE
    ensures var idx := at % BUF_SIZE; var first := BUF_SIZE - idx;
      Put(b, at, src) == if |src| <= first then Splice(b, idx, src) else Splice(Splice(b, idx, src[..first]), 0, src[first..])
  {
    var idx := at % BUF_SIZE;
    var first := BUF_SIZE - idx;
    var r := if |src| <= first then Splice(b, idx, src) else Splice(Splice(b, idx, src[..first]), 0, src[first..]);
    forall j | 0 <= j < BUF_SIZE
      ensures Put(b, at, src)[j] == r[j]
    {
      WrapIndex(j, at);
      PutAt(b, at, src, j);
      if |src| <= first {
        SpliceIndex(b, idx, src, j);
      } else {
        SpliceIndex(b, idx, src[..first], j);
        SpliceIndex(Splice(b, idx, src[..first]), 0, src[first..], j);
      }
      hide Splice, Put;
    }
  }

  lemma PutAt(b: seq<byte>, at: nat, src: seq<byte>, j: nat)
    requires |b| == BUF_SIZE && j < BUF_SIZE
    ensures var d := (j - at) % BUF_SIZE; Put(b, at, src)[j] == if d < |src| then src[d] else b[j]
  {
  }

  lemma WrapIndex(j: nat, at: nat)
    requires j < BUF_SIZE
    ensures var idx := at % BUF_SIZE; (j - at) % BUF_SIZE == if idx <= j then j - idx else j - idx + BUF_SIZE
  {
    var idx := at % BUF_SIZE;
    if idx <= j {
      Remainder(j - at, -(at / BUF_SIZE), j - idx);
    } else {
      Remainder(j - at, -(at / BUF_SIZE) - 1, j - idx + BUF_SIZE);
    }
  }

  /** Copies bytes out of the ring, in two parts when they wrap. */
  method RingRead(buf: array<byte>, from: nat, n: nat) returns (r: seq<byte>)
    requires buf.Length == BUF_SIZE && n <= BUF_SIZE
    ensures r == Slice(buf[..], from, from + n)
  {
    var idx := from % BUF_SIZE;
    if idx + n <= BUF_SIZE {
      r := buf[idx..idx + n];
    } else {
      var first := BUF_SIZE - idx;
      r := buf[idx..] + buf[..n - first];
    }
    forall i | 0 <= i < n ensures r[i] == buf[(from + i) % BUF_SIZE] {
      WrapForward(from, i);
    }
  }

  lemma WrapForward(from: nat, i: nat)
    requires i < BUF_SIZE
    ensures var idx := from % BUF_SIZE; (from + i) % BUF_SIZE == if idx + i < BUF_SIZE then idx + i else idx + i - BUF_SIZE
  {
    var idx := from % BUF_SIZE;
    if idx + i < BUF_SIZE {
      Remainder(from + i, from / BUF_SIZE, idx + i);
    } else {
      Remainder(from + i, from / BUF_SIZE + 1, idx + i - BUF_SIZE);
    }
  }
}
