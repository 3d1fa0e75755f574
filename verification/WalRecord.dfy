/** The bytes of a log record: what is read from each place of it. */
module WalRecord {
  import opened Basics
  import opened Bytes
  import opened WalChain

  type u32 = x: int | 0 <= x < U32

  /** Size of a record header: three 8-byte fields, the type and its padding, the
      body length and the checksum. */
  const REC_HDR: nat := 36
  const MAX_REC: nat := REC_HDR + 8192
  const CKPT_REC: nat := REC_HDR + 16
  const REC_CHECKPOINT: byte := 6

  /** What a caller hands over to be logged. */
  datatype Entry = Entry(xid: nat, ty: byte, body: seq<byte>)

  // --------------------------------------------------------------- headers

  /** Six fields, read at their places. */
  predicate Reads(h: seq<byte>, lsn: nat, prev: nat, xid: nat, ty: byte, bodyLen: nat) {
    && |h| == REC_HDR
    && Nat(h[..8]) == lsn && Nat(h[8..16]) == prev && Nat(h[16..24]) == xid
    && h[24] == ty && h[25..28] == [0, 0, 0] && Nat(h[28..32]) == bodyLen
  }

  /** A header before its checksum is known. */
  function HeaderStart(lsn: nat, prev: nat, xid: nat, ty: byte, bodyLen: nat): (r: seq<byte>)
    ensures |r| == 32
    ensures forall sum: seq<byte> | |sum| == 4 :: Reads(r + sum, lsn % U64, prev % U64, xid % U64, ty, bodyLen % U32)
  {
    StartReads(lsn, prev, xid, ty, bodyLen);
    Le(lsn, 8) + Le(prev, 8) + Le(xid, 8) + [ty, 0, 0, 0] + Le(bodyLen, 4)
  }

  lemma StartReads(lsn: nat, prev: nat, xid: nat, ty: byte, bodyLen: nat)
    ensures var r := Le(lsn, 8) + Le(prev, 8) + Le(xid, 8) + [ty, 0, 0, 0] + Le(bodyLen, 4);
      |r| == 32 && forall sum: seq<byte> | |sum| == 4 :: Reads(r + sum, lsn % U64, prev % U64, xid % U64, ty, bodyLen % U32)
  {
    hide Le, Nat, Pow256;
    Widths();
    NatOfLeLow(lsn, 8);
    NatOfLeLow(prev, 8);
    NatOfLeLow(xid, 8);
    NatOfLeLow(bodyLen, 4);
    forall sum: seq<byte> | |sum| == 4
      ensures var r := Le(lsn, 8) + Le(prev, 8) + Le(xid, 8) + [ty, 0, 0, 0] + Le(bodyLen, 4);
        Reads(r + sum, lsn % U64, prev % U64, xid % U64, ty, bodyLen % U32)
    {
      SixParts(Le(lsn, 8), Le(prev, 8), Le(xid, 8), [ty, 0, 0, 0], Le(bodyLen, 4), sum);
    }
  }

  lemma SixParts(a: seq<byte>, b: seq<byte>, c: seq<byte>, d: seq<byte>, e: seq<byte>, f: seq<byte>)
    requires |a| == 8 && |b| == 8 && |c| == 8 && |d| == 4 && |e| == 4
    ensures var s := a + b + c + d + e + f;
      s[..8] == a && s[8..16] == b && s[16..24] == c && s[24] == d[0] && s[25..28] == d[1..] && s[28..32] == e
  {
  }

  /** The whole header: the checksum is over the header with a zero checksum, and the body. */
  function Header(crc: seq<byte> -> u32, lsn: nat, prev: nat, e: Entry): (r: seq<byte>)
    ensures |r| == REC_HDR
  {
    var start := HeaderStart(lsn, prev, e.xid, e.ty, |e.body|);
    start + Le(crc(start + [0, 0, 0, 0] + e.body), 4)
  }

  // --------------------------------------------------------------- records

  /** Record `r` is whole in `bytes`: its header reads as its numbers, the transaction and type
      of `e`, the length of the body and a right checksum, and then comes the body. */
  ghost predicate Carries(crc: seq<byte> -> u32, bytes: seq<byte>, r: Rec, e: Entry) {
    && r.len == REC_HDR + |e.body| && r.off + r.len <= |bytes|
    && var h := bytes[r.off..r.off + REC_HDR];
    && Reads(h, r.lsn, r.prev, e.xid % U64, e.ty, |e.body|)
    && Nat(h[32..]) == crc(h[..32] + [0, 0, 0, 0] + e.body)
    && bytes[r.off + REC_HDR..r.off + r.len] == e.body
  }

  lemma RecordCarries(crc: seq<byte> -> u32, bytes: seq<byte>, lsn: nat, prev: nat, e: Entry)
    requires lsn < U64 && prev < U64 && |e.body| < U32
    ensures Carries(crc, bytes + (Header(crc, lsn, prev, e) + e.body), Rec(lsn, prev, |bytes|, REC_HDR + |e.body|), e)
  {
    hide Le, Nat, Pow256, Reads, HeaderStart;
    var start := HeaderStart(lsn, prev, e.xid, e.ty, |e.body|);
    var sum := crc(start + [0, 0, 0, 0] + e.body);
    Widths();
    NatOfLe(sum, 4);
    assert Reads(start + Le(sum, 4), lsn, prev, e.xid % U64, e.ty, |e.body|);
    Behind(bytes, start, Le(sum, 4), e.body);
  }

  lemma Behind(bytes: seq<byte>, start: seq<byte>, sum: seq<byte>, body: seq<byte>)
    requires |start| == 32 && |sum| == 4
    ensures var all, off := bytes + (start + sum + body), |bytes|; var h := all[off..off + REC_HDR];
      h == start + sum && h[..32] == start && h[32..] == sum && all[off + REC_HDR..off + REC_HDR + |body|] == body
  {
    var all, off := bytes + (start + sum + body), |bytes|;
    assert all[off..] == start + sum + body;
    assert all[off..off + REC_HDR] == all[off..][..REC_HDR];
    assert all[off + REC_HDR..off + REC_HDR + |body|] == all[off..][REC_HDR..REC_HDR + |body|];
  }

  lemma CarriesLonger(crc: seq<byte> -> u32, bytes: seq<byte>, longer: seq<byte>, r: Rec, e: Entry)
    requires Carries(crc, bytes, r, e) && bytes <= longer
    ensures Carries(crc, longer, r, e)
  {
    hide Reads;
    assert longer[r.off..r.off + REC_HDR] == bytes[r.off..r.off + REC_HDR];
    assert longer[r.off + REC_HDR..r.off + r.len] == bytes[r.off + REC_HDR..r.off + r.len];
  }

  /** `more` is `recs` and one record for each entry, in order. */
  ghost predicate Grew(crc: seq<byte> -> u32, recs: seq<Rec>, more: seq<Rec>, bytes: seq<byte>, entries: seq<Entry>) {
    && |more| == |recs| + |entries| && recs <= more
    && forall k | 0 <= k < |entries| :: Carries(crc, bytes, more[|recs| + k], entries[k])
  }

  lemma GrewNot(crc: seq<byte> -> u32, recs: seq<Rec>, bytes: seq<byte>)
    ensures Grew(crc, recs, recs, bytes, [])
  {
  }

  lemma GrewOne(crc: seq<byte> -> u32, recs: seq<Rec>, bytes: seq<byte>, e: Entry, lsn: nat, prev: nat)
    requires lsn < U64 && prev < U64 && |e.body| < U32
    ensures Grew(crc, recs, recs + [Rec(lsn, prev, |bytes|, REC_HDR + |e.body|)], bytes + (Header(crc, lsn, prev, e) + e.body), [e])
  {
    hide Carries, Header;
    RecordCarries(crc, bytes, lsn, prev, e);
  }

  lemma GrewMore(crc: seq<byte> -> u32, recs: seq<Rec>, mid: seq<Rec>, more: seq<Rec>, bytes: seq<byte>, longer: seq<byte>,
                 xs: seq<Entry>, ys: seq<Entry>)
    requires Grew(crc, recs, mid, bytes, xs) && Grew(crc, mid, more, longer, ys) && bytes <= longer
    ensures Grew(crc, recs, more, longer, xs + ys)
  {
    hide Carries;
    var zs := xs + ys;
    forall k | 0 <= k < |zs|
      ensures Carries(crc, longer, more[|recs| + k], zs[k])
    {
      if k < |xs| {
        assert more[|recs| + k] == mid[|recs| + k];
        CarriesLonger(crc, bytes, longer, mid[|recs| + k], xs[k]);
      } else {
        assert Carries(crc, longer, more[|mid| + (k - |xs|)], ys[k - |xs|]);
      }
    }
  }

  lemma GrewNone(crc: seq<byte> -> u32, recs: seq<Rec>, more: seq<Rec>, bytes: seq<byte>)
    requires Grew(crc, recs, more, bytes, [])
    ensures more == recs
  {
  }

  lemma GrewPrefix(crc: seq<byte> -> u32, recs: seq<Rec>, more: seq<Rec>, bytes: seq<byte>, entries: seq<Entry>)
    requires Grew(crc, recs, more, bytes, entries)
    ensures recs <= more
  {
  }

  // ----------------------------------------------------------- checkpoints

  /** Body of a CHECKPOINT record: the LSN up to which data is on disk, then the time. */
  function CheckpointBody(dataFlushLsn: nat, time: nat): (r: seq<byte>)
    ensures |r| == 16 && Nat(r[..8]) == dataFlushLsn % U64 && Nat(r[8..]) == time % U64
  {
    NatOfLeLow(dataFlushLsn, 8);
    NatOfLeLow(time, 8);
    Widths();
    var r := Le(dataFlushLsn, 8) + Le(time, 8);
    assert r[..8] == Le(dataFlushLsn, 8) && r[8..] == Le(time, 8);
    r
  }
}
