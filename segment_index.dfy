/**
 * The second level of a lookup: the binary search over the 14-byte
 * segment index records of one bucket (the `while ($l <= $h)` loop of
 * `search` in src/IpXdbSearcher.php). A record is
 * `startIP: u32, endIP: u32, dataLen: u16, dataPtr: u32`.
 *
 * The loop is stated over the bucket's records as a sequence of decoded
 * records (nothing where the read fails), so the facts about the search
 * hold whatever the records are read from.
 */
module SegmentIndex {
  import opened Wrappers
  import opened Codec
  import opened Layout
  import opened ByteSource

  /** A decoded segment index record. */
  datatype Segment = Segment(startIp: nat, endIp: nat, dataLen: nat, dataPtr: nat)

  /** The record fields at offsets 0, 4, 8 and 10: three unsigned 32-bit
      values and a 16-bit length. */
  function Decode(buff: seq<bv8>): (r: Segment)
    ensures r.startIp < 0x1_0000_0000 && r.endIp < 0x1_0000_0000 && r.dataPtr < 0x1_0000_0000
    ensures r.dataLen < 0x1_0000
  {
    Segment(GetLong(buff, 0), GetLong(buff, 4), GetShort(buff, 8), GetLong(buff, 10))
  }

  /** The builder's side: a record as 14 little-endian bytes. */
  function EncodeSegment(startIp: bv32, endIp: bv32, dataLen: bv16, dataPtr: bv32): (b: seq<bv8>)
    ensures |b| == SegmentIndexSize
  {
    EncodeLong(startIp) + EncodeLong(endIp) + EncodeShort(dataLen) + EncodeLong(dataPtr)
  }

  /** Decoding a record the builder wrote gives back its fields, whatever
      follows it. */
  lemma DecodeRoundTrip(startIp: bv32, endIp: bv32, dataLen: bv16, dataPtr: bv32, rest: seq<bv8>)
    ensures Decode(EncodeSegment(startIp, endIp, dataLen, dataPtr) + rest)
         == Segment(startIp as int, endIp as int, dataLen as int, dataPtr as int)
  {
    var b := EncodeSegment(startIp, endIp, dataLen, dataPtr) + rest;
    assert b[0..4] == EncodeLong(startIp);
    assert b[4..8] == EncodeLong(endIp);
    assert b[8..10] == EncodeShort(dataLen);
    assert b[10..14] == EncodeLong(dataPtr);
    LongAt(b, 0, startIp);
    LongAt(b, 4, endIp);
    ShortAt(b, 8, dataLen);
    LongAt(b, 10, dataPtr);
  }

  predicate Covers(seg: Segment, ip: nat)
  {
    seg.startIp <= ip <= seg.endIp
  }

  /** The records of a bucket in order, each nothing when it cannot be
      read. */
  type Records = seq<Option<Segment>>

  /** The `m`-th record of the bucket that starts at `sPtr`, as the loop
      sees it: a read that gives null or "" is a failure. */
  function RecordAt(s: Store, sPtr: nat, m: nat): (r: Option<Segment>)
    ensures !s.Buffered() ==> (r.Some? <==> sPtr + m * SegmentIndexSize + SegmentIndexSize <= |s.file|)
    ensures s.Buffered() ==> (r.Some? <==> sPtr + m * SegmentIndexSize < |s.contentBuff|)
  {
    var buff := ReadAt(s, sPtr + m * SegmentIndexSize, SegmentIndexSize);
    if buff.None? || buff.value == [] then None else Some(Decode(buff.value))
  }

  /** The first `count` records of the bucket that starts at `sPtr`. */
  function RecordsOf(s: Store, sPtr: nat, count: nat): (r: Records)
    ensures |r| == count
  {
    if count == 0 then [] else RecordsOf(s, sPtr, count - 1) + [RecordAt(s, sPtr, count - 1)]
  }

  /** Entry `m` of `RecordsOf` is record `m` of the bucket. */
  lemma {:induction false} RecordsOfAt(s: Store, sPtr: nat, count: nat, m: nat)
    requires m < count
    ensures RecordsOf(s, sPtr, count)[m] == RecordAt(s, sPtr, m)
  {
    var prefix := RecordsOf(s, sPtr, count - 1);
    assert RecordsOf(s, sPtr, count) == prefix + [RecordAt(s, sPtr, count - 1)];
    if m < count - 1 {
      RecordsOfAt(s, sPtr, count - 1, m);
      assert RecordsOf(s, sPtr, count)[m] == prefix[m];
    }
  }

  /** How the loop ends: on a record that covers the address (its payload
      length and pointer), with the range exhausted, or on record number
      `m`, which could not be read. */
  datatype Outcome = Hit(dataLen: nat, dataPtr: nat) | Miss | ReadFailed(m: nat)

  /** The outcome and the number of records read on the way. */
  datatype Scan = Scan(outcome: Outcome, probes: nat)

  /** The loop over records `l..h` (inclusive): probe the middle one; below
      its start go left, above its end go right, otherwise stop on it. */
  function BinarySearch(recs: Records, ip: nat, l: nat, h: int): (r: Scan)
    requires h < |recs|
    ensures h < l ==> r == Scan(Miss, 0)
    ensures l <= h ==> 1 <= r.probes
    decreases h - l + 1
  {
    if h < l then Scan(Miss, 0)
    else
      var m := (l + h) / 2;
      match recs[m]
      case None => Scan(ReadFailed(m), 1)
      case Some(seg) =>
        if ip < seg.startIp then
          var rest := BinarySearch(recs, ip, l, m - 1);
          Scan(rest.outcome, rest.probes + 1)
        else if ip > seg.endIp then
          var rest := BinarySearch(recs, ip, m + 1, h);
          Scan(rest.outcome, rest.probes + 1)
        else Scan(Hit(seg.dataLen, seg.dataPtr), 1)
  }

  /** Every record of the bucket can be read. */
  ghost predicate Readable(recs: Records)
  {
    forall m :: 0 <= m < |recs| ==> recs[m].Some?
  }

  /** What the index builder guarantees of a bucket: every record is
      readable and a non-empty range, and they are sorted ascending and do
      not overlap. */
  ghost predicate Sorted(recs: Records)
  {
    && Readable(recs)
    && (forall m :: 0 <= m < |recs| ==> recs[m].value.startIp <= recs[m].value.endIp)
    && (forall i, j :: 0 <= i < j < |recs| ==> recs[i].value.endIp < recs[j].value.startIp)
  }

  /** Soundness: a hit is a record of the range that covers the address,
      and the payload length and pointer are that record's. */
  lemma {:induction false} SearchSound(recs: Records, ip: nat, l: nat, h: int)
    requires h < |recs|
    ensures BinarySearch(recs, ip, l, h).outcome.Hit? ==>
      exists m: nat :: l <= m <= h && recs[m].Some? && Covers(recs[m].value, ip)
        && BinarySearch(recs, ip, l, h).outcome == Hit(recs[m].value.dataLen, recs[m].value.dataPtr)
    decreases h - l + 1
  {
    if l <= h {
      var m := (l + h) / 2;
      if recs[m].Some? {
        if ip < recs[m].value.startIp {
          SearchSound(recs, ip, l, m - 1);
        } else if ip > recs[m].value.endIp {
          SearchSound(recs, ip, m + 1, h);
        }
      }
    }
  }

  /** The loop fails only on a record of the range that cannot be read. */
  lemma {:induction false} SearchFailsOnUnreadable(recs: Records, ip: nat, l: nat, h: int)
    requires h < |recs|
    ensures BinarySearch(recs, ip, l, h).outcome.ReadFailed? ==>
      var m := BinarySearch(recs, ip, l, h).outcome.m; l <= m <= h && recs[m].None?
    decreases h - l + 1
  {
    if l <= h {
      var m := (l + h) / 2;
      if recs[m].Some? {
        if ip < recs[m].value.startIp {
          SearchFailsOnUnreadable(recs, ip, l, m - 1);
        } else if ip > recs[m].value.endIp {
          SearchFailsOnUnreadable(recs, ip, m + 1, h);
        }
      }
    }
  }

  /** Completeness: in a sorted bucket, the loop over a range that contains
      a covering record stops on that record. */
  lemma {:induction false} SearchComplete(recs: Records, ip: nat, l: nat, h: int, k: nat)
    requires Sorted(recs) && h < |recs| && l <= k <= h
    requires Covers(recs[k].value, ip)
    ensures BinarySearch(recs, ip, l, h).outcome == Hit(recs[k].value.dataLen, recs[k].value.dataPtr)
    decreases h - l + 1
  {
    var m := (l + h) / 2;
    assert recs[m].Some?;
    if ip < recs[m].value.startIp {
      if k >= m {
        assert false;
      }
      SearchComplete(recs, ip, l, m - 1, k);
    } else if ip > recs[m].value.endIp {
      if k <= m {
        assert false;
      }
      SearchComplete(recs, ip, m + 1, h, k);
    } else if m != k {
      assert false;
    }
  }

  /** With every record readable and none covering the address, the loop
      over the whole bucket runs out of range. */
  lemma SearchMisses(recs: Records, ip: nat)
    requires Readable(recs)
    requires forall m :: 0 <= m < |recs| ==> !Covers(recs[m].value, ip)
    ensures BinarySearch(recs, ip, 0, |recs| - 1).outcome == Miss
  {
    SearchSound(recs, ip, 0, |recs| - 1);
    SearchFailsOnUnreadable(recs, ip, 0, |recs| - 1);
  }

  /** Number of binary digits of `n`. */
  function BitLength(n: nat): nat
  {
    if n == 0 then 0 else 1 + BitLength(n / 2)
  }

  lemma {:induction false} BitLengthMonotone(a: nat, b: nat)
    requires a <= b
    ensures BitLength(a) <= BitLength(b)
    decreases b
  {
    if a != 0 {
      BitLengthMonotone(a / 2, b / 2);
    }
  }

  /** The loop terminates after at most BitLength(h - l + 1) probes: each
      probe at least halves what is left of the range. */
  lemma {:induction false} SearchProbeBound(recs: Records, ip: nat, l: nat, h: int)
    requires h < |recs|
    ensures BinarySearch(recs, ip, l, h).probes <= BitLength(if h < l then 0 else h - l + 1)
    decreases h - l + 1
  {
    if l <= h {
      var m := (l + h) / 2;
      var n := h - l + 1;
      if recs[m].Some? {
        if ip < recs[m].value.startIp {
          SearchProbeBound(recs, ip, l, m - 1);
          BitLengthMonotone(m - l, n / 2);
        } else if ip > recs[m].value.endIp {
          SearchProbeBound(recs, ip, m + 1, h);
          BitLengthMonotone(h - m, n / 2);
        }
      }
    }
  }

  /** The loop depends on the records only through those of `l..h`. */
  lemma {:induction false} SearchDependsOnRange(recs: Records, other: Records, ip: nat, l: nat, h: int)
    requires h < |recs| && h < |other|
    requires forall m :: l <= m <= h ==> recs[m] == other[m]
    ensures BinarySearch(recs, ip, l, h) == BinarySearch(other, ip, l, h)
    decreases h - l + 1
  {
    if l <= h {
      var m := (l + h) / 2;
      SearchDependsOnRange(recs, other, ip, l, m - 1);
      SearchDependsOnRange(recs, other, ip, m + 1, h);
    }
  }

  /** A loop that meets no unreadable record gives the same result over any
      records that agree with it wherever it is readable. */
  lemma {:induction false} SearchAgreesWhereReadable(recs: Records, other: Records, ip: nat, l: nat, h: int)
    requires h < |recs| && h < |other|
    requires forall m :: l <= m <= h && recs[m].Some? ==> other[m] == recs[m]
    ensures !BinarySearch(recs, ip, l, h).outcome.ReadFailed? ==>
      BinarySearch(other, ip, l, h) == BinarySearch(recs, ip, l, h)
    decreases h - l + 1
  {
    if l <= h {
      var m := (l + h) / 2;
      SearchAgreesWhereReadable(recs, other, ip, l, m - 1);
      SearchAgreesWhereReadable(recs, other, ip, m + 1, h);
    }
  }
}
