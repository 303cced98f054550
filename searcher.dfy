/**
 * The lookup engine (`IpXdbSearcher` in src/IpXdbSearcher.php): a searcher
 * object over one byte source, whose `search` resolves a 32-bit address to
 * its region payload by a bucket lookup in the vector index followed by a
 * binary search of the bucket's segment records, and which counts the file
 * operations of its latest search in `ioCount`.
 */
module Searcher {
  import opened Wrappers
  import opened Codec
  import opened FileImage
  import opened Layout
  import opened ByteSource
  import opened SegmentIndex

  /** The exceptions `search` throws. */
  datatype SearchError =
    | VectorIndexUnreadable(idx: nat)   // "failed to read vector index at idx"
    | SegmentIndexUnreadable(p: nat)    // "failed to read segment index at p"

  /** What `search` gives back: the payload bytes, null, or an exception. */
  datatype SearchResult = Region(payload: seq<bv8>) | NotFound | Failure(error: SearchError)

  /** A search's result and the number of `read` calls it made. */
  datatype Trace = Trace(result: SearchResult, readCalls: nat)

  /** `sPtr` and `ePtr` of the bucket entry at `idx`: from the cached vector
      index, else from the content buffer at 256 + idx, else by an 8-byte read
      from the file, which may fail. */
  function BucketPointers(s: Store, idx: nat): (r: Option<(nat, nat)>)
    ensures r.Some? ==> r.value.0 < 0x1_0000_0000 && r.value.1 < 0x1_0000_0000
    ensures r.None? <==> s.FileOnly() && ReadAt(s, HeaderInfoLength + idx, VectorIndexSize).None?
  {
    if |s.vectorIndex| > 0 then
      Some((GetLong(s.vectorIndex, idx), GetLong(s.vectorIndex, idx + 4)))
    else if |s.contentBuff| > 0 then
      Some((GetLong(s.contentBuff, HeaderInfoLength + idx), GetLong(s.contentBuff, HeaderInfoLength + idx + 4)))
    else
      match ReadAt(s, HeaderInfoLength + idx, VectorIndexSize)
      case None => None
      case Some(buff) => Some((GetLong(buff, 0), GetLong(buff, 4)))
  }

  /** What the constructor's choice of buffers buys: a searcher built with
      a content buffer takes every bucket entry from that buffer at
      256 + idx, whatever vector index it was given. */
  lemma ValidBufferedEntry(s: Store, idx: nat)
    requires s.Valid() && s.Buffered()
    ensures BucketPointers(s, idx)
         == Some((GetLong(s.contentBuff, HeaderInfoLength + idx), GetLong(s.contentBuff, HeaderInfoLength + idx + 4)))
  {
  }

  /** Number of the last record of a bucket, `($ePtr - $sPtr) / 14`. PHP's
      `/` gives a float when the difference is not a multiple of 14; compared
      with the integer `$l` and truncated by `>> 1`, that float acts exactly
      like its floor, which is what Dafny's `/` gives (negative when the
      bucket is empty, so that the loop does not run). */
  function LastRecord(sPtr: nat, ePtr: nat): (h: int)
    ensures sPtr <= ePtr ==> 0 <= h && h * SegmentIndexSize <= ePtr - sPtr < (h + 1) * SegmentIndexSize
    ensures ePtr < sPtr ==> h < 0
  {
    (ePtr - sPtr) / SegmentIndexSize
  }

  /** Number of records the loop may probe: records `0..LastRecord`. */
  function BucketSize(sPtr: nat, ePtr: nat): (n: nat)
    ensures n == 0 <==> ePtr < sPtr
    ensures n > 0 ==> sPtr + (n - 1) * SegmentIndexSize <= ePtr < sPtr + n * SegmentIndexSize
  {
    if LastRecord(sPtr, ePtr) < 0 then 0 else LastRecord(sPtr, ePtr) + 1
  }

  /** The records of the bucket `sPtr..ePtr`. */
  function BucketRecords(s: Store, sPtr: nat, ePtr: nat): Records
  {
    RecordsOf(s, sPtr, BucketSize(sPtr, ePtr))
  }

  /** `read` calls made for the bucket entry: one when neither buffer is
      cached. */
  function VectorReads(s: Store): nat
  {
    if |s.vectorIndex| == 0 && |s.contentBuff| == 0 then 1 else 0
  }

  /** The rest of a search once the loop over the bucket starting at `sPtr`
      has ended with `scan`, after `before` earlier `read` calls. A record
      pointer of 0 is taken for "nothing matched" (`$dataPtr == null` is a
      loose comparison), and so is a payload read that gives null or "". */
  function Conclude(s: Store, sPtr: nat, scan: Scan, before: nat): (r: Trace)
    ensures r.result.Failure? <==> scan.outcome.ReadFailed?
    ensures r.result.Region? ==> scan.outcome.Hit? && scan.outcome.dataPtr != 0
    ensures before + scan.probes <= r.readCalls <= before + scan.probes + 1
  {
    var calls := before + scan.probes;
    match scan.outcome
    case ReadFailed(m) => Trace(Failure(SegmentIndexUnreadable(sPtr + m * SegmentIndexSize)), calls)
    case Miss => Trace(NotFound, calls)
    case Hit(dataLen, dataPtr) =>
      if dataPtr == 0 then Trace(NotFound, calls)
      else Trace(Fetched(ReadAt(s, dataPtr, dataLen)), calls + 1)
  }

  /** The payload read's outcome: null when the read gives null or "". */
  function Fetched(payload: Option<seq<bv8>>): (r: SearchResult)
    ensures r.Region? <==> payload.Some? && payload.value != []
    ensures r.Region? ==> r.payload == payload.value
    ensures !r.Failure?
  {
    if payload.None? || payload.value == [] then NotFound else Region(payload.value)
  }

  /** `search($ip)` as a function of the byte source: its result and how
      many times it called `read`. */
  function Lookup(s: Store, ip: nat): (r: Trace)
    ensures r.result.Failure? && r.result.error.VectorIndexUnreadable? ==>
      s.FileOnly() && r.result.error.idx == BucketOffset(ip) && r.readCalls == 1
    ensures s.FileOnly() ==> 1 <= r.readCalls
  {
    var idx := BucketOffset(ip);
    match BucketPointers(s, idx)
    case None => Trace(Failure(VectorIndexUnreadable(idx)), 1)
    case Some((sPtr, ePtr)) =>
      Conclude(s, sPtr, BinarySearch(BucketRecords(s, sPtr, ePtr), ip, 0, LastRecord(sPtr, ePtr)), VectorReads(s))
  }

  class XdbSearcher {
    /** The open file, the cached vector index and the content buffer. */
    const store: Store
    /** File operations of the latest search. */
    var ioCount: nat

    /** `__construct($dbFile, $vectorIndex, $cBuff)` with the file already
        opened (its contents given as `file`): a content buffer wins and
        drops the vector index; otherwise the file and the vector index are
        kept. */
    constructor (file: seq<bv8>, vectorIndex: seq<bv8>, contentBuff: seq<bv8>)
      ensures store == if |contentBuff| > 0 then Store([], [], contentBuff) else Store(file, vectorIndex, [])
      ensures store.Valid()
      ensures ioCount == 0
    {
      if |contentBuff| > 0 {
        store := Store([], [], contentBuff);
      } else {
        store := Store(file, vectorIndex, []);
      }
      ioCount := 0;
    }

    method GetIoCount() returns (n: nat)
      ensures n == ioCount
    {
      n := ioCount;
    }

    /** `read($offset, $len)`: a `substr` of the content buffer, or a seek and
        a read of the file that counts one file operation. */
    method Read(offset: nat, len: nat) returns (r: Option<seq<bv8>>)
      modifies this`ioCount
      ensures r == ReadAt(store, offset, len)
      ensures ioCount == old(ioCount) + ReadCost(store)
    {
      if |store.contentBuff| > 0 {
        return Some(Substr(store.contentBuff, offset, len));
      }
      // seeking a regular file to a non-negative offset does not fail
      ioCount := ioCount + 1;
      var buff := Fread(store.file, offset, len);
      if buff.None? {
        return None;
      }
      if |buff.value| != len {
        return None;
      }
      return buff;
    }

    /** The bucket entry for `idx` (lines 139-157 of `search`): read from
        the cached vector index or the content buffer without I/O, or from
        the file by one `read`. */
    method FetchBucket(idx: nat) returns (ptrs: Option<(nat, nat)>)
      modifies this`ioCount
      ensures ptrs == BucketPointers(store, idx)
      ensures ioCount == old(ioCount) + Charged(store, VectorReads(store))
    {
      if |store.vectorIndex| > 0 {
        return Some((GetLong(store.vectorIndex, idx), GetLong(store.vectorIndex, idx + 4)));
      } else if |store.contentBuff| > 0 {
        return Some((GetLong(store.contentBuff, HeaderInfoLength + idx),
                     GetLong(store.contentBuff, HeaderInfoLength + idx + 4)));
      }
      var buff := Read(HeaderInfoLength + idx, VectorIndexSize);
      if buff.None? {
        return None;
      }
      return Some((GetLong(buff.value, 0), GetLong(buff.value, 4)));
    }

    /** Record `m` of the bucket at `sPtr`: `read($sPtr + $m * 14, 14)`,
        nothing when that gives null or "", and otherwise the fields
        decoded by `getLong` and `getShort`. */
    method ReadSegment(sPtr: nat, m: nat, ghost recs: Records) returns (seg: Option<Segment>)
      requires m < |recs|
      requires forall k: nat {:trigger RecordAt(store, sPtr, k)} :: k < |recs| ==> recs[k] == RecordAt(store, sPtr, k)
      modifies this`ioCount
      ensures seg == recs[m]
      ensures ioCount == old(ioCount) + ReadCost(store)
    {
      var buff := Read(sPtr + m * SegmentIndexSize, SegmentIndexSize);
      assert recs[m] == RecordAt(store, sPtr, m);
      if buff.None? || buff.value == [] {
        return None;
      }
      return Some(Decode(buff.value));
    }

    /** The `while ($l <= $h)` loop of `search` over the records of the
        bucket at `sPtr..ePtr`, which `recs` decodes. */
    method ScanBucket(ip: nat, sPtr: nat, ePtr: nat, ghost recs: Records) returns (outcome: Outcome)
      requires |recs| == BucketSize(sPtr, ePtr)
      requires forall m: nat {:trigger RecordAt(store, sPtr, m)} :: m < |recs| ==> recs[m] == RecordAt(store, sPtr, m)
      modifies this`ioCount
      ensures outcome == BinarySearch(recs, ip, 0, LastRecord(sPtr, ePtr)).outcome
      ensures ioCount == old(ioCount) + Charged(store, BinarySearch(recs, ip, 0, LastRecord(sPtr, ePtr)).probes)
    {
      ghost var total := BinarySearch(recs, ip, 0, LastRecord(sPtr, ePtr));
      var l: nat := 0;
      var h: int := (ePtr - sPtr) / SegmentIndexSize;
      while l <= h
        invariant h < |recs|
        invariant BinarySearch(recs, ip, l, h).outcome == total.outcome
        invariant ioCount + Charged(store, BinarySearch(recs, ip, l, h).probes)
                  == old(ioCount) + Charged(store, total.probes)
        decreases h - l
      {
        var m := (l + h) / 2;
        var seg := ReadSegment(sPtr, m, recs);
        if seg.None? {
          return ReadFailed(m);
        }
        if ip < seg.value.startIp {
          h := m - 1;
        } else if ip > seg.value.endIp {
          l := m + 1;
        } else {
          return Hit(seg.value.dataLen, seg.value.dataPtr);
        }
      }
      return Miss;
    }

    /** The end of `search` once the loop has given `outcome`: the exception
        for an unreadable record, null for no match or a null pointer, and
        otherwise the payload read, null when that read gives null or "". */
    method Finish(sPtr: nat, outcome: Outcome, ghost scan: Scan, ghost before: nat) returns (r: SearchResult)
      requires outcome == scan.outcome
      requires ioCount == Charged(store, before + scan.probes)
      modifies this`ioCount
      ensures r == Conclude(store, sPtr, scan, before).result
      ensures ioCount == Charged(store, Conclude(store, sPtr, scan, before).readCalls)
    {
      var dataLen: nat := 0;
      var dataPtr: nat := 0;
      match outcome {
        case ReadFailed(m) =>
          return Failure(SegmentIndexUnreadable(sPtr + m * SegmentIndexSize));
        case Miss =>
        case Hit(len, ptr) =>
          dataLen, dataPtr := len, ptr;
      }

      // `$dataPtr == null` also holds for a pointer of 0
      if dataPtr == 0 {
        return NotFound;
      }
      var payload := Read(dataPtr, dataLen);
      if payload.None? || payload.value == [] {
        return NotFound;
      }
      return Region(payload.value);
    }

    /** `search($ip)`: the bucket of the address's first two bytes, the
        binary search of its records, and the payload of the match. */
    method Search(ip: nat) returns (r: SearchResult)
      modifies this`ioCount
      ensures r == Lookup(store, ip).result
      ensures ioCount == Charged(store, Lookup(store, ip).readCalls)
      ensures store.Buffered() ==> ioCount == 0
    {
      ioCount := 0;
      var idx := BucketOffset(ip);
      var ptrs := FetchBucket(idx);
      if ptrs.None? {
        return Failure(VectorIndexUnreadable(idx));
      }
      var sPtr, ePtr := ptrs.value.0, ptrs.value.1;
      ghost var recs := BucketRecords(store, sPtr, ePtr);
      forall m: nat | m < |recs|
        ensures recs[m] == RecordAt(store, sPtr, m)
      {
        RecordsOfAt(store, sPtr, |recs|, m);
      }
      ghost var scan := BinarySearch(recs, ip, 0, LastRecord(sPtr, ePtr));
      var outcome := ScanBucket(ip, sPtr, ePtr, recs);
      r := Finish(sPtr, outcome, scan, VectorReads(store));
    }
  }
}
