/**
 * What a search promises, stated over `Lookup`, the function that
 * `XdbSearcher.Search` is proved to compute: it answers only with the
 * payload of a record that covers the address, it finds that record when
 * the bucket is sorted, it makes a bounded number of reads, and caching the
 * vector index or the whole image does not change its answer.
 */
module LookupFacts {
  import opened Wrappers
  import opened Codec
  import opened FileImage
  import opened Layout
  import opened ByteSource
  import opened SegmentIndex
  import opened Searcher

  /** Record `seg` covers `ip`, has a non-null pointer, and its payload
      reads back as the non-empty `payload`. */
  ghost predicate Answers(s: Store, seg: Option<Segment>, ip: nat, payload: seq<bv8>)
  {
    && seg.Some?
    && Covers(seg.value, ip)
    && seg.value.dataPtr != 0
    && ReadAt(s, seg.value.dataPtr, seg.value.dataLen) == Some(payload)
    && payload != []
  }

  /** The search of `ip` reaches the bucket `sPtr..ePtr`. */
  lemma BucketReached(s: Store, ip: nat, sPtr: nat, ePtr: nat)
    requires BucketPointers(s, BucketOffset(ip)) == Some((sPtr, ePtr))
    ensures Lookup(s, ip)
         == Conclude(s, sPtr, BinarySearch(BucketRecords(s, sPtr, ePtr), ip, 0, LastRecord(sPtr, ePtr)), VectorReads(s))
  {
  }

  /** Soundness: a payload comes from a record of the address's bucket that
      covers the address. */
  lemma LookupSound(s: Store, ip: nat, sPtr: nat, ePtr: nat)
    requires BucketPointers(s, BucketOffset(ip)) == Some((sPtr, ePtr))
    ensures var recs := BucketRecords(s, sPtr, ePtr);
      Lookup(s, ip).result.Region? ==>
        exists k :: 0 <= k < |recs| && Answers(s, recs[k], ip, Lookup(s, ip).result.payload)
  {
    var recs := BucketRecords(s, sPtr, ePtr);
    var scan := BinarySearch(recs, ip, 0, LastRecord(sPtr, ePtr));
    BucketReached(s, ip, sPtr, ePtr);
    SearchSound(recs, ip, 0, LastRecord(sPtr, ePtr));
    if Lookup(s, ip).result.Region? {
      var k: nat :| k <= LastRecord(sPtr, ePtr) && recs[k].Some? && Covers(recs[k].value, ip)
        && scan.outcome == Hit(recs[k].value.dataLen, recs[k].value.dataPtr);
      assert Answers(s, recs[k], ip, Lookup(s, ip).result.payload);
    }
  }

  /** Completeness: in a sorted bucket, a record that covers the address
      decides the result, which is its payload (null for a null pointer or
      a failed or empty payload read). */
  lemma LookupFinds(s: Store, ip: nat, sPtr: nat, ePtr: nat, k: nat, seg: Segment)
    requires BucketPointers(s, BucketOffset(ip)) == Some((sPtr, ePtr))
    requires Sorted(BucketRecords(s, sPtr, ePtr))
    requires k < |BucketRecords(s, sPtr, ePtr)| && BucketRecords(s, sPtr, ePtr)[k] == Some(seg)
    requires Covers(seg, ip)
    ensures seg.dataPtr == 0 ==> Lookup(s, ip).result == NotFound
    ensures seg.dataPtr != 0 ==> Lookup(s, ip).result == Fetched(ReadAt(s, seg.dataPtr, seg.dataLen))
  {
    var recs := BucketRecords(s, sPtr, ePtr);
    BucketReached(s, ip, sPtr, ePtr);
    SearchComplete(recs, ip, 0, LastRecord(sPtr, ePtr), k);
  }

  /** With every record of a bucket readable and none covering the address,
      the search answers null. */
  lemma LookupMisses(s: Store, ip: nat, sPtr: nat, ePtr: nat)
    requires BucketPointers(s, BucketOffset(ip)) == Some((sPtr, ePtr))
    requires var recs := BucketRecords(s, sPtr, ePtr);
      Readable(recs) && forall k :: 0 <= k < |recs| ==> !Covers(recs[k].value, ip)
    ensures Lookup(s, ip).result == NotFound
  {
    var recs := BucketRecords(s, sPtr, ePtr);
    BucketReached(s, ip, sPtr, ePtr);
    SearchMisses(recs, ip);
  }

  /** A search fails only on a read the file refuses: the bucket entry of a
      file-only searcher, or a record of the bucket. */
  lemma LookupFailsOnlyOnUnreadable(s: Store, ip: nat)
    ensures Lookup(s, ip).result == Failure(VectorIndexUnreadable(BucketOffset(ip))) <==>
      s.FileOnly() && ReadAt(s, HeaderInfoLength + BucketOffset(ip), VectorIndexSize).None?
    ensures Lookup(s, ip).result.Failure? && Lookup(s, ip).result.error.SegmentIndexUnreadable? ==>
      exists sPtr: nat, ePtr: nat, m: nat ::
        && BucketPointers(s, BucketOffset(ip)) == Some((sPtr, ePtr))
        && m < BucketSize(sPtr, ePtr)
        && RecordAt(s, sPtr, m).None?
        && Lookup(s, ip).result.error.p == sPtr + m * SegmentIndexSize
  {
    match BucketPointers(s, BucketOffset(ip))
    case None =>
    case Some((sPtr, ePtr)) =>
      var recs := BucketRecords(s, sPtr, ePtr);
      BucketReached(s, ip, sPtr, ePtr);
      SearchFailsOnUnreadable(recs, ip, 0, LastRecord(sPtr, ePtr));
      var scan := BinarySearch(recs, ip, 0, LastRecord(sPtr, ePtr));
      if scan.outcome.ReadFailed? {
        RecordsOfAt(s, sPtr, BucketSize(sPtr, ePtr), scan.outcome.m);
      }
  }

  /** A search calls `read` at most once for the bucket entry, once per
      halving of the bucket in the loop, and once for the payload. */
  lemma LookupReadsBounded(s: Store, ip: nat, sPtr: nat, ePtr: nat)
    requires BucketPointers(s, BucketOffset(ip)) == Some((sPtr, ePtr))
    ensures Lookup(s, ip).readCalls <= VectorReads(s) + BitLength(BucketSize(sPtr, ePtr)) + 1
  {
    BucketReached(s, ip, sPtr, ePtr);
    SearchProbeBound(BucketRecords(s, sPtr, ePtr), ip, 0, LastRecord(sPtr, ePtr));
  }

  /** In file-only mode a search whose loop stops on a record with a
      non-null pointer reads the bucket entry, `probes` records and the
      payload: `ioCount` ends at probes + 2. */
  lemma FileOnlyReadCount(s: Store, ip: nat, sPtr: nat, ePtr: nat)
    requires s.FileOnly()
    requires BucketPointers(s, BucketOffset(ip)) == Some((sPtr, ePtr))
    ensures var scan := BinarySearch(BucketRecords(s, sPtr, ePtr), ip, 0, LastRecord(sPtr, ePtr));
      scan.outcome.Hit? && scan.outcome.dataPtr != 0 ==> Lookup(s, ip).readCalls == scan.probes + 2
  {
    BucketReached(s, ip, sPtr, ePtr);
  }
}
