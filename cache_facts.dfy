/**
 * The three ways of constructing a searcher over the same xdb image
 * (file only, file with a cached vector index, whole image in a content
 * buffer) answer alike: caching only saves file operations.
 */
module CacheFacts {
  import opened Wrappers
  import opened Codec
  import opened FileImage
  import opened Layout
  import opened ByteSource
  import opened SegmentIndex
  import opened Searcher
  import opened LookupFacts

  /** Two unbuffered stores over the same file read the same records. */
  lemma {:induction false} RecordsOfSameFile(s: Store, t: Store, sPtr: nat, count: nat)
    requires !s.Buffered() && !t.Buffered() && s.file == t.file
    ensures RecordsOf(s, sPtr, count) == RecordsOf(t, sPtr, count)
  {
    if count > 0 {
      RecordsOfSameFile(s, t, sPtr, count - 1);
      assert ReadAt(s, sPtr + (count - 1) * SegmentIndexSize, SegmentIndexSize)
          == ReadAt(t, sPtr + (count - 1) * SegmentIndexSize, SegmentIndexSize);
    }
  }

  /** The bytes of the bucket entry at `idx`, read from the file, are those
      of a vector index that holds the file's block at offset 256. */
  lemma EntryFromVectorIndex(file: seq<bv8>, vi: seq<bv8>, idx: nat)
    requires idx + VectorIndexSize <= VectorIndexLength <= |vi|
    requires HeaderInfoLength + VectorIndexLength <= |file|
    requires vi[..VectorIndexLength] == file[HeaderInfoLength..HeaderInfoLength + VectorIndexLength]
    ensures GetLong(vi, idx) == GetLong(file[HeaderInfoLength + idx..HeaderInfoLength + idx + VectorIndexSize], 0)
    ensures GetLong(vi, idx + 4) == GetLong(file[HeaderInfoLength + idx..HeaderInfoLength + idx + VectorIndexSize], 4)
  {
    var buff := file[HeaderInfoLength + idx..HeaderInfoLength + idx + VectorIndexSize];
    forall j | 0 <= j < VectorIndexSize
      ensures vi[idx + j] == buff[j]
    {
      assert vi[idx + j] == vi[..VectorIndexLength][idx + j];
    }
    GetLongSlice(vi, idx, buff, 0);
    GetLongSlice(vi, idx + 4, buff, 4);
  }

  /** The cached vector index gives the bucket entry the file gives. */
  lemma CachedEntry(file: seq<bv8>, vi: seq<bv8>, idx: nat)
    requires idx + VectorIndexSize <= VectorIndexLength <= |vi|
    requires HeaderInfoLength + VectorIndexLength <= |file|
    requires vi[..VectorIndexLength] == file[HeaderInfoLength..HeaderInfoLength + VectorIndexLength]
    ensures BucketPointers(Store(file, vi, []), idx) == BucketPointers(Store(file, [], []), idx)
  {
    EntryFromVectorIndex(file, vi, idx);
  }

  /** Once the loop has ended, two unbuffered stores over the same file
      conclude alike, apart from the `read` calls made before the loop. */
  lemma ConcludeSameFile(s: Store, t: Store, sPtr: nat, scan: Scan, before: nat, tBefore: nat)
    requires !s.Buffered() && !t.Buffered() && s.file == t.file
    ensures Conclude(s, sPtr, scan, before).result == Conclude(t, sPtr, scan, tBefore).result
    ensures Conclude(s, sPtr, scan, before).readCalls + tBefore == Conclude(t, sPtr, scan, tBefore).readCalls + before
  {
    if scan.outcome.Hit? {
      assert ReadAt(s, scan.outcome.dataPtr, scan.outcome.dataLen) == ReadAt(t, scan.outcome.dataPtr, scan.outcome.dataLen);
    }
  }

  /** A cached vector index that holds the image's vector index changes no
      answer and saves exactly the one `read` of the bucket entry. */
  lemma VectorCacheTransparent(file: seq<bv8>, vi: seq<bv8>, ip: nat)
    requires HeaderInfoLength + VectorIndexLength <= |file| && VectorIndexLength <= |vi|
    requires vi[..VectorIndexLength] == file[HeaderInfoLength..HeaderInfoLength + VectorIndexLength]
    ensures Lookup(Store(file, vi, []), ip).result == Lookup(Store(file, [], []), ip).result
    ensures Lookup(Store(file, vi, []), ip).readCalls + 1 == Lookup(Store(file, [], []), ip).readCalls
  {
    var cached, plain := Store(file, vi, []), Store(file, [], []);
    var idx := BucketOffset(ip);
    CachedEntry(file, vi, idx);
    var (sPtr, ePtr) := BucketPointers(cached, idx).value;
    BucketReached(cached, ip, sPtr, ePtr);
    BucketReached(plain, ip, sPtr, ePtr);
    RecordsOfSameFile(cached, plain, sPtr, BucketSize(sPtr, ePtr));
    var scan := BinarySearch(BucketRecords(plain, sPtr, ePtr), ip, 0, LastRecord(sPtr, ePtr));
    ConcludeSameFile(cached, plain, sPtr, scan, 0, 1);
  }

  /** So does the vector index that the corrected `loadVectorIndex` loads,
      and the longer block that the loader as written loads. */
  lemma LoadedVectorIndexTransparent(file: seq<bv8>, ip: nat)
    ensures LoadVectorIndex(file).Some? ==>
      Lookup(Store(file, LoadVectorIndex(file).value, []), ip).result == Lookup(Store(file, [], []), ip).result
    ensures LoadVectorIndexAsWritten(file).Some? ==>
      Lookup(Store(file, LoadVectorIndexAsWritten(file).value, []), ip).result == Lookup(Store(file, [], []), ip).result
  {
    if LoadVectorIndex(file).Some? {
      var vi := LoadVectorIndex(file).value;
      assert vi[..VectorIndexLength] == vi;
      VectorCacheTransparent(file, vi, ip);
    }
    if LoadVectorIndexAsWritten(file).Some? {
      AsWrittenLoadHoldsVectorIndex(file);
      VectorCacheTransparent(file, LoadVectorIndexAsWritten(file).value, ip);
    }
  }

  /** Where the file serves a read, the content buffer of the same image
      serves the same bytes. */
  lemma BufferServesFileReads(file: seq<bv8>, offset: nat, len: nat)
    requires ReadAt(Store(file, [], []), offset, len).Some?
    ensures ReadAt(Store([], [], file), offset, len) == ReadAt(Store(file, [], []), offset, len)
  {
  }

  /** Where the file gives the bucket entry, the content buffer of the
      same image gives the same one. */
  lemma BufferedEntry(file: seq<bv8>, idx: nat)
    requires BucketPointers(Store(file, [], []), idx).Some?
    ensures BucketPointers(Store([], [], file), idx) == BucketPointers(Store(file, [], []), idx)
  {
    BufferServesFileReads(file, HeaderInfoLength + idx, VectorIndexSize);
    var buff := ReadAt(Store(file, [], []), HeaderInfoLength + idx, VectorIndexSize).value;
    assert forall j :: 0 <= j < VectorIndexSize ==> ByteAt(buff, j) == ByteAt(file, HeaderInfoLength + idx + j);
  }

  /** A loop over the file's records that reads them all without a refusal
      runs alike over the content buffer's records. */
  lemma BufferedScan(file: seq<bv8>, sPtr: nat, ePtr: nat, ip: nat)
    ensures var plain := BinarySearch(BucketRecords(Store(file, [], []), sPtr, ePtr), ip, 0, LastRecord(sPtr, ePtr));
      !plain.outcome.ReadFailed? ==>
        BinarySearch(BucketRecords(Store([], [], file), sPtr, ePtr), ip, 0, LastRecord(sPtr, ePtr)) == plain
  {
    var plain, buffered := Store(file, [], []), Store([], [], file);
    var n, h := BucketSize(sPtr, ePtr), LastRecord(sPtr, ePtr);
    var recs, other := RecordsOf(plain, sPtr, n), RecordsOf(buffered, sPtr, n);
    forall m | 0 <= m <= h && recs[m].Some?
      ensures other[m] == recs[m]
    {
      RecordsOfAt(plain, sPtr, n, m);
      RecordsOfAt(buffered, sPtr, n, m);
      BufferServesFileReads(file, sPtr + m * SegmentIndexSize, SegmentIndexSize);
    }
    SearchAgreesWhereReadable(recs, other, ip, 0, h);
  }

  /** A payload the file gives is the one the content buffer gives. */
  lemma BufferedConclusion(file: seq<bv8>, sPtr: nat, scan: Scan, before: nat, bufBefore: nat)
    requires Conclude(Store(file, [], []), sPtr, scan, before).result.Region?
    ensures Conclude(Store([], [], file), sPtr, scan, bufBefore).result == Conclude(Store(file, [], []), sPtr, scan, before).result
  {
    BufferServesFileReads(file, scan.outcome.dataPtr, scan.outcome.dataLen);
  }

  /** Holding the whole image in the content buffer gives the same payload
      wherever the file-only searcher finds one. (Where it does not, the
      buffer may do better: its reads are never refused as short.) */
  lemma BufferTransparent(file: seq<bv8>, ip: nat)
    ensures Lookup(Store(file, [], []), ip).result.Region? ==>
      Lookup(Store([], [], file), ip).result == Lookup(Store(file, [], []), ip).result
  {
    var plain, buffered := Store(file, [], []), Store([], [], file);
    var idx := BucketOffset(ip);
    if Lookup(plain, ip).result.Region? {
      BufferedEntry(file, idx);
      var (sPtr, ePtr) := BucketPointers(plain, idx).value;
      BucketReached(plain, ip, sPtr, ePtr);
      BucketReached(buffered, ip, sPtr, ePtr);
      BufferedScan(file, sPtr, ePtr, ip);
      var scan := BinarySearch(BucketRecords(plain, sPtr, ePtr), ip, 0, LastRecord(sPtr, ePtr));
      BufferedConclusion(file, sPtr, scan, 1, 0);
    }
  }

  /** Where the two modes part. A record that starts inside the image but
      runs past its end is refused by the file, which then throws, and read
      zero-filled from the buffer. */
  lemma TruncatedRecordDiffers(file: seq<bv8>, sPtr: nat, m: nat)
    requires sPtr + m * SegmentIndexSize < |file| < sPtr + m * SegmentIndexSize + SegmentIndexSize
    ensures RecordAt(Store(file, [], []), sPtr, m).None?
    ensures RecordAt(Store([], [], file), sPtr, m).Some?
  {
  }

  /** A record that starts past the end of the image is refused in both
      modes: the buffer's `substr` gives "", which the loose null test
      rejects. */
  lemma RecordPastEndRefused(file: seq<bv8>, sPtr: nat, m: nat)
    requires |file| <= sPtr + m * SegmentIndexSize
    ensures RecordAt(Store(file, [], []), sPtr, m).None?
    ensures RecordAt(Store([], [], file), sPtr, m).None?
  {
  }

  /** A bucket entry past the end of a non-empty image: the file-only
      search throws, while the buffer decodes the entry (as zeros) and
      goes on searching. */
  lemma EntryPastEndDiffers(file: seq<bv8>, ip: nat)
    requires 0 < |file| < HeaderInfoLength + BucketOffset(ip) + VectorIndexSize
    ensures Lookup(Store(file, [], []), ip).result == Failure(VectorIndexUnreadable(BucketOffset(ip)))
    ensures BucketPointers(Store([], [], file), BucketOffset(ip)).Some?
  {
  }
}
