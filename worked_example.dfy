/**
 * A worked lookup: an image whose bucket for the octets (1, 2) holds a
 * single record covering exactly 1.2.3.4 (16909060), with the payload
 * "CN|0|ZJ|HZ" right behind the record. Nothing else of the image matters.
 */
module WorkedExample {
  import opened Wrappers
  import opened Codec
  import opened Layout
  import opened ByteSource
  import opened SegmentIndex
  import opened Searcher
  import opened LookupFacts
  import opened Region

  const Addr: nat := 16909060              // 1.2.3.4
  const EntryAt: nat := 2320               // 256 + 1 * 2048 + 2 * 8
  const RecordPos: nat := 2400
  const PayloadAt: nat := 2414

  /** "CN|0|ZJ|HZ" */
  const Payload: seq<bv8> := [0x43, 0x4E, 0x7C, 0x30, 0x7C, 0x5A, 0x4A, 0x7C, 0x48, 0x5A]

  /** The bytes the builder put at those places, little-endian. */
  ghost predicate Laid(file: seq<bv8>)
  {
    && PayloadAt + |Payload| <= |file|
    && file[EntryAt..EntryAt + 8] == [0x60, 0x09, 0, 0, 0x60, 0x09, 0, 0]        // sPtr = ePtr = 2400
    && file[RecordPos..RecordPos + 14] == [0x04, 0x03, 0x02, 0x01, 0x04, 0x03, 0x02, 0x01,   // 1.2.3.4 twice
                                          0x0A, 0, 0x6E, 0x09, 0, 0]                        // 10 bytes at 2414
    && file[PayloadAt..PayloadAt + |Payload|] == Payload
  }

  lemma ExampleBucket(file: seq<bv8>)
    requires Laid(file)
    ensures BucketOffset(Addr) == EntryAt - HeaderInfoLength
    ensures BucketOffset(Addr + 1) == EntryAt - HeaderInfoLength
    ensures BucketPointers(Store(file, [], []), EntryAt - HeaderInfoLength) == Some((RecordPos, RecordPos))
  {
    var buff := file[EntryAt..EntryAt + VectorIndexSize];
    assert buff[0] == 0x60 && buff[1] == 0x09 && buff[2] == 0 && buff[3] == 0;
    assert buff[4] == 0x60 && buff[5] == 0x09 && buff[6] == 0 && buff[7] == 0;
  }

  lemma ExampleRecord(file: seq<bv8>)
    requires Laid(file)
    ensures BucketRecords(Store(file, [], []), RecordPos, RecordPos)
         == [Some(Segment(Addr, Addr, |Payload|, PayloadAt))]
  {
    var buff := file[RecordPos..RecordPos + SegmentIndexSize];
    assert buff[0] == 0x04 && buff[1] == 0x03 && buff[2] == 0x02 && buff[3] == 0x01;
    assert buff[4] == 0x04 && buff[5] == 0x03 && buff[6] == 0x02 && buff[7] == 0x01;
    assert buff[8] == 0x0A && buff[9] == 0 && buff[10] == 0x6E && buff[11] == 0x09;
    assert buff[12] == 0 && buff[13] == 0;
    RecordsOfAt(Store(file, [], []), RecordPos, 1, 0);
  }

  /** A bucket of one record: the search reads it once, and either takes
      its payload (one more read) or answers null. */
  lemma SingleRecordLookup(s: Store, ip: nat, sPtr: nat, seg: Segment)
    requires BucketPointers(s, BucketOffset(ip)) == Some((sPtr, sPtr))
    requires BucketRecords(s, sPtr, sPtr) == [Some(seg)]
    ensures Covers(seg, ip) && seg.dataPtr != 0 ==>
      Lookup(s, ip) == Trace(Fetched(ReadAt(s, seg.dataPtr, seg.dataLen)), VectorReads(s) + 2)
    ensures !Covers(seg, ip) ==> Lookup(s, ip) == Trace(NotFound, VectorReads(s) + 1)
  {
    BucketReached(s, ip, sPtr, sPtr);
    var recs := BucketRecords(s, sPtr, sPtr);
    assert BinarySearch(recs, ip, 0, -1) == Scan(Miss, 0);
    assert BinarySearch(recs, ip, 1, 0) == Scan(Miss, 0);
  }

  /** A file-only searcher finds the payload of 1.2.3.4 with three reads
      (bucket entry, record, payload) and answers null for 1.2.3.5 after
      two. */
  lemma ExampleLookup(file: seq<bv8>)
    requires Laid(file)
    ensures Lookup(Store(file, [], []), Addr) == Trace(Region(Payload), 3)
    ensures Lookup(Store(file, [], []), Addr + 1) == Trace(NotFound, 2)
  {
    var s := Store(file, [], []);
    ExampleBucket(file);
    ExampleRecord(file);
    var seg := Segment(Addr, Addr, |Payload|, PayloadAt);
    SingleRecordLookup(s, Addr, RecordPos, seg);
    SingleRecordLookup(s, Addr + 1, RecordPos, seg);
    assert ReadAt(s, PayloadAt, |Payload|) == Some(Payload);
  }

  /** `format` splits that payload into country "CN", region "0", province
      "ZJ", city "HZ" and an empty isp. */
  lemma ExampleFormat()
    ensures Format(Payload) == RegionInfo([0x43, 0x4E], [0x30], [0x5A, 0x4A], [0x48, 0x5A], [])
  {
    var pieces: seq<seq<bv8>> := [[0x43, 0x4E], [0x30], [0x5A, 0x4A], [0x48, 0x5A]];
    assert Payload == Join(pieces);
    ExplodeJoin(pieces);
  }
}
