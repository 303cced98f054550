/**
 * The fixed layout of an xdb image: the 256-byte header, the 256 x 256
 * vector index of 8-byte bucket entries that follows it, and the 14-byte
 * segment index records; with the header and vector-index loaders.
 */
module Layout {
  import opened Wrappers
  import opened Codec
  import opened FileImage

  const HeaderInfoLength: nat := 256
  const VectorIndexRows: nat := 256
  const VectorIndexCols: nat := 256
  const VectorIndexSize: nat := 8
  const SegmentIndexSize: nat := 14
  /** Byte length of the whole vector index (524,288). */
  const VectorIndexLength: nat := VectorIndexRows * VectorIndexCols * VectorIndexSize

  /** Offset of an address's bucket entry inside the vector index:
      row = first octet `(ip >> 24) & 0xFF`, column = second octet
      `(ip >> 16) & 0xFF`. The entry is 8-aligned and lies wholly inside the
      index, and for a 32-bit address it is the address's top 16 bits
      times 8, so two addresses share a bucket exactly when their first two
      octets agree. */
  function BucketOffset(ip: nat): (idx: nat)
    ensures idx % VectorIndexSize == 0
    ensures idx + VectorIndexSize <= VectorIndexLength
    ensures ip < 0x1_0000_0000 ==> idx == ip / 0x1_0000 * VectorIndexSize
  {
    var il0 := ip / 0x100_0000 % 0x100;
    var il1 := ip / 0x1_0000 % 0x100;
    assert ip / 0x100_0000 == ip / 0x1_0000 / 0x100;
    assert ip / 0x1_0000 == il1 + 0x100 * (ip / 0x100_0000);
    il0 * VectorIndexCols * VectorIndexSize + il1 * VectorIndexSize
  }

  /** The decoded header: the five fields in front of the reserved bytes. */
  datatype Header = Header(version: nat, indexPolicy: nat, createdAt: nat, startIndexPtr: nat, endIndexPtr: nat)

  /** `loadHeader`: read 256 bytes at offset 0; anything shorter is refused;
      otherwise decode the fields at offsets 0, 2, 4, 8 and 12. */
  function LoadHeader(file: seq<bv8>): (h: Option<Header>)
    ensures h.Some? <==> HeaderInfoLength <= |file|
    ensures h.Some? ==> h.value == Header(GetShort(file, 0), GetShort(file, 2), GetLong(file, 4),
                                           GetLong(file, 8), GetLong(file, 12))
  {
    match Fread(file, 0, HeaderInfoLength)
    case None => None
    case Some(buff) =>
      if |buff| != HeaderInfoLength then None
      else
        assert forall j :: 0 <= j < 16 ==> ByteAt(buff, j) == ByteAt(file, j);
        Some(Header(GetShort(buff, 0), GetShort(buff, 2), GetLong(buff, 4), GetLong(buff, 8), GetLong(buff, 12)))
  }

  lemma LongAt(f: seq<bv8>, k: nat, x: bv32)
    requires k + 4 <= |f| && f[k..k + 4] == EncodeLong(x)
    ensures GetLong(f, k) == x as int
  {
    assert f == f[..k] + EncodeLong(x) + f[k + 4..];
    LongRoundTrip(f[..k], x, f[k + 4..]);
  }

  lemma ShortAt(f: seq<bv8>, k: nat, x: bv16)
    requires k + 2 <= |f| && f[k..k + 2] == EncodeShort(x)
    ensures GetShort(f, k) == x as int
  {
    assert f == f[..k] + EncodeShort(x) + f[k + 2..];
    ShortRoundTrip(f[..k], x, f[k + 2..]);
  }

  /** The builder's side: a header block with the five fields in place and
      the reserved bytes zero. */
  function EncodeHeader(version: bv16, indexPolicy: bv16, createdAt: bv32, startIndexPtr: bv32, endIndexPtr: bv32): (b: seq<bv8>)
    ensures |b| == HeaderInfoLength
  {
    EncodeShort(version) + EncodeShort(indexPolicy) + EncodeLong(createdAt)
      + EncodeLong(startIndexPtr) + EncodeLong(endIndexPtr) + seq(HeaderInfoLength - 16, _ => 0)
  }

  /** Loading a header written by the builder gives back its fields, whatever
      follows the header. */
  lemma HeaderRoundTrip(version: bv16, indexPolicy: bv16, createdAt: bv32, startIndexPtr: bv32,
                        endIndexPtr: bv32, rest: seq<bv8>)
    ensures LoadHeader(EncodeHeader(version, indexPolicy, createdAt, startIndexPtr, endIndexPtr) + rest)
         == Some(Header(version as int, indexPolicy as int, createdAt as int, startIndexPtr as int, endIndexPtr as int))
  {
    var f := EncodeHeader(version, indexPolicy, createdAt, startIndexPtr, endIndexPtr) + rest;
    var fields := EncodeShort(version) + EncodeShort(indexPolicy) + EncodeLong(createdAt)
                  + EncodeLong(startIndexPtr) + EncodeLong(endIndexPtr);
    assert f[..16] == fields;
    assert f[0..2] == fields[0..2] == EncodeShort(version);
    assert f[2..4] == fields[2..4] == EncodeShort(indexPolicy);
    assert f[4..8] == fields[4..8] == EncodeLong(createdAt);
    assert f[8..12] == fields[8..12] == EncodeLong(startIndexPtr);
    assert f[12..16] == fields[12..16] == EncodeLong(endIndexPtr);
    ShortAt(f, 0, version);
    ShortAt(f, 2, indexPolicy);
    LongAt(f, 4, createdAt);
    LongAt(f, 8, startIndexPtr);
    LongAt(f, 12, endIndexPtr);
  }

  /** `loadVectorIndex` as the code has it: the block length is computed with
      the segment record size (14) instead of the vector entry size (8), so
      it asks for 917,504 bytes at offset 256. */
  function LoadVectorIndexAsWritten(file: seq<bv8>): (vi: Option<seq<bv8>>)
    ensures vi.Some? <==> HeaderInfoLength + VectorIndexRows * VectorIndexCols * SegmentIndexSize <= |file|
    ensures vi.Some? ==> vi.value == file[HeaderInfoLength..HeaderInfoLength + VectorIndexRows * VectorIndexCols * SegmentIndexSize]
  {
    ReadExact(file, HeaderInfoLength, VectorIndexRows * VectorIndexCols * SegmentIndexSize)
  }

  /** `loadVectorIndex` with the evidently intended block length: exactly the
      vector index, available whenever the image holds it. */
  function LoadVectorIndex(file: seq<bv8>): (vi: Option<seq<bv8>>)
    ensures vi.Some? <==> HeaderInfoLength + VectorIndexLength <= |file|
    ensures vi.Some? ==> vi.value == file[HeaderInfoLength..HeaderInfoLength + VectorIndexLength]
  {
    ReadExact(file, HeaderInfoLength, VectorIndexLength)
  }

  /** The discrepancy: an image that holds a complete header and vector index
      but is shorter than 256 + 917,504 bytes (here one with no segment data
      at all) is refused by the code as written and accepted by the
      corrected loader. When the code as written does load, its block starts
      with the whole vector index. */
  lemma VectorIndexOverRead(file: seq<bv8>)
    requires HeaderInfoLength + VectorIndexLength <= |file|
    requires |file| < HeaderInfoLength + VectorIndexRows * VectorIndexCols * SegmentIndexSize
    ensures LoadVectorIndexAsWritten(file) == None
    ensures LoadVectorIndex(file) == Some(file[HeaderInfoLength..HeaderInfoLength + VectorIndexLength])
  {
  }

  lemma AsWrittenLoadHoldsVectorIndex(file: seq<bv8>)
    requires LoadVectorIndexAsWritten(file).Some?
    ensures LoadVectorIndex(file) == Some(LoadVectorIndexAsWritten(file).value[..VectorIndexLength])
  {
    var block := LoadVectorIndexAsWritten(file).value;
    assert block[..VectorIndexLength] == file[HeaderInfoLength..HeaderInfoLength + VectorIndexLength];
  }
}
