# ip2region xdb searcher — a Dafny model

This project models the lookup engine of `IpXdbSearcher` (src/IpXdbSearcher.php),
which maps an IPv4 address, taken as a 32-bit number, to the region payload
stored in an immutable binary "xdb" image, and proves properties of it:

- **Layout.** The image holds a 256-byte header, then a 256 × 256 vector index
  of 8-byte bucket entries `(sPtr, ePtr)`, then 14-byte segment records
  `startIP, endIP: u32, dataLen: u16, dataPtr: u32` with their payloads.
- **Searcher modes.** A searcher reads the image in one of three ways:
  - from the file only;
  - from the file, with the vector index cached;
  - from a content buffer that holds the whole image.
- **`ioCount`.** The searcher counts the file operations of its latest search
  in `ioCount`.
- **`search`.** It resets `ioCount`, takes the bucket entry of the address's
  first two octets, binary-searches that bucket's records, and reads the
  payload of the record that covers the address.
- **`format`.** It splits a payload on `|` into country, region, province,
  city and isp.

Modules, in dependency order:

| file | module | what it holds |
|---|---|---|
| wrappers.dfy | `Wrappers` | `Option` |
| codec.dfy | `Codec` | `getLong`/`getShort` and the builder's encoders |
| file_image.dfy | `FileImage` | PHP `substr`, `fread` and the exact-length read |
| layout.dfy | `Layout` | format constants, bucket offset, `loadHeader`, `loadVectorIndex` |
| byte_source.dfy | `ByteSource` | what `read` returns in each mode, and what it costs |
| segment_index.dfy | `SegmentIndex` | records and the binary search over one bucket |
| searcher.dfy | `Searcher` | the `XdbSearcher` class and `Lookup`, the function its `Search` is proved to compute |
| lookup_facts.dfy | `LookupFacts` | soundness, completeness, failures and read counts of a search |
| cache_facts.dfy | `CacheFacts` | the three modes give the same answers |
| region.dfy | `Region` | `explode`, its inverse `implode`, and `format` |
| worked_example.dfy | `WorkedExample` | one image with one bucket, looked up and formatted |

Modelling choices that follow the PHP code:

- **Bytes.** A string is a `seq<bv8>`.
- **Out-of-range offsets.** A string offset past the end reads as byte 0:
  PHP gives `""` with a warning, and `ord("")` is 0. So `getLong` and
  `getShort` are total.
- **Loose null tests.** An empty content buffer or vector index counts as
  absent, because the code tests them with `!= null`.
- **`dataPtr` of 0.** A record pointer of 0 means "not found", because
  `$dataPtr == null` is a loose comparison.
- **Empty payloads.** A payload read that gives `""` also means "not found".
- **The bucket bound.** `($ePtr - $sPtr) / 14` is modelled as floor
  division, with no precondition that the difference is a multiple of 14.
  - PHP's `/` gives a float when the division is inexact.
  - The loop compares that float with the integer `$l`, and `>> 1`
    truncates `$l + $h`.
  - So the loop behaves exactly as with the floor.
  - When `$ePtr < $sPtr` the bound is negative and the loop does not run.
- **The file.** An open file is modelled as its contents.
  - A seek to a non-negative offset of a regular file always succeeds.
  - `fread` returns what is left of the requested range.
  - The `strlen` check turns a short read into a failure.

## Model

| member | source | states |
|---|---|---|
| Codec.ByteAt | src/IpXdbSearcher.php:276-277 | a byte inside the string is that byte; an offset past the end reads as 0 |
| Codec.GetLong | src/IpXdbSearcher.php:274-285 | the OR of the four shifted bytes is the unsigned little-endian value b[i] + 256 b[i+1] + 65536 b[i+2] + 16777216 b[i+3], below 2^32 |
| Codec.GetShort | src/IpXdbSearcher.php:288-291 | the OR of the two shifted bytes is b[i] + 256 b[i+1], below 65536 |
| Codec.LongRoundTrip | src/IpXdbSearcher.php:274-277 | decoding a 32-bit value written little-endian at any offset gives it back |
| Codec.ShortRoundTrip | src/IpXdbSearcher.php:288-291 | decoding a 16-bit value written little-endian at any offset gives it back |
| Codec.GetLongSlice | src/IpXdbSearcher.php:274-277 | a decoded value depends only on the four bytes it covers |
| FileImage.Substr | src/IpXdbSearcher.php:211-213 | `substr` gives the requested bytes, cut short at the end of the string, and "" from past the end |
| FileImage.Fread | src/IpXdbSearcher.php:222-225 | `fread` fails exactly for a zero length, and never returns more than asked |
| FileImage.ReadExact | src/IpXdbSearcher.php:216-231 | a file read succeeds exactly when 0 < len and offset + len fits the file, and then gives exactly those bytes |
| Layout.BucketOffset | src/IpXdbSearcher.php:139-141 | the entry offset is 8-aligned, the 8-byte entry lies inside the 524,288-byte vector index, and for a 32-bit address it is the top 16 bits times 8 |
| Layout.LoadHeader | src/IpXdbSearcher.php:294-318 | the header loads exactly when the image holds 256 bytes, and then has the 16/16/32/32/32-bit fields at offsets 0, 2, 4, 8 and 12 |
| Layout.HeaderRoundTrip | src/IpXdbSearcher.php:310-317 | loading a header the builder wrote gives back its five fields, whatever follows it |
| Layout.LoadVectorIndexAsWritten | src/IpXdbSearcher.php:334-351 | the loader as written succeeds exactly when 256 + 917,504 bytes are present, and returns that block |
| Layout.LoadVectorIndex | src/IpXdbSearcher.php:334-351 | the corrected loader succeeds exactly when the image holds the 524,288-byte vector index, and returns it |
| Layout.VectorIndexOverRead | src/IpXdbSearcher.php:340-348 | an image with a complete vector index but fewer than 917,760 bytes is refused as written and loaded when corrected |
| Layout.AsWrittenLoadHoldsVectorIndex | src/IpXdbSearcher.php:340-350 | whenever the loader as written succeeds, its block begins with the vector index the corrected loader returns |
| ByteSource.ReadAt | src/IpXdbSearcher.php:208-232 | a buffered read always succeeds, is at most len bytes, and is the exact slice when in range; a file read succeeds exactly when the range is non-empty and inside the file, and is the slice |
| SegmentIndex.Decode | src/IpXdbSearcher.php:176-185 | a record holds `startIP`, `endIP` and `dataPtr` as unsigned 32-bit values at offsets 0, 4 and 10 and `dataLen` as a 16-bit value at offset 8; all four are in range |
| SegmentIndex.DecodeRoundTrip | src/IpXdbSearcher.php:176-185 | decoding a record the builder wrote gives back its four fields, whatever follows it |
| SegmentIndex.RecordAt | src/IpXdbSearcher.php:168-174 | record m is read at sPtr + 14 m and refused when the read gives null or "": from the file exactly when the 14 bytes do not all fit, from the buffer exactly when it starts past the end |
| SegmentIndex.RecordsOfAt | src/IpXdbSearcher.php:167-171 | entry m of a bucket's record list is the record read at sPtr + 14 m |
| SegmentIndex.BinarySearch | src/IpXdbSearcher.php:164-189 | an empty range ends with no match and no reads; a non-empty one reads at least one record |
| SegmentIndex.SearchSound | src/IpXdbSearcher.php:166-189 | a match is a record of the range that covers the address, and its length and pointer are returned |
| SegmentIndex.SearchFailsOnUnreadable | src/IpXdbSearcher.php:170-174 | the loop fails only on a record of the range that cannot be read |
| SegmentIndex.SearchComplete | src/IpXdbSearcher.php:164-189 | in a sorted, non-overlapping bucket the loop stops on the record that covers the address |
| SegmentIndex.SearchMisses | src/IpXdbSearcher.php:164-189 | with every record readable and none covering the address, the loop exhausts the range |
| SegmentIndex.SearchProbeBound | src/IpXdbSearcher.php:165-167 | the loop reads at most BitLength(n) records of an n-record range |
| SegmentIndex.SearchDependsOnRange | src/IpXdbSearcher.php:166-171 | the loop only looks at records inside l..h |
| SegmentIndex.SearchAgreesWhereReadable | src/IpXdbSearcher.php:166-189 | a loop that meets no unreadable record runs alike over any records that agree on its readable ones |
| Searcher.BucketPointers | src/IpXdbSearcher.php:142-157 | the bucket entry is two values below 2^32, and is missing exactly for a file-only searcher whose 8-byte read fails |
| Searcher.ValidBufferedEntry | src/IpXdbSearcher.php:87-89 | a searcher built with a content buffer, which drops the vector index, takes every bucket entry from that buffer at 256 + idx |
| Searcher.LastRecord | src/IpXdbSearcher.php:165 | `($ePtr - $sPtr) / 14` as the loop uses it: the floor of the quotient, negative when the bucket is empty |
| Searcher.BucketSize | src/IpXdbSearcher.php:165-166 | the records the loop may probe are exactly those that start inside sPtr..ePtr; there are none when ePtr < sPtr |
| Searcher.Conclude | src/IpXdbSearcher.php:191-204 | after the loop, the search throws exactly when a record could not be read, returns a payload only for a match with a non-null pointer, and makes at most one more read |
| Searcher.Lookup | src/IpXdbSearcher.php:124-205 | the whole of `search` as a function of the byte source, giving its result and its number of `read` calls; `XdbSearcher.Search` is proved to compute it. The bucket exception comes only from a file-only searcher, after its single read |
| Searcher.Fetched | src/IpXdbSearcher.php:199-204 | the payload is returned exactly when its read succeeds and is non-empty; otherwise null, never an exception |
| Searcher.XdbSearcher.constructor | src/IpXdbSearcher.php:84-105 | a non-empty content buffer wins and drops the vector index; otherwise the file and the vector index are kept; never both buffers |
| Searcher.XdbSearcher.GetIoCount | src/IpXdbSearcher.php:114-117 | returns the counter |
| Searcher.XdbSearcher.Read | src/IpXdbSearcher.php:208-232 | returns what `ReadAt` gives; a file read adds 1 to `ioCount`, a buffered read adds nothing |
| Searcher.XdbSearcher.FetchBucket | src/IpXdbSearcher.php:142-157 | returns the bucket entry `BucketPointers` gives, at the cost of one file read only in file-only mode |
| Searcher.XdbSearcher.ReadSegment | src/IpXdbSearcher.php:168-185 | record m comes from one read at sPtr + 14 m and is the bucket's record m, nothing when unreadable |
| Searcher.XdbSearcher.ScanBucket | src/IpXdbSearcher.php:162-189 | the loop ends as the binary search over the bucket's records ends, with one file read per record probed |
| Searcher.XdbSearcher.Finish | src/IpXdbSearcher.php:191-204 | after the loop: an exception for an unreadable record, null for no match or a null pointer or an empty payload, otherwise the payload; one more read only for a payload fetch |
| Searcher.XdbSearcher.Search | src/IpXdbSearcher.php:124-205 | returns `Lookup`'s result, leaves `ioCount` at `Lookup`'s read count in the file modes, and at 0 with a content buffer |
| LookupFacts.LookupSound | src/IpXdbSearcher.php:166-204 | a returned payload is the non-empty bytes at the pointer of a bucket record that covers the address |
| LookupFacts.LookupFinds | src/IpXdbSearcher.php:164-204 | in a sorted bucket, the record covering the address decides the result: null for a null pointer, otherwise its payload read |
| LookupFacts.LookupMisses | src/IpXdbSearcher.php:162-196 | with all records readable and none covering the address, the search returns null |
| LookupFacts.LookupFailsOnlyOnUnreadable | src/IpXdbSearcher.php:148-174 | the bucket exception is thrown exactly when a file-only bucket read fails; the record exception names the offset sPtr + 14 m of a record that cannot be read |
| LookupFacts.LookupReadsBounded | src/IpXdbSearcher.php:136-199 | a search reads at most once for the bucket entry, BitLength(bucket size) times in the loop and once for the payload |
| LookupFacts.FileOnlyReadCount | src/IpXdbSearcher.php:136-199 | file-only, a match with a non-null pointer after k probes leaves k + 2 reads |
| CacheFacts.RecordsOfSameFile | src/IpXdbSearcher.php:215-231 | two unbuffered searchers over one file read the same records |
| CacheFacts.EntryFromVectorIndex | src/IpXdbSearcher.php:142-156 | a vector index equal to the image's block at 256 decodes the bucket entry the 8-byte file read decodes |
| CacheFacts.CachedEntry | src/IpXdbSearcher.php:142-157 | with such a cached vector index the bucket entry is the file's |
| CacheFacts.ConcludeSameFile | src/IpXdbSearcher.php:191-204 | after the loop, unbuffered searchers over one file finish alike |
| CacheFacts.VectorCacheTransparent | src/IpXdbSearcher.php:142-157 | caching the vector index changes no result and saves exactly one read per search |
| CacheFacts.LoadedVectorIndexTransparent | src/IpXdbSearcher.php:334-351 | the vector index from either loader changes no result |
| CacheFacts.BufferServesFileReads | src/IpXdbSearcher.php:211-231 | where the file serves a read, a buffer holding the same image gives the same bytes |
| CacheFacts.BufferedEntry | src/IpXdbSearcher.php:145-156 | where the file gives the bucket entry, the content buffer gives the same one |
| CacheFacts.BufferedScan | src/IpXdbSearcher.php:166-189 | a loop without a failed read runs alike over the buffer's records |
| CacheFacts.BufferedConclusion | src/IpXdbSearcher.php:199-204 | a payload the file gives, the buffer gives too |
| CacheFacts.BufferTransparent | src/IpXdbSearcher.php:208-213 | a payload found in file-only mode is found identically with the whole image in the content buffer |
| CacheFacts.TruncatedRecordDiffers | src/IpXdbSearcher.php:171-174 | a record that runs past the end of the image is refused by the file and read zero-filled from the buffer |
| CacheFacts.RecordPastEndRefused | src/IpXdbSearcher.php:171-174 | a record that starts past the end of the image is refused in both modes |
| CacheFacts.EntryPastEndDiffers | src/IpXdbSearcher.php:145-153 | a bucket entry past the end of the image makes the file-only search throw, while the buffer decodes it |
| Region.Explode | src/IpXdbSearcher.php:242 | `explode` gives one piece more than there are pipes, none holding a pipe |
| Region.JoinExplode | src/IpXdbSearcher.php:242 | joining the pieces with pipes gives back the payload |
| Region.ExplodeJoin | src/IpXdbSearcher.php:242 | splitting pipe-joined pipe-free pieces gives back the pieces |
| Region.Format | src/IpXdbSearcher.php:240-251 | field k is piece k, or "" when there are fewer than k + 1 pieces; no field holds a pipe |
| Region.FormatRoundTrip | src/IpXdbSearcher.php:240-251 | formatting the pipe-joined five fields of a record gives back that record |
| Region.FormatKeepsAll | src/IpXdbSearcher.php:242-250 | with at most five pieces the present fields join back into the payload and the others are "" |
| Region.FormatDropsRest | src/IpXdbSearcher.php:242-250 | with more pieces, the five fields are the payload up to its fifth pipe |
| WorkedExample.ExampleBucket | src/IpXdbSearcher.php:139-157 | 1.2.3.4 and 1.2.3.5 share the bucket at offset 2064, whose entry decodes as (2400, 2400) |
| WorkedExample.ExampleRecord | src/IpXdbSearcher.php:168-185 | that one-record bucket decodes to the record 1.2.3.4..1.2.3.4, 10 bytes at 2414 |
| WorkedExample.SingleRecordLookup | src/IpXdbSearcher.php:162-204 | in a one-record bucket, a covered address costs one record read and its payload read; any other address gives null after one read |
| WorkedExample.ExampleLookup | src/IpXdbSearcher.php:124-205 | file-only, 1.2.3.4 gives the 10-byte payload CN, 0, ZJ, HZ joined by pipes, with `ioCount` 3, and 1.2.3.5 gives null with `ioCount` 2 |
| WorkedExample.ExampleFormat | src/IpXdbSearcher.php:240-251 | that payload formats as CN, 0, ZJ, HZ and an empty isp |

## Left out

- `ip2long` and string addresses (src/IpXdbSearcher.php:127-133, 258-271): PHP's built-in address parser is not part of this model. A search takes the address as a natural number.
- The `sprintf("%u")` branches for 32-bit platforms (src/IpXdbSearcher.php:266-268, 280-282). Integers are unbounded, which matches the 64-bit behaviour.
- The singleton `getInstance`: process-wide lifecycle, with no effect on a lookup.
- `now()`: clock and floating point.
- Real I/O is left out: `fopen` and its failure in the constructor, `close`, `loadHeaderFromFile`, `loadVectorIndexFromFile`, `loadContent` and `loadContentFromFile`. The constructor takes the opened file's contents. The loaders' length checks are the ones `ReadExact` models.
- A failing `fseek`: seeking a regular file to a non-negative offset does not fail.
- The shared file cursor and concurrent searches on one searcher: the model is sequential.
- `fread` with length 0: PHP 7 returns false and PHP 8 throws a ValueError. Both are modelled as a failed read. For a record with `dataLen` 0 the search then returns null; under PHP 8 it would throw.
- Searcher.XdbSearcher.ReadSegment decodes all four record fields as soon as the record is read. The code decodes `endIP`, `dataLen` and `dataPtr` only when it needs them. Decoding cannot fail, so nothing observable changes.
- Region.Format is a module-level function rather than a method of the class, because `format` reads no state of the searcher.
- CacheFacts.BufferTransparent covers only searches that find a payload in file-only mode. On an image whose pointers run past its end, the two modes differ in two places. A record that starts inside the image but runs past its end is refused by the file, so the search throws; the buffer reads it zero-filled and goes on (CacheFacts.TruncatedRecordDiffers). A bucket entry past the end of the image makes the file-only search throw, while the buffer decodes it as zeros (CacheFacts.EntryPastEndDiffers). A record that starts past the end is refused in both modes (CacheFacts.RecordPastEndRefused).
- Two behaviours of the code are kept as written:
  - a failed payload read returns null rather than throwing (src/IpXdbSearcher.php:199-202);
  - `loadVectorIndex` reads 917,504 bytes (see Findings).

## Findings

| source | as written | input that shows it | evidently intended | confidence | as-written member | corrected member |
|---|---|---|---|---|---|---|
| src/IpXdbSearcher.php:340 | `loadVectorIndex` sizes its read as 256 × 256 × `SegmentIndexSize` (14) = 917,504 bytes and refuses anything shorter | an image holding a complete header and vector index, 256 + 524,288 bytes or more but fewer than 256 + 917,504, e.g. one with no segment data | 256 × 256 × `VectorIndexSize` (8) = 524,288 bytes, the size of the vector index | not executed; the constant is unambiguous, and on full-size images the longer block still starts with the right index (Layout.AsWrittenLoadHoldsVectorIndex), so lookups are unaffected | Layout.LoadVectorIndexAsWritten, Layout.VectorIndexOverRead | Layout.LoadVectorIndex, CacheFacts.LoadedVectorIndexTransparent |
