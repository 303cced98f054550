/**
 * The byte source behind a searcher: `read($offset, $len)` and where it
 * takes its bytes from. PHP tests `contentBuff` and `vectorIndex` with
 * `!= null`, under which an empty string is absent as well; so here an
 * absent buffer is the empty sequence.
 */
module ByteSource {
  import opened Wrappers
  import opened FileImage

  /** The immutable part of a searcher: the contents of its open file (empty
      when it has none), its cached vector index and its content buffer. */
  datatype Store = Store(file: seq<bv8>, vectorIndex: seq<bv8>, contentBuff: seq<bv8>) {
    /** Every read is served from the content buffer. */
    predicate Buffered() { |contentBuff| > 0 }
    /** The bucket entries come from the cached vector index, all other reads from the file. */
    predicate VectorCached() { !Buffered() && |vectorIndex| > 0 }
    /** Every read goes to the file. */
    predicate FileOnly() { !Buffered() && |vectorIndex| == 0 }
    /** The constructor never keeps both buffers. */
    predicate Valid() { !(|vectorIndex| > 0 && |contentBuff| > 0) }
  }

  /** The bytes `read($offset, $len)` returns. From the content buffer it is
      a `substr`, which never fails and is not length-checked; from the file
      it is exactly `len` bytes or a failure. */
  function ReadAt(s: Store, offset: nat, len: nat): (r: Option<seq<bv8>>)
    ensures s.Buffered() ==> r.Some? && |r.value| <= len
    ensures s.Buffered() && offset + len <= |s.contentBuff| ==> r == Some(s.contentBuff[offset..offset + len])
    ensures !s.Buffered() ==> (r.Some? <==> 0 < len && offset + len <= |s.file|)
    ensures !s.Buffered() && r.Some? ==> r.value == s.file[offset..offset + len]
  {
    if s.Buffered() then Some(Substr(s.contentBuff, offset, len)) else ReadExact(s.file, offset, len)
  }

  /** What one `read` adds to the I/O counter: one file operation, or none
      when the content buffer serves it. */
  function ReadCost(s: Store): nat
  {
    if s.Buffered() then 0 else 1
  }

  /** What `calls` reads add to the I/O counter. */
  function Charged(s: Store, calls: nat): nat
  {
    if s.Buffered() then 0 else calls
  }
}
