/**
 * The two ways the searcher takes bytes out of an xdb image: PHP's `substr`
 * on an in-memory string, and `fseek` + `fread` + a length check on the
 * open file. The file is immutable, so it is modelled by its contents.
 */
module FileImage {
  import opened Wrappers

  /** PHP `substr($b, $off, $len)` for non-negative arguments: the bytes from
      `off`, cut short at the end of `b`, and "" once `off` is past the end. */
  function Substr(b: seq<bv8>, off: nat, len: nat): (r: seq<bv8>)
    ensures |r| == if |b| <= off then 0 else if off + len <= |b| then len else |b| - off
    ensures off + len <= |b| ==> r == b[off..off + len]
    ensures off < |b| < off + len ==> r == b[off..]
  {
    if |b| <= off then [] else if off + len <= |b| then b[off..off + len] else b[off..]
  }

  /** `fseek($h, $off)` then `fread($h, $len)`. Seeking a regular file to a
      non-negative offset always succeeds (also past the end); `fread`
      returns what is left of the requested range, and refuses a zero
      length. */
  function Fread(file: seq<bv8>, off: nat, len: nat): (r: Option<seq<bv8>>)
    ensures r.Some? <==> len > 0
    ensures r.Some? ==> |r.value| <= len
  {
    if len == 0 then None else Some(Substr(file, off, len))
  }

  /** A positioned read followed by the `strlen($buff) != $len` check: exactly
      `len` bytes at `off`, or nothing. */
  function ReadExact(file: seq<bv8>, off: nat, len: nat): (r: Option<seq<bv8>>)
    ensures r.Some? <==> 0 < len && off + len <= |file|
    ensures r.Some? ==> r.value == file[off..off + len]
  {
    match Fread(file, off, len)
    case None => None
    case Some(buff) => if |buff| != len then None else Some(buff)
  }
}
