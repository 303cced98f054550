/**
 * Binary codec of the xdb format: unsigned little-endian 16- and 32-bit
 * integers read from a byte string at an arbitrary offset
 * (`getShort`, `getLong` in src/IpXdbSearcher.php), and the writer's side
 * of the same encoding, which the format's builder uses.
 */
module Codec {

  /** The byte at index `i`, or 0 past the end: PHP reads an out-of-range
      string offset as "" (with a warning) and `ord("")` is 0. */
  function ByteAt(b: seq<bv8>, i: nat): (r: bv8)
    ensures i < |b| ==> r == b[i]
    ensures |b| <= i ==> r == 0
  {
    if i < |b| then b[i] else 0
  }

  /** The shifted bytes do not overlap, so `|` adds them. */
  lemma OrShift32(x0: bv8, x1: bv8, x2: bv8, x3: bv8)
    ensures ((x0 as bv32) | ((x1 as bv32) << 8) | ((x2 as bv32) << 16) | ((x3 as bv32) << 24)) as int
            == x0 as int + 0x100 * x1 as int + 0x1_0000 * x2 as int + 0x100_0000 * x3 as int
  {
  }

  lemma OrShift16(x0: bv8, x1: bv8)
    ensures ((x0 as bv16) | ((x1 as bv16) << 8)) as int == x0 as int + 0x100 * x1 as int
  {
  }

  /** `getLong`: four bytes combined with `|` and `<<`; the result is the
      unsigned little-endian value (no sign extension). */
  function GetLong(b: seq<bv8>, i: nat): (r: nat)
    ensures r < 0x1_0000_0000
    ensures r == ByteAt(b, i) as int + 0x100 * ByteAt(b, i + 1) as int
               + 0x1_0000 * ByteAt(b, i + 2) as int + 0x100_0000 * ByteAt(b, i + 3) as int
  {
    var x0, x1, x2, x3 := ByteAt(b, i), ByteAt(b, i + 1), ByteAt(b, i + 2), ByteAt(b, i + 3);
    OrShift32(x0, x1, x2, x3);
    ((x0 as bv32) | ((x1 as bv32) << 8) | ((x2 as bv32) << 16) | ((x3 as bv32) << 24)) as int
  }

  /** `getShort`: two bytes combined with `|` and `<<`. */
  function GetShort(b: seq<bv8>, i: nat): (r: nat)
    ensures r < 0x1_0000
    ensures r == ByteAt(b, i) as int + 0x100 * ByteAt(b, i + 1) as int
  {
    var x0, x1 := ByteAt(b, i), ByteAt(b, i + 1);
    OrShift16(x0, x1);
    ((x0 as bv16) | ((x1 as bv16) << 8)) as int
  }

  /** `x` as four little-endian bytes. */
  function EncodeLong(x: bv32): (e: seq<bv8>)
    ensures |e| == 4
  {
    [(x & 0xFF) as bv8, ((x >> 8) & 0xFF) as bv8, ((x >> 16) & 0xFF) as bv8, (x >> 24) as bv8]
  }

  /** `x` as two little-endian bytes. */
  function EncodeShort(x: bv16): (e: seq<bv8>)
    ensures |e| == 2
  {
    [(x & 0xFF) as bv8, (x >> 8) as bv8]
  }

  lemma ReassembleLong(x: bv32)
    ensures var e := EncodeLong(x);
      ((e[0] as bv32) | ((e[1] as bv32) << 8) | ((e[2] as bv32) << 16) | ((e[3] as bv32) << 24)) == x
  {
  }

  lemma ReassembleShort(x: bv16)
    ensures var e := EncodeShort(x);
      ((e[0] as bv16) | ((e[1] as bv16) << 8)) == x
  {
  }

  /** Decoding a 32-bit value wherever it was written gives it back. */
  lemma LongRoundTrip(p: seq<bv8>, x: bv32, q: seq<bv8>)
    ensures GetLong(p + EncodeLong(x) + q, |p|) == x as int
  {
    var e, b := EncodeLong(x), p + EncodeLong(x) + q;
    assert ByteAt(b, |p|) == e[0] && ByteAt(b, |p| + 1) == e[1];
    assert ByteAt(b, |p| + 2) == e[2] && ByteAt(b, |p| + 3) == e[3];
    ReassembleLong(x);
  }

  /** Decoding a 16-bit value wherever it was written gives it back. */
  lemma ShortRoundTrip(p: seq<bv8>, x: bv16, q: seq<bv8>)
    ensures GetShort(p + EncodeShort(x) + q, |p|) == x as int
  {
    var e, b := EncodeShort(x), p + EncodeShort(x) + q;
    assert ByteAt(b, |p|) == e[0] && ByteAt(b, |p| + 1) == e[1];
    ReassembleShort(x);
  }

  /** A decoded value depends only on the four bytes it covers. */
  lemma GetLongSlice(b: seq<bv8>, i: nat, c: seq<bv8>, j: nat)
    requires i + 4 <= |b| && j + 4 <= |c|
    requires b[i..i + 4] == c[j..j + 4]
    ensures GetLong(b, i) == GetLong(c, j)
  {
    assert b[i] == b[i..i + 4][0] && b[i + 1] == b[i..i + 4][1];
    assert b[i + 2] == b[i..i + 4][2] && b[i + 3] == b[i..i + 4][3];
  }
}
