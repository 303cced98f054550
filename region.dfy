/**
 * `format($ipData)`: a region payload such as "country|region|province|city|isp"
 * split on `|` into five named fields. The payload is a byte string; `|`
 * is the ASCII byte 0x7C, which never occurs inside a multi-byte UTF-8
 * character, so splitting the bytes splits the text.
 */
module Region {

  const Pipe: bv8 := 0x7C

  /** Number of pipes in `s`. */
  function Pipes(s: seq<bv8>): nat
    decreases |s|
  {
    if |s| == 0 then 0 else (if s[0] == Pipe then 1 else 0) + Pipes(s[1..])
  }

  /** PHP `explode('|', $s)`: the pieces between the pipes, empty ones
      included; "" gives one empty piece. */
  function Explode(s: seq<bv8>): (ps: seq<seq<bv8>>)
    ensures |ps| == Pipes(s) + 1
    ensures forall k :: 0 <= k < |ps| ==> Pipe !in ps[k]
    decreases |s|
  {
    if |s| == 0 then [[]]
    else
      var rest := Explode(s[1..]);
      if s[0] == Pipe then [[]] + rest
      else
        assert Pipe !in [s[0]] + rest[0];
        [[s[0]] + rest[0]] + rest[1..]
  }

  /** PHP `implode('|', $ps)`, the inverse of `Explode`. */
  function Join(ps: seq<seq<bv8>>): seq<bv8>
    requires |ps| >= 1
    decreases |ps|
  {
    if |ps| == 1 then ps[0] else ps[0] + [Pipe] + Join(ps[1..])
  }

  /** Joining the pieces gives back the payload. */
  lemma {:induction false} JoinExplode(s: seq<bv8>)
    ensures Join(Explode(s)) == s
    decreases |s|
  {
    if |s| > 0 {
      JoinExplode(s[1..]);
      var rest := Explode(s[1..]);
      if s[0] == Pipe {
        assert Explode(s)[1..] == rest;
      } else {
        var ps := Explode(s);
        if |rest| == 1 {
          assert Join(ps) == [s[0]] + rest[0];
        } else {
          assert ps[1..] == rest[1..];
          assert Join(ps) == [s[0]] + (rest[0] + [Pipe] + Join(rest[1..]));
        }
      }
    }
  }

  /** A piece without pipes, then a pipe: the piece comes out first. */
  lemma {:induction false} ExplodePiece(p: seq<bv8>, rest: seq<bv8>)
    requires Pipe !in p
    ensures Explode(p + [Pipe] + rest) == [p] + Explode(rest)
    decreases |p|
  {
    if |p| > 0 {
      ExplodePiece(p[1..], rest);
      assert (p + [Pipe] + rest)[1..] == p[1..] + [Pipe] + rest;
      assert [p[0]] + p[1..] == p;
    } else {
      assert (p + [Pipe] + rest)[1..] == rest;
    }
  }

  /** A pipe-free string is a single piece. */
  lemma {:induction false} ExplodeWhole(p: seq<bv8>)
    requires Pipe !in p
    ensures Explode(p) == [p]
    decreases |p|
  {
    if |p| > 0 {
      ExplodeWhole(p[1..]);
      assert [p[0]] + p[1..] == p;
    }
  }

  /** Splitting joined pipe-free pieces gives back the pieces. */
  lemma {:induction false} ExplodeJoin(ps: seq<seq<bv8>>)
    requires |ps| >= 1
    requires forall k :: 0 <= k < |ps| ==> Pipe !in ps[k]
    ensures Explode(Join(ps)) == ps
    decreases |ps|
  {
    if |ps| == 1 {
      ExplodeWhole(ps[0]);
    } else {
      ExplodeJoin(ps[1..]);
      ExplodePiece(ps[0], Join(ps[1..]));
      assert ps == [ps[0]] + ps[1..];
    }
  }

  /** The array `format` returns, in its key order. */
  datatype RegionInfo = RegionInfo(country: seq<bv8>, region: seq<bv8>, province: seq<bv8>, city: seq<bv8>, isp: seq<bv8>)
  {
    function Fields(): (f: seq<seq<bv8>>)
      ensures |f| == 5
    {
      [country, region, province, city, isp]
    }
  }

  /** `$itemArr[k] ?? ''`. */
  function Piece(ps: seq<seq<bv8>>, k: nat): seq<bv8>
  {
    if k < |ps| then ps[k] else []
  }

  /** `format`: field k is piece k of the payload, or "" when it has fewer
      than k + 1 pieces. No field holds a pipe. */
  function Format(ipData: seq<bv8>): (r: RegionInfo)
    ensures forall k :: 0 <= k < 5 ==> r.Fields()[k] == Piece(Explode(ipData), k)
    ensures forall k :: 0 <= k < 5 ==> Pipe !in r.Fields()[k]
  {
    var ps := Explode(ipData);
    RegionInfo(Piece(ps, 0), Piece(ps, 1), Piece(ps, 2), Piece(ps, 3), Piece(ps, 4))
  }

  /** The record the format's builder writes, `implode('|', ...)` of five
      pipe-free fields, is read back field for field. */
  lemma FormatRoundTrip(info: RegionInfo)
    requires forall k :: 0 <= k < 5 ==> Pipe !in info.Fields()[k]
    ensures Format(Join(info.Fields())) == info
  {
    ExplodeJoin(info.Fields());
  }

  /** Joining the pieces of a payload up to piece `n` gives a prefix of it,
      followed by a pipe when pieces remain. */
  lemma {:induction false} JoinPrefix(ps: seq<seq<bv8>>, n: nat)
    requires 1 <= n <= |ps|
    ensures n == |ps| ==> Join(ps[..n]) == Join(ps)
    ensures n < |ps| ==> Join(ps[..n]) + [Pipe] + Join(ps[n..]) == Join(ps)
    decreases n
  {
    if n == |ps| {
      assert ps[..n] == ps;
    } else if n > 1 {
      JoinPrefix(ps[1..], n - 1);
      assert ps[..n][1..] == ps[1..][..n - 1];
      assert ps[1..][n - 1..] == ps[n..];
    } else {
      assert ps[..1] == [ps[0]];
      assert ps[1..] == ps[n..];
    }
  }

  /** With at most five pieces, `format` keeps the whole payload: the
      fields present join back into it and the others are "". */
  lemma FormatKeepsAll(ipData: seq<bv8>)
    requires Pipes(ipData) < 5
    ensures var n := Pipes(ipData) + 1; var f := Format(ipData).Fields();
      Join(f[..n]) == ipData && forall k :: n <= k < 5 ==> f[k] == []
  {
    var ps := Explode(ipData);
    JoinExplode(ipData);
    var f := Format(ipData).Fields();
    assert forall k :: 0 <= k < |ps| ==> f[..|ps|][k] == ps[k];
    assert f[..|ps|] == ps;
  }

  /** With more than five pieces, the five fields join into the payload up
      to its fifth pipe, and what follows that pipe is dropped. */
  lemma FormatDropsRest(ipData: seq<bv8>)
    requires Pipes(ipData) >= 5
    ensures Join(Format(ipData).Fields()) + [Pipe] + Join(Explode(ipData)[5..]) == ipData
  {
    var ps := Explode(ipData);
    JoinExplode(ipData);
    assert Format(ipData).Fields() == ps[..5];
    JoinPrefix(ps, 5);
  }
}
