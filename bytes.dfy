// Fixed-width integers and their little-endian byte layout, as every HTS tool
// writes them with fwrite(&x, sizeof(x), 1, file) on a little-endian host.

module Wrappers {
  datatype Option<+T> = None | Some(value: T)
}

module Bytes {
  type byte = x: int | 0 <= x < 0x100
  type uint8 = x: int | 0 <= x < 0x100
  type uint16 = x: int | 0 <= x < 0x1_0000
  type uint32 = x: int | 0 <= x < 0x1_0000_0000
  type uint64 = x: int | 0 <= x < 0x1_0000_0000_0000_0000

  const TWO32: nat := 0x1_0000_0000
  const TWO47: nat := 0x8000_0000_0000
  const TWO48: nat := 0x1_0000_0000_0000
  const TWO64: nat := 0x1_0000_0000_0000_0000

  /** 256^n, the number of values n bytes can hold. */
  function Pow256(n: nat): (r: nat)
    ensures r > 0
  {
    if n == 0 then 1 else 256 * Pow256(n - 1)
  }

  lemma Pow256Widths()
    ensures Pow256(1) == 0x100 && Pow256(2) == 0x1_0000
    ensures Pow256(4) == TWO32 && Pow256(8) == TWO64
  {
  }

  /** The n-byte little-endian encoding of x. */
  function LE(x: nat, n: nat): (r: seq<byte>)
    requires x < Pow256(n)
    ensures |r| == n
  {
    if n == 0 then [] else [(x % 256) as byte] + LE(x / 256, n - 1)
  }

  /** The value of a little-endian byte string. */
  function FromLE(s: seq<byte>): (x: nat)
    ensures x < Pow256(|s|)
  {
    if s == [] then 0 else s[0] + 256 * FromLE(s[1..])
  }

  /** Decoding an encoded value gives the value back. */
  lemma {:induction false} FromLEofLE(x: nat, n: nat)
    requires x < Pow256(n)
    ensures FromLE(LE(x, n)) == x
  {
    if n > 0 {
      FromLEofLE(x / 256, n - 1);
      assert LE(x, n)[1..] == LE(x / 256, n - 1);
    }
  }

  /** Encoding a decoded byte string gives the same bytes back. */
  lemma {:induction false} LEofFromLE(s: seq<byte>)
    ensures LE(FromLE(s), |s|) == s
  {
    if s != [] {
      LEofFromLE(s[1..]);
      assert (s[0] + 256 * FromLE(s[1..])) / 256 == FromLE(s[1..]);
    }
  }

  /** Two encodings of the same width are equal only for equal values. */
  lemma LEInjective(x: nat, y: nat, n: nat)
    requires x < Pow256(n) && y < Pow256(n)
    requires LE(x, n) == LE(y, n)
    ensures x == y
  {
    FromLEofLE(x, n);
    FromLEofLE(y, n);
  }

  /** Two's-complement readings of the bit patterns. */
  function Int32(u: uint32): int
  {
    if u < 0x8000_0000 then u else u - TWO32
  }

  function Int64(u: uint64): int
  {
    if u < 0x8000_0000_0000_0000 then u else u - TWO64
  }

  /** A signed 48-bit bit-field read as an int64 (sign-extended). */
  function Int48(u: nat): int
    requires u < TWO48
  {
    if u < TWO47 then u else u - TWO48
  }

  function Zeros(n: nat): (r: seq<byte>)
    ensures |r| == n && forall i :: 0 <= i < n ==> r[i] == 0
  {
    if n == 0 then [] else [0] + Zeros(n - 1)
  }

  function Max(a: nat, b: nat): nat
  {
    if a < b then b else a
  }

  /**
   * The file contents after fwrite of d at position p: d replaces the bytes
   * it covers, the file grows when d runs past its end, and a gap left by a
   * seek past the end reads as zero bytes.
   */
  function Splice(s: seq<byte>, p: nat, d: seq<byte>): (r: seq<byte>)
    ensures |r| == Max(|s|, p + |d|)
    ensures r[p..p + |d|] == d
  {
    var head := if p <= |s| then s[..p] else s + Zeros(p - |s|);
    var tail := if p + |d| < |s| then s[p + |d|..] else [];
    head + d + tail
  }

  /** Outside the bytes written, the file keeps its old bytes, or zeros past its old end. */
  lemma SpliceElsewhere(s: seq<byte>, p: nat, d: seq<byte>)
    ensures forall i :: 0 <= i < |Splice(s, p, d)| && !(p <= i < p + |d|) ==>
      Splice(s, p, d)[i] == (if i < |s| then s[i] else 0)
  {
    var head := if p <= |s| then s[..p] else s + Zeros(p - |s|);
    var tail := if p + |d| < |s| then s[p + |d|..] else [];
    var r := head + d + tail;
    assert r == Splice(s, p, d);
    assert forall i :: 0 <= i < |r| && i < p ==> r[i] == head[i];
    assert forall i :: p + |d| <= i < |r| ==> r[i] == tail[i - p - |d|];
  }

  /** Writing at the end of a file appends. */
  lemma SpliceAtEnd(s: seq<byte>, d: seq<byte>)
    ensures Splice(s, |s|, d) == s + d
  {
    var r := Splice(s, |s|, d);
    SpliceElsewhere(s, |s|, d);
    assert |r| == |s + d|;
    forall i | 0 <= i < |r| ensures r[i] == (s + d)[i] {
      if i >= |s| {
        assert r[|s|..|s| + |d|][i - |s|] == d[i - |s|];
      }
    }
  }

  /** Two consecutive writes are one write of both. */
  lemma SpliceTwice(s: seq<byte>, p: nat, a: seq<byte>, b: seq<byte>)
    ensures Splice(Splice(s, p, a), p + |a|, b) == Splice(s, p, a + b)
  {
    var r1 := Splice(Splice(s, p, a), p + |a|, b);
    var r2 := Splice(s, p, a + b);
    SpliceElsewhere(s, p, a);
    SpliceElsewhere(Splice(s, p, a), p + |a|, b);
    SpliceElsewhere(s, p, a + b);
    assert |r1| == |r2|;
    forall i | 0 <= i < |r1|
      ensures r1[i] == r2[i]
    {
      var ab := a + b;
      if p <= i < p + |a| {
        assert r2[p..p + |ab|][i - p] == ab[i - p];
        assert Splice(s, p, a)[p..p + |a|][i - p] == a[i - p];
      } else if p + |a| <= i < p + |a| + |b| {
        assert r2[p..p + |ab|][i - p] == ab[i - p];
        assert r1[p + |a|..p + |a| + |b|][i - p - |a|] == b[i - p - |a|];
      }
    }
  }
}
