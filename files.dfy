// A C stdio FILE* opened on a regular file: its bytes and its cursor.
// Reads and writes advance the cursor; fseek moves it; ftell reports it.

module Files {
  import opened Wrappers
  import opened Bytes

  /**
   * Cursor after fread of k bytes at p: past the bytes read, or the end of
   * the file when fewer than k bytes remain; a cursor already past the end
   * does not move.
   */
  function ReadEnd(s: seq<byte>, p: nat, k: nat): (q: nat)
    ensures p <= q
    ensures p + k <= |s| ==> q == p + k
  {
    if p + k <= |s| then p + k else Max(p, |s|)
  }

  /**
   * fread(&x, k, 1, file) on a variable holding dflt: the k-byte value and
   * the new cursor. When fewer than k bytes remain the variable keeps dflt.
   */
  function FieldAt(s: seq<byte>, p: nat, k: nat, dflt: nat): (r: (nat, nat))
    requires dflt < Pow256(k)
    ensures r.0 < Pow256(k)
  {
    (if p + k <= |s| then FromLE(s[p..p + k]) else dflt, ReadEnd(s, p, k))
  }

  /**
   * fread(buf, n, 1, file) into a fresh n-byte buffer. A short read leaves
   * part of the buffer unwritten, which the model reports as None.
   */
  function PayloadAt(s: seq<byte>, p: nat, n: nat): (r: (Option<seq<byte>>, nat))
    ensures r.0.Some? ==> |r.0.value| == n
  {
    if n == 0 then (Some([]), p)
    else if p + n <= |s| then (Some(s[p..p + n]), p + n)
    else (None, ReadEnd(s, p, n))
  }

  /**
   * fread(buf, n, 1, file) into a fresh n-byte malloc'd buffer, with the
   * short count ignored: the bytes the file still holds, then the part of
   * the buffer fread did not reach, which holds what malloc left there and
   * is taken as zero.
   */
  function FilledAt(s: seq<byte>, p: nat, n: nat): (r: (seq<byte>, nat))
    ensures |r.0| == n
    ensures p + n <= |s| ==> r == (s[p..p + n], p + n)
  {
    if p + n <= |s| then (s[p..p + n], p + n)
    else if |s| <= p then (Zeros(n), ReadEnd(s, p, n))
    else (s[p..] + Zeros(p + n - |s|), ReadEnd(s, p, n))
  }

  /** Where the file holds the whole payload, both readings agree. */
  lemma FilledAtPayload(s: seq<byte>, p: nat, n: nat)
    requires PayloadAt(s, p, n).0.Some?
    ensures FilledAt(s, p, n) == (PayloadAt(s, p, n).0.value, PayloadAt(s, p, n).1)
  {
  }

  /** A field lying wholly inside the file reads as its encoded value. */
  lemma FieldAtEncoded(s: seq<byte>, p: nat, x: nat, k: nat, dflt: nat)
    requires x < Pow256(k) && dflt < Pow256(k)
    requires p + k <= |s| && s[p..p + k] == LE(x, k)
    ensures FieldAt(s, p, k, dflt) == (x, p + k)
  {
    FromLEofLE(x, k);
  }

  class File {
    var bytes: seq<byte>
    var pos: nat

    /** fopen(name, "rb") on a file holding contents. */
    constructor Open(contents: seq<byte>)
      ensures bytes == contents && pos == 0
    {
      bytes := contents;
      pos := 0;
    }

    /** fopen(name, "wb+"): the file is created empty or truncated. */
    constructor Create()
      ensures bytes == [] && pos == 0
    {
      bytes := [];
      pos := 0;
    }

    method Tell() returns (p: nat)
      ensures p == pos
    {
      p := pos;
    }

    /** fseek(file, offset, SEEK_SET): a negative offset fails and leaves the cursor. */
    method Seek(offset: int) returns (ok: bool)
      modifies this`pos
      ensures ok == (offset >= 0)
      ensures pos == if ok then offset else old(pos)
    {
      ok := offset >= 0;
      if ok {
        pos := offset;
      }
    }

    method Read(k: nat, dflt: nat) returns (v: nat)
      requires dflt < Pow256(k)
      modifies this`pos
      ensures (v, pos) == FieldAt(bytes, old(pos), k, dflt)
      ensures v < Pow256(k)
    {
      if pos + k <= |bytes| {
        v := FromLE(bytes[pos..pos + k]);
      } else {
        v := dflt;
      }
      pos := ReadEnd(bytes, pos, k);
    }

    method Read8(dflt: uint8) returns (v: uint8)
      modifies this`pos
      ensures (v, pos) == FieldAt(bytes, old(pos), 1, dflt)
    {
      Pow256Widths();
      var x := Read(1, dflt);
      v := x;
    }

    method Read16(dflt: uint16) returns (v: uint16)
      modifies this`pos
      ensures (v, pos) == FieldAt(bytes, old(pos), 2, dflt)
    {
      Pow256Widths();
      var x := Read(2, dflt);
      v := x;
    }

    method Read32(dflt: uint32) returns (v: uint32)
      modifies this`pos
      ensures (v, pos) == FieldAt(bytes, old(pos), 4, dflt)
    {
      Pow256Widths();
      var x := Read(4, dflt);
      v := x;
    }

    method Read64(dflt: uint64) returns (v: uint64)
      modifies this`pos
      ensures (v, pos) == FieldAt(bytes, old(pos), 8, dflt)
    {
      Pow256Widths();
      var x := Read(8, dflt);
      v := x;
    }

    method ReadPayload(n: nat) returns (d: Option<seq<byte>>)
      modifies this`pos
      ensures (d, pos) == PayloadAt(bytes, old(pos), n)
    {
      if n == 0 {
        d := Some([]);
      } else if pos + n <= |bytes| {
        d := Some(bytes[pos..pos + n]);
        pos := pos + n;
      } else {
        d := None;
        pos := ReadEnd(bytes, pos, n);
      }
    }

    /** fread of n payload bytes into a fresh buffer, whatever the count read. */
    method ReadFill(n: nat) returns (d: seq<byte>)
      modifies this`pos
      ensures (d, pos) == FilledAt(bytes, old(pos), n)
    {
      if pos + n <= |bytes| {
        d := bytes[pos..pos + n];
        pos := pos + n;
      } else {
        d := if |bytes| <= pos then Zeros(n) else bytes[pos..] + Zeros(pos + n - |bytes|);
        pos := ReadEnd(bytes, pos, n);
      }
    }

    /** fwrite of d at the cursor. */
    method Write(d: seq<byte>)
      modifies this
      ensures bytes == Splice(old(bytes), old(pos), d)
      ensures pos == old(pos) + |d|
    {
      bytes := Splice(bytes, pos, d);
      pos := pos + |d|;
    }
  }
}
