// The texture record (GHQTexInfo) and its on-disk layout, shared by the
// three tools: width, height, format, texture_format, pixel_type,
// is_hires_tex, [N64 format/size tag in the current format], dataSize, data.

module Texture {
  import opened Wrappers
  import opened Bytes
  import opened Files

  /** Bit of `format` that marks a zlib-compressed payload. */
  const GL_TEXFMT_GZ: uint32 := 0x8000_0000

  datatype TexInfo = TexInfo(
    width: uint32,
    height: uint32,
    format: uint32,
    textureFormat: uint16,
    pixelType: uint16,
    isHiresTex: uint8,
    formatSize: uint16,
    data: seq<byte>)

  /** format & GL_TEXFMT_GZ */
  predicate IsGz(format: uint32)
  {
    format >= GL_TEXFMT_GZ
  }

  /** format | GL_TEXFMT_GZ */
  function WithGz(format: uint32): (r: uint32)
    ensures IsGz(r)
    ensures r % GL_TEXFMT_GZ == format % GL_TEXFMT_GZ
    ensures IsGz(format) ==> r == format
  {
    if IsGz(format) then format else format + GL_TEXFMT_GZ
  }

  /** Bytes of the fixed fields: 17 in the legacy layout, 19 with the tag. */
  function FieldsLen(legacy: bool): nat
  {
    if legacy then 17 else 19
  }

  /** The fixed fields in write order; the tag only in the current layout. */
  function Fields(t: TexInfo, legacy: bool): (r: seq<byte>)
    ensures |r| == FieldsLen(legacy)
  {
    Pow256Widths();
    LE(t.width, 4) + LE(t.height, 4) + LE(t.format, 4)
      + LE(t.textureFormat, 2) + LE(t.pixelType, 2) + LE(t.isHiresTex, 1)
      + (if legacy then [] else LE(t.formatSize, 2))
  }

  predicate Encodable(t: TexInfo)
  {
    |t.data| < TWO32
  }

  /** A record whose payload length fits the 32-bit dataSize field. */
  type Record = t: TexInfo | Encodable(t) witness TexInfo(0, 0, 0, 0, 0, 0, 0, [])

  /** A whole record: fixed fields, the 32-bit payload length, the payload. */
  function Encode(t: TexInfo, legacy: bool): (r: seq<byte>)
    requires Encodable(t)
    ensures |r| == FieldsLen(legacy) + 4 + |t.data|
  {
    Pow256Widths();
    Fields(t, legacy) + LE(|t.data|, 4) + t.data
  }

  /**
   * What a reader of the layout gets back for t: the legacy layout carries
   * no format/size tag, and the reader's record starts out zeroed.
   */
  function Stored(t: TexInfo, legacy: bool): TexInfo
  {
    if legacy then t.(formatSize := 0) else t
  }

  /**
   * Reading the fixed fields at p in write order: the record so far (with
   * no payload yet) and the cursor. A field cut short by the end of the file
   * reads as zero, the value the reader's record starts with.
   */
  function FixedAt(s: seq<byte>, p: nat, legacy: bool): (r: (TexInfo, nat))
    ensures p <= r.1 && r.0.data == []
  {
    Pow256Widths();
    var (w, p1) := FieldAt(s, p, 4, 0);
    var (h, p2) := FieldAt(s, p1, 4, 0);
    var (f, p3) := FieldAt(s, p2, 4, 0);
    var (tf, p4) := FieldAt(s, p3, 2, 0);
    var (pt, p5) := FieldAt(s, p4, 2, 0);
    var (hr, p6) := FieldAt(s, p5, 1, 0);
    var (fs, p7) := if legacy then (0, p6) else FieldAt(s, p6, 2, 0);
    (TexInfo(w, h, f, tf, pt, hr, fs, []), p7)
  }

  /**
   * Reading one record at p without decompression: the fixed fields, the
   * 32-bit length, then that many payload bytes. The result is None when the
   * payload is cut short; the cursor is where the reads left it.
   */
  function DecodeRaw(s: seq<byte>, p: nat, legacy: bool): (r: (Option<TexInfo>, nat))
    ensures p <= r.1
    ensures r.0.Some? ==> Encodable(r.0.value)
  {
    Pow256Widths();
    var (t, q) := FixedAt(s, p, legacy);
    var (n, q1) := FieldAt(s, q, 4, 0);
    var (d, q2) := PayloadAt(s, q1, n);
    if d.None? then (None, q2) else (Some(t.(data := d.value)), q2)
  }

  /**
   * Reading one record at p the way a reader that ignores fread's count
   * does: the fixed fields, the 32-bit length, and a buffer of that length
   * holding whatever of the payload the file still has.
   */
  function DecodeFill(s: seq<byte>, p: nat, legacy: bool): (r: (TexInfo, nat))
    ensures p <= r.1
    ensures Encodable(r.0)
  {
    Pow256Widths();
    var (t, q) := FixedAt(s, p, legacy);
    var (n, q1) := FieldAt(s, q, 4, 0);
    var (d, q2) := FilledAt(s, q1, n);
    (t.(data := d), q2)
  }

  /**
   * Both readings end at the same place, and where the whole payload is
   * present they read the same record.
   */
  lemma DecodeFillRaw(s: seq<byte>, p: nat, legacy: bool)
    ensures DecodeFill(s, p, legacy).1 == DecodeRaw(s, p, legacy).1
    ensures DecodeRaw(s, p, legacy).0.Some? ==> DecodeFill(s, p, legacy).0 == DecodeRaw(s, p, legacy).0.value
  {
    Pow256Widths();
    var (t, q) := FixedAt(s, p, legacy);
    var (n, q1) := FieldAt(s, q, 4, 0);
    if PayloadAt(s, q1, n).0.Some? {
      FilledAtPayload(s, q1, n);
    }
  }

  /** The length field of a record whose fixed fields start at p. */
  function LengthAt(s: seq<byte>, p: nat, legacy: bool): nat
    requires p + FieldsLen(legacy) + 4 <= |s|
  {
    FromLE(s[p + FieldsLen(legacy)..p + FieldsLen(legacy) + 4])
  }

  /** A complete record lies at p: its fixed fields, length and payload all fit. */
  ghost predicate WholeRecordAt(s: seq<byte>, p: nat, legacy: bool)
  {
    && p + FieldsLen(legacy) + 4 <= |s|
    && p + FieldsLen(legacy) + 4 + LengthAt(s, p, legacy) <= |s|
  }

  ghost function RecordEnd(s: seq<byte>, p: nat, legacy: bool): nat
    requires WholeRecordAt(s, p, legacy)
  {
    p + FieldsLen(legacy) + 4 + LengthAt(s, p, legacy)
  }

  lemma SliceOfSlice(s: seq<byte>, p: nat, e: seq<byte>, i: nat, j: nat)
    requires p + |e| <= |s| && s[p..p + |e|] == e
    requires i <= j <= |e|
    ensures s[p + i..p + j] == e[i..j]
  {
    var a := s[p + i..p + j];
    var b := e[i..j];
    forall k | 0 <= k < |a|
      ensures a[k] == b[k]
    {
      assert s[p..p + |e|][i + k] == s[p + i + k];
    }
  }

  /** Where each field sits inside an encoded record. */
  lemma EncodeParts(t: TexInfo, legacy: bool)
    requires Encodable(t)
    ensures Encode(t, legacy)[0..4] == LE(t.width, 4)
    ensures Encode(t, legacy)[4..8] == LE(t.height, 4)
    ensures Encode(t, legacy)[8..12] == LE(t.format, 4)
    ensures Encode(t, legacy)[12..14] == LE(t.textureFormat, 2)
    ensures Encode(t, legacy)[14..16] == LE(t.pixelType, 2)
    ensures Encode(t, legacy)[16..17] == LE(t.isHiresTex, 1)
    ensures !legacy ==> Encode(t, legacy)[17..19] == LE(t.formatSize, 2)
  {
    Pow256Widths();
    var e := Encode(t, legacy);
    var a := LE(t.width, 4) + LE(t.height, 4) + LE(t.format, 4);
    var b := a + LE(t.textureFormat, 2) + LE(t.pixelType, 2) + LE(t.isHiresTex, 1);
    var tag: seq<byte> := if legacy then [] else LE(t.formatSize, 2);
    assert Fields(t, legacy) == b + tag;
    assert e == b + tag + LE(|t.data|, 4) + t.data;
    assert e[..17] == b;
    assert a == b[..12];
    assert b[0..4] == a[0..4];
  }

  /** Where the length and the payload sit inside an encoded record. */
  lemma EncodeTail(t: TexInfo, legacy: bool)
    requires Encodable(t)
    ensures Encode(t, legacy)[FieldsLen(legacy)..FieldsLen(legacy) + 4] == LE(|t.data|, 4)
    ensures Encode(t, legacy)[FieldsLen(legacy) + 4..] == t.data
  {
    Pow256Widths();
    assert Encode(t, legacy) == Fields(t, legacy) + LE(|t.data|, 4) + t.data;
  }

  /** The fixed fields Fields writes at p read back as the record's fields. */
  lemma FixedAtEncoded(s: seq<byte>, p: nat, t: TexInfo, legacy: bool)
    requires Encodable(t)
    requires p + |Encode(t, legacy)| <= |s|
    requires s[p..p + |Encode(t, legacy)|] == Encode(t, legacy)
    ensures FixedAt(s, p, legacy) == (Stored(t, legacy).(data := []), p + FieldsLen(legacy))
  {
    Pow256Widths();
    var e := Encode(t, legacy);
    EncodeParts(t, legacy);
    SliceOfSlice(s, p, e, 0, 4);
    SliceOfSlice(s, p, e, 4, 8);
    SliceOfSlice(s, p, e, 8, 12);
    SliceOfSlice(s, p, e, 12, 14);
    SliceOfSlice(s, p, e, 14, 16);
    SliceOfSlice(s, p, e, 16, 17);
    FieldAtEncoded(s, p, t.width, 4, 0);
    FieldAtEncoded(s, p + 4, t.height, 4, 0);
    FieldAtEncoded(s, p + 8, t.format, 4, 0);
    FieldAtEncoded(s, p + 12, t.textureFormat, 2, 0);
    FieldAtEncoded(s, p + 14, t.pixelType, 2, 0);
    FieldAtEncoded(s, p + 16, t.isHiresTex, 1, 0);
    if !legacy {
      SliceOfSlice(s, p, e, 17, 19);
      FieldAtEncoded(s, p + 17, t.formatSize, 2, 0);
    }
  }

  /**
   * Round trip: the bytes Encode writes at p read back, field by field, as
   * the record (less the tag in the legacy layout), and the cursor ends just
   * past the payload.
   */
  lemma {:induction false} DecodeEncoded(s: seq<byte>, p: nat, t: TexInfo, legacy: bool)
    requires Encodable(t)
    requires p + |Encode(t, legacy)| <= |s|
    requires s[p..p + |Encode(t, legacy)|] == Encode(t, legacy)
    ensures DecodeRaw(s, p, legacy) == (Some(Stored(t, legacy)), p + |Encode(t, legacy)|)
  {
    FixedAtEncoded(s, p, t, legacy);
    TailRead(s, p, t, legacy);
    assert Stored(t, legacy).(data := []).(data := t.data) == Stored(t, legacy);
  }

  /** The length and payload Encode writes after the fixed fields read back. */
  lemma TailRead(s: seq<byte>, p: nat, t: TexInfo, legacy: bool)
    requires Encodable(t)
    requires p + |Encode(t, legacy)| <= |s|
    requires s[p..p + |Encode(t, legacy)|] == Encode(t, legacy)
    ensures FieldAt(s, p + FieldsLen(legacy), 4, 0) == (|t.data|, p + FieldsLen(legacy) + 4)
    ensures PayloadAt(s, p + FieldsLen(legacy) + 4, |t.data|) == (Some(t.data), p + |Encode(t, legacy)|)
  {
    var e := Encode(t, legacy);
    var h := FieldsLen(legacy);
    EncodeTail(t, legacy);
    SliceOfSlice(s, p, e, h, h + 4);
    SliceOfSlice(s, p, e, h + 4, |e|);
    LengthPayloadRead(s, p + h, t.data);
  }

  /** The bytes Encode writes at p form a whole record ending where they end. */
  lemma EncodedIsWhole(s: seq<byte>, p: nat, t: TexInfo, legacy: bool)
    requires Encodable(t)
    requires p + |Encode(t, legacy)| <= |s|
    requires s[p..p + |Encode(t, legacy)|] == Encode(t, legacy)
    ensures WholeRecordAt(s, p, legacy) && RecordEnd(s, p, legacy) == p + |Encode(t, legacy)|
  {
    var e := Encode(t, legacy);
    var h := FieldsLen(legacy);
    EncodeTail(t, legacy);
    SliceOfSlice(s, p, e, h, h + 4);
    SliceOfSlice(s, p, e, h + 4, |e|);
    LengthPayloadRead(s, p + h, t.data);
  }

  /** A 32-bit length followed by that many bytes reads back as the bytes. */
  lemma LengthPayloadRead(s: seq<byte>, q: nat, d: seq<byte>)
    requires |d| < TWO32
    requires q + 4 + |d| <= |s|
    requires s[q..q + 4] == LE(|d|, 4) && s[q + 4..q + 4 + |d|] == d
    ensures FromLE(s[q..q + 4]) == |d|
    ensures FieldAt(s, q, 4, 0) == (|d|, q + 4)
    ensures PayloadAt(s, q + 4, |d|) == (Some(d), q + 4 + |d|)
  {
    Pow256Widths();
    FieldAtEncoded(s, q, |d|, 4, 0);
    FromLEofLE(|d|, 4);
  }

  lemma SameWindow(s: seq<byte>, s2: seq<byte>, p: nat, e: nat, a: nat, b: nat)
    requires p <= a <= b <= e <= |s| && e <= |s2|
    requires s[p..e] == s2[p..e]
    ensures s[a..b] == s2[a..b]
  {
    forall k | a <= k < b
      ensures s[k] == s2[k]
    {
      assert s[p..e][k - p] == s2[p..e][k - p];
    }
  }

  lemma FieldAtSame(s: seq<byte>, s2: seq<byte>, p: nat, e: nat, q: nat, k: nat)
    requires p <= q && q + k <= e <= |s| && e <= |s2|
    requires s[p..e] == s2[p..e]
    ensures FieldAt(s, q, k, 0) == FieldAt(s2, q, k, 0)
  {
    SameWindow(s, s2, p, e, q, q + k);
  }

  /** The fixed fields read the same from any file agreeing on their bytes. */
  lemma FixedAtSame(s: seq<byte>, s2: seq<byte>, p: nat, e: nat, legacy: bool)
    requires p + FieldsLen(legacy) <= e <= |s| && e <= |s2|
    requires s[p..e] == s2[p..e]
    ensures FixedAt(s, p, legacy) == FixedAt(s2, p, legacy)
  {
    FieldAtSame(s, s2, p, e, p, 4);
    FieldAtSame(s, s2, p, e, p + 4, 4);
    FieldAtSame(s, s2, p, e, p + 8, 4);
    FieldAtSame(s, s2, p, e, p + 12, 2);
    FieldAtSame(s, s2, p, e, p + 14, 2);
    FieldAtSame(s, s2, p, e, p + 16, 1);
    if !legacy {
      FieldAtSame(s, s2, p, e, p + 17, 2);
    }
  }

  /**
   * Reading a complete record looks at its own bytes only: any file that
   * agrees on them (one grown by appends, one patched elsewhere) reads the
   * same record, and the read succeeds and ends at the record's end.
   */
  lemma {:induction false} DecodeLocal(s: seq<byte>, s2: seq<byte>, p: nat, legacy: bool)
    requires WholeRecordAt(s, p, legacy)
    requires RecordEnd(s, p, legacy) <= |s2|
    requires s[p..RecordEnd(s, p, legacy)] == s2[p..RecordEnd(s, p, legacy)]
    ensures WholeRecordAt(s2, p, legacy) && RecordEnd(s2, p, legacy) == RecordEnd(s, p, legacy)
    ensures DecodeRaw(s2, p, legacy) == DecodeRaw(s, p, legacy)
    ensures DecodeRaw(s, p, legacy).0.Some? && DecodeRaw(s, p, legacy).1 == RecordEnd(s, p, legacy)
  {
    Pow256Widths();
    var e := RecordEnd(s, p, legacy);
    var h := FieldsLen(legacy);
    FixedAtSame(s, s2, p, e, legacy);
    FieldAtSame(s, s2, p, e, p + h, 4);
    SameWindow(s, s2, p, e, p + h + 4, e);
    assert LengthAt(s2, p, legacy) == LengthAt(s, p, legacy);
  }
}
