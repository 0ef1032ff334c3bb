// hts2merge: merges two HTS texture caches into a third. Each input's
// mapping table is walked, every record it points to is decoded (and
// inflated), re-encoded at the end of the output, and its new offset is
// recorded in one checksum-keyed map, written out as the output's table.

module HtsMerge {
  import opened Wrappers
  import opened Bytes
  import opened Files
  import opened Texture
  import Zlib

  /** First word of a current-format file; a legacy file starts with its marker. */
  const TXCACHE_FORMAT_VERSION: uint32 := 0x0800_0000
  /** Header markers of an uncompressed and of a compressed cache. */
  const MARKER_PLAIN: uint32 := 1075970048
  const MARKER_GZ: uint32 := 1084358656
  /** An int32 variable initialised to -1, as a 32-bit pattern. */
  const MINUS_ONE_32: uint32 := 0xFFFF_FFFF
  const MINUS_ONE_64: uint64 := 0xFFFF_FFFF_FFFF_FFFF
  /** zlib level compress2 is called with (the fastest). */
  const COMPRESSION_LEVEL: int := 1

  // ---------------------------------------------------------------------
  // check_header

  /** What check_header learns from the start of a file. */
  datatype Header = Header(legacy: bool, marker: uint32, end: nat)

  /**
   * check_header's reads at p: a version word; when it is the format
   * version the marker follows, otherwise the word itself is the marker.
   * A word the file is too short for stays -1.
   */
  function HeaderAt(s: seq<byte>, p: nat): (h: Header)
    ensures p <= h.end
  {
    Pow256Widths();
    var (version, p1) := FieldAt(s, p, 4, MINUS_ONE_32);
    if version == TXCACHE_FORMAT_VERSION then
      var (marker, p2) := FieldAt(s, p1, 4, MINUS_ONE_32);
      Header(false, marker, p2)
    else
      Header(true, version, p1)
  }

  predicate KnownMarker(marker: uint32)
  {
    marker == MARKER_PLAIN || marker == MARKER_GZ
  }

  function MarkerFor(compressed: bool): uint32
  {
    if compressed then MARKER_GZ else MARKER_PLAIN
  }

  /**
   * The current format is chosen exactly when the first word is the format
   * version, and then the marker is the second word; otherwise the first
   * word is the marker. Every accepted marker names its compression mode.
   */
  lemma HeaderClassification(s: seq<byte>)
    ensures !HeaderAt(s, 0).legacy <==> |s| >= 4 && FromLE(s[0..4]) == TXCACHE_FORMAT_VERSION
    ensures HeaderAt(s, 0).legacy ==> HeaderAt(s, 0).marker == (if |s| >= 4 then FromLE(s[0..4]) else MINUS_ONE_32)
    ensures !HeaderAt(s, 0).legacy ==> HeaderAt(s, 0).marker == (if |s| >= 8 then FromLE(s[4..8]) else MINUS_ONE_32)
    ensures KnownMarker(HeaderAt(s, 0).marker) ==> MarkerFor(HeaderAt(s, 0).marker == MARKER_GZ) == HeaderAt(s, 0).marker
  {
    Pow256Widths();
  }

  /**
   * check_header: ok exactly when the marker is one of the two known ones;
   * then compressed tells whether it is the compressed marker.
   */
  method CheckHeader(f: File) returns (ok: bool, legacy: bool, compressed: bool)
    modifies f`pos
    ensures legacy == HeaderAt(f.bytes, old(f.pos)).legacy
    ensures ok <==> KnownMarker(HeaderAt(f.bytes, old(f.pos)).marker)
    ensures ok ==> (compressed <==> HeaderAt(f.bytes, old(f.pos)).marker == MARKER_GZ)
    ensures f.pos == HeaderAt(f.bytes, old(f.pos)).end
  {
    var header: uint32 := MINUS_ONE_32;
    var version := f.Read32(MINUS_ONE_32);
    if version == TXCACHE_FORMAT_VERSION {
      header := f.Read32(MINUS_ONE_32);
      legacy := false;
    } else {
      header := version;
      legacy := true;
    }
    compressed := false;
    if header != MARKER_PLAIN && header != MARKER_GZ {
      return false, legacy, compressed;
    }
    compressed := header == MARKER_GZ;
    ok := true;
  }

  /**
   * The header main writes: the version word (current format only), the
   * marker for the chosen compression, and an 8-byte mapping offset of 0.
   */
  function HeaderBytes(legacy: bool, compressed: bool): (r: seq<byte>)
    ensures |r| == HeaderLen(legacy) + 8
  {
    Pow256Widths();
    (if legacy then [] else LE(TXCACHE_FORMAT_VERSION, 4)) + LE(MarkerFor(compressed), 4) + LE(0, 8)
  }

  /** Where the 8-byte mapping offset sits: after the marker word(s). */
  function HeaderLen(legacy: bool): nat
  {
    if legacy then 4 else 8
  }

  /** The words before the mapping offset in HeaderBytes. */
  lemma HeaderPrefix(legacy: bool, compressed: bool)
    ensures HeaderBytes(legacy, compressed)[..HeaderLen(legacy)] ==
            (if legacy then [] else LE(TXCACHE_FORMAT_VERSION, 4)) + LE(MarkerFor(compressed), 4)
  {
    Pow256Widths();
    var w := (if legacy then [] else LE(TXCACHE_FORMAT_VERSION, 4)) + LE(MarkerFor(compressed), 4);
    assert HeaderBytes(legacy, compressed) == w + LE(0, 8);
    assert |w| == HeaderLen(legacy);
    assert (w + LE(0, 8))[..|w|] == w;
  }

  /** A legacy file starting with marker m reads as legacy with marker m. */
  lemma LegacyHeaderAt(s: seq<byte>, m: uint32)
    requires KnownMarker(m)
    requires 4 <= |s| && s[0..4] == LE(m, 4)
    ensures HeaderAt(s, 0) == Header(true, m, 4)
  {
    Pow256Widths();
    FieldAtEncoded(s, 0, m, 4, MINUS_ONE_32);
  }

  /** A file starting with the version word and marker m reads as current-format with marker m. */
  lemma CurrentHeaderAt(s: seq<byte>, m: uint32)
    requires 8 <= |s| && s[0..4] == LE(TXCACHE_FORMAT_VERSION, 4) && s[4..8] == LE(m, 4)
    ensures HeaderAt(s, 0) == Header(false, m, 8)
  {
    Pow256Widths();
    FieldAtEncoded(s, 0, TXCACHE_FORMAT_VERSION, 4, MINUS_ONE_32);
    FieldAtEncoded(s, 4, m, 4, MINUS_ONE_32);
  }

  /**
   * A file starting with HeaderBytes passes check_header with the same
   * format and compression mode, and its reader is left at the mapping offset.
   */
  lemma HeaderRoundTrip(s: seq<byte>, legacy: bool, compressed: bool)
    requires |HeaderBytes(legacy, compressed)| <= |s|
    requires s[..HeaderLen(legacy)] == HeaderBytes(legacy, compressed)[..HeaderLen(legacy)]
    ensures HeaderAt(s, 0) == Header(legacy, MarkerFor(compressed), HeaderLen(legacy))
    ensures KnownMarker(HeaderAt(s, 0).marker)
    ensures HeaderAt(s, 0).marker == MARKER_GZ <==> compressed
  {
    Pow256Widths();
    var m := MarkerFor(compressed);
    HeaderPrefix(legacy, compressed);
    if legacy {
      assert s[0..4] == s[..4];
      LegacyHeaderAt(s, m);
    } else {
      var v := LE(TXCACHE_FORMAT_VERSION, 4);
      assert s[..8] == v + LE(m, 4);
      assert s[0..4] == s[..8][0..4] == v;
      assert s[4..8] == s[..8][4..8] == LE(m, 4);
      CurrentHeaderAt(s, m);
    }
  }

  // ---------------------------------------------------------------------
  // StorageOffset and N64FormatSize, as explicit bit layouts

  /** StorageOffset._offset: the low 48 bits. */
  function OffsetBits(v: uint64): (r: nat)
    ensures r < TWO48
  {
    v % TWO48
  }

  /** StorageOffset._formatsize: the high 16 bits. */
  function TagBits(v: uint64): uint16
  {
    v / TWO48
  }

  function PackOffset(offset: nat, tag: uint16): uint64
    requires offset < TWO48
  {
    tag * TWO48 + offset
  }

  /** A packed offset splits back into the offset and the tag it was packed from. */
  lemma PackUnpack(offset: nat, tag: uint16)
    requires offset < TWO48
    ensures OffsetBits(PackOffset(offset, tag)) == offset
    ensures TagBits(PackOffset(offset, tag)) == tag
  {
  }

  /** Every 64-bit value is the packing of its offset and tag bits. */
  lemma UnpackPack(v: uint64)
    ensures PackOffset(OffsetBits(v), TagBits(v)) == v
  {
  }

  /** offset._offset = pos: the low 48 bits take the position, the tag stays. */
  function SetOffset(v: uint64, pos: nat): uint64
  {
    PackOffset(pos % TWO48, TagBits(v))
  }

  /** offset._offset read as an int64, as fseek receives it. */
  function SeekTarget(v: uint64): int
  {
    Int48(OffsetBits(v))
  }

  /**
   * Setting the offset of a packed value keeps its tag, and a position
   * below 2^47 is what a reader then seeks to.
   */
  lemma SetOffsetKeepsTag(v: uint64, pos: nat)
    ensures TagBits(SetOffset(v, pos)) == TagBits(v)
    ensures OffsetBits(SetOffset(v, pos)) == pos % TWO48
    ensures pos < TWO47 ==> SeekTarget(SetOffset(v, pos)) == pos
  {
    PackUnpack(pos % TWO48, TagBits(v));
  }

  /** N64FormatSize: _format is the first byte in memory, _size the second. */
  function FormatByte(fs: uint16): uint8
  {
    fs % 256
  }

  function SizeByte(fs: uint16): uint8
  {
    fs / 256
  }

  function MakeFormatSize(format: uint8, size: uint8): uint16
  {
    size * 256 + format
  }

  /** The two byte views of _formatsize are a lossless split of it. */
  lemma FormatSizeSplit(fs: uint16, format: uint8, size: uint8)
    ensures MakeFormatSize(FormatByte(fs), SizeByte(fs)) == fs
    ensures FormatByte(MakeFormatSize(format, size)) == format
    ensures SizeByte(MakeFormatSize(format, size)) == size
  {
  }

  // ---------------------------------------------------------------------
  // read_info

  /** uLongf destLen = info->dataSize * 2: the product is taken in 32 bits. */
  function TwiceDataSize(n: nat): (r: nat)
    ensures r < TWO32
  {
    (2 * n) % TWO32
  }

  /** cap is start doubled k times. */
  ghost predicate Doubled(start: nat, cap: nat, k: nat)
    decreases k
  {
    if k == 0 then cap == start else cap % 2 == 0 && Doubled(start, cap / 2, k - 1)
  }

  /**
   * The payload read_info ends up with for a compressed payload src: the
   * inflated data, unless src is not a valid stream, or the first buffer
   * has no room (2 x dataSize wrapped to 0) and the output is nonempty.
   */
  function Inflated(z: Zlib.Codec, src: seq<byte>): Option<seq<byte>>
  {
    match z.inflate(src)
    case None => None
    case Some(d) => if TwiceDataSize(|src|) > 0 || d == [] then Some(d) else None
  }

  /**
   * read_info's retry loop: uncompress into a buffer of 2 x dataSize bytes,
   * doubling the buffer on Z_BUF_ERROR and giving up on any other error.
   * The result is the inflated payload; cap is the final buffer size, the
   * first size of the doubling sequence that holds it.
   */
  method Inflate(z: Zlib.Codec, src: seq<byte>) returns (r: Option<seq<byte>>, cap: nat, rounds: nat)
    ensures r == Inflated(z, src)
    ensures Doubled(TwiceDataSize(|src|), cap, rounds)
    ensures r.Some? ==> |r.value| <= cap
    ensures rounds > 0 ==> z.inflate(src).Some? && cap < |z.inflate(src).value| + |z.inflate(src).value|
  {
    var start := TwiceDataSize(|src|);
    ghost var n := if z.inflate(src).Some? then |z.inflate(src).value| else 0;
    cap := start;
    rounds := 0;
    var ret := Zlib.Uncompress(z, src, cap);
    while ret.BufError?
      invariant ret == Zlib.Uncompress(z, src, cap)
      invariant Doubled(start, cap, rounds)
      invariant rounds == 0 ==> cap == start
      invariant rounds > 0 ==> start > 0 && z.inflate(src).Some? && 0 < cap < n + n
      decreases n - cap
    {
      DoubledStep(start, cap, rounds);
      cap := cap + cap;
      rounds := rounds + 1;
      ret := Zlib.Uncompress(z, src, cap);
    }
    r := if ret.Ok? then Some(ret.out) else None;
  }

  lemma DoubledStep(start: nat, cap: nat, k: nat)
    requires Doubled(start, cap, k)
    ensures Doubled(start, cap + cap, k + 1)
  {
    assert (cap + cap) / 2 == cap;
  }

  /**
   * info->dataSize = destLen: the inflated length is stored in 32 bits, and
   * every later use of the payload reads that many bytes.
   */
  function DataSizeView(d: seq<byte>): (r: seq<byte>)
    ensures |r| < TWO32
    ensures |d| < TWO32 ==> r == d
  {
    d[..|d| % TWO32]
  }

  /**
   * read_info at p: the record as decoded, with a compressed payload
   * inflated and `format` left as read (its compression bit stays set).
   * A payload cut short by the end of the file is not detected: the record
   * is read with the buffer fread only partly filled. None when a
   * compressed payload does not inflate.
   */
  function Decode(s: seq<byte>, p: nat, legacy: bool, z: Zlib.Codec): (r: (Option<TexInfo>, nat))
    ensures p <= r.1
    ensures r.0.Some? ==> Encodable(r.0.value)
  {
    var (t, q) := DecodeFill(s, p, legacy);
    if !IsGz(t.format) then (Some(t), q)
    else match Inflated(z, t.data)
      case None => (None, q)
      case Some(d) => (Some(t.(data := DataSizeView(d))), q)
  }

  /** read_info: fills the record field by field from the cursor. */
  method ReadInfo(f: File, legacy: bool, z: Zlib.Codec) returns (ok: bool, info: TexInfo)
    modifies f`pos
    ensures ok == Decode(f.bytes, old(f.pos), legacy, z).0.Some?
    ensures ok ==> info == Decode(f.bytes, old(f.pos), legacy, z).0.value
    ensures f.pos == Decode(f.bytes, old(f.pos), legacy, z).1
  {
    ghost var s, p := f.bytes, f.pos;
    var width := f.Read32(0);
    var height := f.Read32(0);
    var format := f.Read32(0);
    var textureFormat := f.Read16(0);
    var pixelType := f.Read16(0);
    var isHiresTex := f.Read8(0);
    var formatSize: uint16 := 0;
    if !legacy {
      formatSize := f.Read16(0);
    }
    assert FixedAt(s, p, legacy) == (TexInfo(width, height, format, textureFormat, pixelType, isHiresTex, formatSize, []), f.pos);
    var dataSize := f.Read32(0);
    var data := f.ReadFill(dataSize);
    info := TexInfo(width, height, format, textureFormat, pixelType, isHiresTex, formatSize, data);
    if IsGz(format) {
      var inflated, _, _ := Inflate(z, data);
      if inflated.None? {
        return false, info;
      }
      info := info.(data := DataSizeView(inflated.value));
    }
    ok := true;
  }

  // ---------------------------------------------------------------------
  // write_info

  /**
   * The record write_info emits: unchanged without compression; with it,
   * `format` gains the compression bit and the payload is replaced by its
   * level-1 compress2 output into a 2 x dataSize buffer. None when
   * compress2 fails.
   */
  function Prepare(t: TexInfo, compression: bool, z: Zlib.Codec): (r: Option<TexInfo>)
    requires Encodable(t)
    ensures r.Some? ==> Encodable(r.value)
  {
    if !compression then Some(t)
    else match Zlib.Compress2(z, t.data, TwiceDataSize(|t.data|), COMPRESSION_LEVEL)
      case Ok(c) => Some(t.(format := WithGz(t.format), data := c))
      case _ => None
  }

  /**
   * The bytes write_info leaves in the file: the whole prepared record, or
   * only the fixed fields when compress2 fails after they were written.
   */
  function Emitted(t: TexInfo, legacy: bool, compression: bool, z: Zlib.Codec): seq<byte>
    requires Encodable(t)
  {
    match Prepare(t, compression, z)
    case Some(w) => Encode(w, legacy)
    case None => Fields(t.(format := WithGz(t.format)), legacy)
  }

  /** The fixed fields, one fwrite each, in Fields order. */
  method WriteFields(out: File, t: TexInfo, legacy: bool)
    modifies out
    ensures out.bytes == Splice(old(out.bytes), old(out.pos), Fields(t, legacy))
    ensures out.pos == old(out.pos) + FieldsLen(legacy)
  {
    Pow256Widths();
    ghost var s, p := out.bytes, out.pos;
    ghost var done: seq<byte> := [];
    SpliceTwice(s, p, [], LE(t.width, 4));
    out.Write(LE(t.width, 4));
    done := LE(t.width, 4);
    SpliceTwice(s, p, done, LE(t.height, 4));
    out.Write(LE(t.height, 4));
    done := done + LE(t.height, 4);
    SpliceTwice(s, p, done, LE(t.format, 4));
    out.Write(LE(t.format, 4));
    done := done + LE(t.format, 4);
    SpliceTwice(s, p, done, LE(t.textureFormat, 2));
    out.Write(LE(t.textureFormat, 2));
    done := done + LE(t.textureFormat, 2);
    SpliceTwice(s, p, done, LE(t.pixelType, 2));
    out.Write(LE(t.pixelType, 2));
    done := done + LE(t.pixelType, 2);
    SpliceTwice(s, p, done, LE(t.isHiresTex, 1));
    out.Write(LE(t.isHiresTex, 1));
    done := done + LE(t.isHiresTex, 1);
    if !legacy {
      SpliceTwice(s, p, done, LE(t.formatSize, 2));
      out.Write(LE(t.formatSize, 2));
      done := done + LE(t.formatSize, 2);
    }
    assert done == Fields(t, legacy);
  }

  /**
   * What write_info writes, split as its fwrites are: the fields of the
   * record with the GZ bit set when compressing, then, when compress2
   * succeeds, the length and the payload.
   */
  lemma EmittedShape(t: TexInfo, legacy: bool, compression: bool, z: Zlib.Codec)
    requires Encodable(t)
    ensures var head := if compression then t.(format := WithGz(t.format)) else t;
      match Prepare(t, compression, z)
      case None => Emitted(t, legacy, compression, z) == Fields(head, legacy)
      case Some(w) =>
        && Fields(w, legacy) == Fields(head, legacy)
        && Emitted(t, legacy, compression, z) == Fields(head, legacy) + (LE(|w.data|, 4) + w.data)
  {
    Pow256Widths();
    match Prepare(t, compression, z)
    case None =>
    case Some(w) =>
      assert Encode(w, legacy) == Fields(w, legacy) + (LE(|w.data|, 4) + w.data);
  }

  /** write_info: writes the prepared record at the cursor; false when compress2 fails. */
  method WriteInfo(out: File, legacy: bool, compression: bool, t: TexInfo, z: Zlib.Codec) returns (ok: bool)
    requires Encodable(t)
    modifies out
    ensures ok == Prepare(t, compression, z).Some?
    ensures out.bytes == Splice(old(out.bytes), old(out.pos), Emitted(t, legacy, compression, z))
    ensures out.pos == old(out.pos) + |Emitted(t, legacy, compression, z)|
  {
    ghost var s, p := out.bytes, out.pos;
    EmittedShape(t, legacy, compression, z);
    var info := t;
    if compression {
      info := info.(format := WithGz(info.format));
    }
    WriteFields(out, info, legacy);
    ghost var head := info;
    if compression {
      var ret := Zlib.Compress2(z, info.data, TwiceDataSize(|info.data|), COMPRESSION_LEVEL);
      if !ret.Ok? {
        return false;
      }
      info := info.(data := ret.out);
    }
    assert Prepare(t, compression, z) == Some(info);
    SpliceTwice(s, p, Fields(head, legacy), LE(|info.data|, 4) + info.data);
    WritePayload(out, info.data);
    ok := true;
  }

  /** FWRITE(dataSize) then the payload. */
  method WritePayload(out: File, data: seq<byte>)
    requires |data| < TWO32
    modifies out
    ensures out.bytes == Splice(old(out.bytes), old(out.pos), LE(|data|, 4) + data)
    ensures out.pos == old(out.pos) + 4 + |data|
  {
    Pow256Widths();
    SpliceTwice(out.bytes, out.pos, LE(|data|, 4), data);
    out.Write(LE(|data|, 4));
    out.Write(data);
  }

  // ---------------------------------------------------------------------
  // read_info against write_info

  /**
   * read_info reads a record's fields in write_info's order: whatever
   * Encode lays out, Decode gives back (the tag only in the current
   * format). A payload whose format carries the compression bit is
   * inflated on the way in.
   */
  lemma EncodeThenDecode(t: Record, legacy: bool, z: Zlib.Codec)
    ensures Decode(Encode(t, legacy), 0, legacy, z).0 ==
      if !IsGz(t.format) then Some(Stored(t, legacy))
      else match Inflated(z, t.data)
        case None => None
        case Some(d) => Some(Stored(t, legacy).(data := DataSizeView(d)))
  {
    var e := Encode(t, legacy);
    assert e[0..|e|] == e;
    DecodeEncoded(e, 0, t, legacy);
    DecodeFillRaw(e, 0, legacy);
  }

  /**
   * An uncompressed record written by write_info without compression reads
   * back, with the same format flag, as the same fields and payload.
   */
  lemma PlainRoundTrip(t: Record, legacy: bool, z: Zlib.Codec)
    requires !IsGz(t.format)
    ensures Emitted(t, legacy, false, z) == Encode(t, legacy)
    ensures Decode(Emitted(t, legacy, false, z), 0, legacy, z).0 == Some(Stored(t, legacy))
  {
    EncodeThenDecode(t, legacy, z);
  }

  /**
   * A record written with compression carries the compression bit and
   * reads back as the original payload. The compressed payload must not be
   * exactly 2^31 bytes: then 2 x dataSize is 0 in 32 bits.
   */
  lemma CompressedRoundTrip(t: Record, legacy: bool, z: Zlib.Codec)
    requires Zlib.Valid(z)
    requires Prepare(t, true, z).Some?
    requires |Prepare(t, true, z).value.data| != 0x8000_0000
    ensures Emitted(t, legacy, true, z) == Encode(Prepare(t, true, z).value, legacy)
    ensures IsGz(Prepare(t, true, z).value.format)
    ensures Decode(Emitted(t, legacy, true, z), 0, legacy, z).0 ==
            Some(Stored(t.(format := WithGz(t.format)), legacy))
  {
    var w := Prepare(t, true, z).value;
    Zlib.CompressedStream(z, t.data, TwiceDataSize(|t.data|), COMPRESSION_LEVEL);
    assert TwiceDataSize(|w.data|) > 0;
    EncodeThenDecode(w, legacy, z);
  }

  /**
   * read_info never clears the compression bit: the decoded record keeps
   * the stored format, and a compressed payload is replaced by its
   * inflation (cut to the 32-bit dataSize).
   */
  lemma DecodeKeepsFormat(s: seq<byte>, p: nat, legacy: bool, z: Zlib.Codec)
    ensures Decode(s, p, legacy, z).1 == DecodeFill(s, p, legacy).1
    ensures Decode(s, p, legacy, z).0.Some? ==>
      Decode(s, p, legacy, z).0.value.format == DecodeFill(s, p, legacy).0.format
    ensures var raw := DecodeFill(s, p, legacy).0;
      if IsGz(raw.format) then
        (Decode(s, p, legacy, z).0.Some? <==> Inflated(z, raw.data).Some?) &&
        (Inflated(z, raw.data).Some? ==>
          Decode(s, p, legacy, z).0.value == raw.(data := DataSizeView(Inflated(z, raw.data).value)))
      else Decode(s, p, legacy, z).0 == Some(raw)
  {
  }

  /**
   * read_info fails only on a compressed payload that does not inflate;
   * a record cut short by the end of the file is still read, so
   * write_cache copies it.
   */
  lemma DecodeFailsOnlyInflating(s: seq<byte>, p: nat, legacy: bool, z: Zlib.Codec)
    ensures Decode(s, p, legacy, z).0.None? <==>
      IsGz(DecodeFill(s, p, legacy).0.format) && Inflated(z, DecodeFill(s, p, legacy).0.data).None?
    ensures !IsGz(DecodeFill(s, p, legacy).0.format) ==> Decode(s, p, legacy, z).0.Some?
  {
  }

  /**
   * So a compressed record merged into an uncompressed cache is written
   * with the compression bit still set over the inflated payload, and a
   * reader inflates that payload a second time.
   */
  lemma CompressedIntoPlain(t: Record, legacy: bool, z: Zlib.Codec)
    requires IsGz(t.format)
    ensures Emitted(t, legacy, false, z) == Encode(t, legacy)
    ensures Decode(Emitted(t, legacy, false, z), 0, legacy, z).0.Some? <==> Inflated(z, t.data).Some?
  {
    EncodeThenDecode(t, legacy, z);
  }

  // ---------------------------------------------------------------------
  // write_cache

  /** How one input is copied: its format, the output's format, compression, zlib. */
  datatype CopyMode = CopyMode(readLegacy: bool, writeLegacy: bool, compression: bool, z: Zlib.Codec)

  /** The state write_cache changes: the input cursor, the output bytes and the shared mapping. */
  datatype Pass = Pass(cursor: nat, out: seq<byte>, mapping: map<uint64, uint64>)

  /**
   * write_cache's start at p: the 8-byte mapping offset (default -1), a seek
   * there when it is not negative, and the 32-bit entry count (default -1).
   * Returns how many times the loop runs and the cursor at the first entry.
   */
  function Prologue(s: seq<byte>, p: nat): (r: (nat, nat))
  {
    Pow256Widths();
    var (mappingOffset, p1) := FieldAt(s, p, 8, MINUS_ONE_64);
    var p2 := if Int64(mappingOffset) >= 0 then Int64(mappingOffset) else p1;
    var (mappingSize, p3) := FieldAt(s, p2, 4, MINUS_ONE_32);
    (if Int32(mappingSize) > 0 then Int32(mappingSize) else 0, p3)
  }

  /** One mapping entry: skipped (read_info failed), or copied. */
  datatype Visit =
    | Skip(resume: nat)
    | Copied(checksum: uint64, packed: uint64, info: Record, resume: nat)

  /**
   * The entry at c: checksum and packed offset (each 0 when past the end),
   * a seek to the offset's low 48 bits when not negative, and read_info
   * there. A failed read is skipped with the cursor where read_info left
   * it; a copied entry resumes just past the entry.
   */
  function VisitAt(s: seq<byte>, c: nat, legacy: bool, z: Zlib.Codec): (v: Visit)
    ensures v.Copied? ==> v.resume == ReadEnd(s, c, 16)
  {
    Pow256Widths();
    var (checksum, c1) := FieldAt(s, c, 8, 0);
    var (packed, c2) := FieldAt(s, c1, 8, 0);
    var r := if SeekTarget(packed) >= 0 then SeekTarget(packed) else c2;
    var (info, c3) := Decode(s, r, legacy, z);
    if info.None? then Skip(c3) else Copied(checksum, packed, info.value, c2)
  }

  /** The entries of input s as write_cache sees them, by cursor position. */
  function Visits(s: seq<byte>, m: CopyMode): nat -> Visit
  {
    (c: nat) => VisitAt(s, c, m.readLegacy, m.z)
  }

  /** v gives write_cache's view of every entry of input s. */
  ghost predicate IsVisitsOf(v: nat -> Visit, s: seq<byte>, m: CopyMode)
  {
    forall c: nat {:trigger VisitAt(s, c, m.readLegacy, m.z)} :: v(c) == VisitAt(s, c, m.readLegacy, m.z)
  }

  /** The mapping value of a record written at out position pos. */
  function NewOffset(packed: uint64, pos: nat, writeLegacy: bool): uint64
  {
    if writeLegacy then pos % TWO64 else SetOffset(packed, pos)
  }

  /** One iteration of write_cache's loop, given what the entry at each cursor is. */
  function Step(v: nat -> Visit, m: CopyMode, st: Pass): (r: Pass)
  {
    match v(st.cursor)
    case Skip(c) => st.(cursor := c)
    case Copied(k, packed, info, c) =>
      Pass(c, st.out + Emitted(info, m.writeLegacy, m.compression, m.z),
           st.mapping[k := NewOffset(packed, |st.out|, m.writeLegacy)])
  }

  /** The state after n iterations. */
  function Iterate(v: nat -> Visit, m: CopyMode, st: Pass, n: nat): Pass
  {
    if n == 0 then st else Step(v, m, Iterate(v, m, st, n - 1))
  }

  /** write_cache on input s from the cursor in st: the prologue, then the loop. */
  function Run(s: seq<byte>, m: CopyMode, st: Pass): Pass
  {
    var (count, c) := Prologue(s, st.cursor);
    Iterate(Visits(s, m), m, st.(cursor := c), count)
  }

  /** One pass of write_cache's loop body, from the entry at the input cursor. */
  method CopyEntry(input: File, output: File, m: CopyMode, mapping0: map<uint64, uint64>, ghost v: nat -> Visit)
      returns (mapping: map<uint64, uint64>)
    requires IsVisitsOf(v, input.bytes, m)
    requires input != output
    requires output.pos == |output.bytes|
    modifies input`pos, output
    ensures output.pos == |output.bytes|
    ensures Pass(input.pos, output.bytes, mapping) == Step(v, m, Pass(old(input.pos), old(output.bytes), mapping0))
  {
    ghost var s, c, out0 := input.bytes, input.pos, output.bytes;
    assert v(c) == VisitAt(s, c, m.readLegacy, m.z);
    mapping := mapping0;
    var checksum := input.Read64(0);
    var packed := input.Read64(0);
    var currentOffset := input.Tell();
    var found := input.Seek(SeekTarget(packed));
    var ok, info := ReadInfo(input, m.readLegacy, m.z);
    if !ok {
      assert v(c) == Skip(input.pos);
      return;
    }
    assert v(c) == Copied(checksum, packed, info, currentOffset);
    var written := output.Tell();
    mapping := mapping[checksum := NewOffset(packed, written, m.writeLegacy)];
    ok := WriteInfo(output, m.writeLegacy, m.compression, info, m.z);
    SpliceAtEnd(out0, Emitted(info, m.writeLegacy, m.compression, m.z));
    var restored := input.Seek(currentOffset);
  }

  /** write_cache's loop: count entries from the input cursor. */
  method CopyEntries(input: File, output: File, m: CopyMode, count: int, mapping0: map<uint64, uint64>, ghost v: nat -> Visit)
      returns (mapping: map<uint64, uint64>)
    requires IsVisitsOf(v, input.bytes, m)
    requires input != output
    requires output.pos == |output.bytes|
    modifies input`pos, output
    ensures output.pos == |output.bytes|
    ensures Pass(input.pos, output.bytes, mapping) ==
            Iterate(v, m, Pass(old(input.pos), old(output.bytes), mapping0), if count > 0 then count else 0)
  {
    ghost var s := input.bytes;
    ghost var st0 := Pass(input.pos, output.bytes, mapping0);
    mapping := mapping0;
    var i: int := 0;
    while i < count
      invariant 0 <= i && (i <= count || i == 0)
      invariant input.bytes == s
      invariant output.pos == |output.bytes|
      invariant Pass(input.pos, output.bytes, mapping) == Iterate(v, m, st0, i)
    {
      mapping := CopyEntry(input, output, m, mapping, v);
      i := i + 1;
    }
  }

  /**
   * write_cache: copies every entry input's mapping table names to the end
   * of output and records its new offset in mapping.
   */
  method WriteCache(input: File, output: File, m: CopyMode, mapping0: map<uint64, uint64>) returns (mapping: map<uint64, uint64>)
    requires input != output
    requires output.pos == |output.bytes|
    modifies input`pos, output
    ensures output.pos == |output.bytes|
    ensures Pass(input.pos, output.bytes, mapping) == Run(input.bytes, m, Pass(old(input.pos), old(output.bytes), mapping0))
  {
    Pow256Widths();
    ghost var s := input.bytes;
    ghost var v := Visits(s, m);
    assert IsVisitsOf(v, s, m);
    var mappingOffset := input.Read64(MINUS_ONE_64);
    var seeked := input.Seek(Int64(mappingOffset));
    var mappingSize := input.Read32(MINUS_ONE_32);
    assert Prologue(s, old(input.pos)) == (if Int32(mappingSize) > 0 then Int32(mappingSize) else 0, input.pos);
    mapping := CopyEntries(input, output, m, Int32(mappingSize), mapping0, v);
  }

  // ---------------------------------------------------------------------
  // What write_cache's passes promise

  /** Every pass only appends to the output. */
  lemma {:induction false} IterateGrows(v: nat -> Visit, m: CopyMode, st: Pass, n: nat)
    ensures |st.out| <= |Iterate(v, m, st, n).out|
    ensures Iterate(v, m, st, n).out[..|st.out|] == st.out
  {
    if n > 0 {
      var prev := Iterate(v, m, st, n - 1);
      IterateGrows(v, m, st, n - 1);
      var next := Step(v, m, prev);
      assert next.out[..|prev.out|] == prev.out;
      assert next.out[..|st.out|] == next.out[..|prev.out|][..|st.out|];
    }
  }

  /**
   * The value stored for a record written at pos: a reader seeks to pos.
   * Legacy output stores pos as the whole 64-bit value; the current format
   * changes only the low 48 bits and keeps the input entry's 16-bit tag.
   */
  lemma NewOffsetTarget(packed: uint64, pos: nat, writeLegacy: bool)
    requires pos < TWO47
    ensures SeekTarget(NewOffset(packed, pos, writeLegacy)) == pos
    ensures writeLegacy ==> NewOffset(packed, pos, writeLegacy) == pos
    ensures !writeLegacy ==> TagBits(NewOffset(packed, pos, writeLegacy)) == TagBits(packed)
  {
    if !writeLegacy {
      SetOffsetKeepsTag(packed, pos);
    }
  }

  /**
   * An entry whose read_info fails changes neither the output nor the
   * mapping, and the next entry is read from where read_info stopped
   * rather than just past the entry.
   */
  lemma SkipKeepsState(s: seq<byte>, m: CopyMode, st: Pass)
    requires VisitAt(s, st.cursor, m.readLegacy, m.z).Skip?
    ensures Step(Visits(s, m), m, st).out == st.out
    ensures Step(Visits(s, m), m, st).mapping == st.mapping
    ensures Step(Visits(s, m), m, st).cursor ==
            Decode(s, StartOfRecord(s, st.cursor), m.readLegacy, m.z).1
  {
  }

  /** Where write_cache seeks for the entry at c: its 48-bit offset, unless negative. */
  function StartOfRecord(s: seq<byte>, c: nat): nat
  {
    Pow256Widths();
    var packed := FieldAt(s, ReadEnd(s, c, 8), 8, 0).0;
    if SeekTarget(packed) >= 0 then SeekTarget(packed) else ReadEnd(s, ReadEnd(s, c, 8), 8)
  }

  /** The checksums of the entries copied in the first n iterations. */
  function CopiedKeys(v: nat -> Visit, m: CopyMode, st: Pass, n: nat): set<uint64>
  {
    if n == 0 then {}
    else
      var e := v(Iterate(v, m, st, n - 1).cursor);
      CopiedKeys(v, m, st, n - 1) + (if e.Copied? then {e.checksum} else {})
  }

  /** The mapping gains exactly the checksums of the copied entries. */
  lemma {:induction false} IterateKeys(v: nat -> Visit, m: CopyMode, st: Pass, n: nat)
    ensures Iterate(v, m, st, n).mapping.Keys == st.mapping.Keys + CopiedKeys(v, m, st, n)
  {
    if n > 0 {
      IterateKeys(v, m, st, n - 1);
    }
  }

  /**
   * A pass treats the mapping it starts from as a default: the output and
   * cursor do not depend on it, and its entries survive only where the
   * pass copies no entry with that checksum.
   */
  lemma {:induction false} IterateOverrides(v: nat -> Visit, m: CopyMode, c: nat, out: seq<byte>, mp: map<uint64, uint64>, n: nat)
    ensures Iterate(v, m, Pass(c, out, mp), n).cursor == Iterate(v, m, Pass(c, out, map[]), n).cursor
    ensures Iterate(v, m, Pass(c, out, mp), n).out == Iterate(v, m, Pass(c, out, map[]), n).out
    ensures Iterate(v, m, Pass(c, out, mp), n).mapping == mp + Iterate(v, m, Pass(c, out, map[]), n).mapping
  {
    if n > 0 {
      IterateOverrides(v, m, c, out, mp, n - 1);
      var a := Iterate(v, m, Pass(c, out, mp), n - 1);
      var b := Iterate(v, m, Pass(c, out, map[]), n - 1);
      var e := v(a.cursor);
      if e.Copied? {
        var x := NewOffset(e.packed, |a.out|, m.writeLegacy);
        assert a.mapping[e.checksum := x] == mp + b.mapping[e.checksum := x];
      }
    }
  }

  /** The record a copied entry leaves in the output: the one write_info prepared. */
  function Written(info: Record, m: CopyMode): Record
  {
    match Prepare(info, m.compression, m.z)
    case Some(w) => w
    case None => info
  }

  /** No compress2 failure in the first n iterations. */
  ghost predicate IterateWrites(v: nat -> Visit, m: CopyMode, st: Pass, n: nat)
  {
    n == 0 ||
      (IterateWrites(v, m, st, n - 1) &&
       var e := v(Iterate(v, m, st, n - 1).cursor);
       e.Copied? ==> Prepare(e.info, m.compression, m.z).Some?)
  }

  /** Without compression every record is written whole. */
  lemma {:induction false} PlainIterateWrites(v: nat -> Visit, m: CopyMode, st: Pass, n: nat)
    requires !m.compression
    ensures IterateWrites(v, m, st, n)
  {
    if n > 0 {
      PlainIterateWrites(v, m, st, n - 1);
    }
  }

  /** The record each mapped checksum should lead to, after n iterations. */
  ghost function Records(v: nat -> Visit, m: CopyMode, st: Pass, recs: map<uint64, Record>, n: nat): map<uint64, Record>
  {
    if n == 0 then recs
    else
      var e := v(Iterate(v, m, st, n - 1).cursor);
      var r := Records(v, m, st, recs, n - 1);
      if e.Copied? then r[e.checksum := Written(e.info, m)] else r
  }

  /** The bytes e lie in out from position q on. */
  ghost predicate Placed(out: seq<byte>, q: int, e: seq<byte>)
  {
    0 <= q && q + |e| <= |out| && out[q..q + |e|] == e
  }

  /**
   * Every mapped checksum's offset, read back as a reader seeks with it,
   * lies at or after lo and holds the encoding of the record recs gives
   * for that checksum.
   */
  ghost predicate Resolves(out: seq<byte>, mapping: map<uint64, uint64>, recs: map<uint64, Record>, legacy: bool, lo: nat)
  {
    && mapping.Keys == recs.Keys
    && forall k :: k in mapping ==>
         lo <= SeekTarget(mapping[k]) && Placed(out, SeekTarget(mapping[k]), Encode(recs[k], legacy))
  }

  /** Bytes placed in out stay placed after more bytes are appended. */
  lemma PlacedAppend(out: seq<byte>, more: seq<byte>, q: int, e: seq<byte>)
    requires Placed(out, q, e)
    ensures Placed(out + more, q, e)
  {
    assert (out + more)[q..q + |e|] == out[q..q + |e|];
  }

  /** Records that resolve in out still resolve after more bytes are appended. */
  lemma ResolvesAppend(out: seq<byte>, more: seq<byte>, mapping: map<uint64, uint64>, recs: map<uint64, Record>, legacy: bool, lo: nat)
    requires Resolves(out, mapping, recs, legacy, lo)
    ensures Resolves(out + more, mapping, recs, legacy, lo)
  {
    forall k | k in mapping
      ensures Placed(out + more, SeekTarget(mapping[k]), Encode(recs[k], legacy))
    {
      PlacedAppend(out, more, SeekTarget(mapping[k]), Encode(recs[k], legacy));
    }
  }

  /** Mapping k to a placed record keeps the other records resolvable. */
  lemma ResolvesUpdate(out: seq<byte>, mapping: map<uint64, uint64>, recs: map<uint64, Record>, legacy: bool, lo: nat,
                       k: uint64, x: uint64, r: Record)
    requires Resolves(out, mapping, recs, legacy, lo)
    requires lo <= SeekTarget(x) && Placed(out, SeekTarget(x), Encode(r, legacy))
    ensures Resolves(out, mapping[k := x], recs[k := r], legacy, lo)
  {
    var mp, rs := mapping[k := x], recs[k := r];
    forall j | j in mp
      ensures lo <= SeekTarget(mp[j]) && Placed(out, SeekTarget(mp[j]), Encode(rs[j], legacy))
    {
      if j != k {
        assert mp[j] == mapping[j] && rs[j] == recs[j];
      }
    }
  }

  /** One iteration keeps every mapped record resolvable and adds the copied one. */
  lemma StepResolves(e: Visit, m: CopyMode, st: Pass, recs: map<uint64, Record>, lo: nat)
    requires Resolves(st.out, st.mapping, recs, m.writeLegacy, lo)
    requires e.Copied? ==> Prepare(e.info, m.compression, m.z).Some?
    requires lo <= |st.out| < TWO47
    ensures Resolves(Step(_ => e, m, st).out, Step(_ => e, m, st).mapping,
                     if e.Copied? then recs[e.checksum := Written(e.info, m)] else recs,
                     m.writeLegacy, lo)
  {
    if e.Copied? {
      var w := Written(e.info, m);
      var bytes := Encode(w, m.writeLegacy);
      var x := NewOffset(e.packed, |st.out|, m.writeLegacy);
      assert Step(_ => e, m, st) == Pass(e.resume, st.out + bytes, st.mapping[e.checksum := x]);
      ResolvesAppend(st.out, bytes, st.mapping, recs, m.writeLegacy, lo);
      NewOffsetTarget(e.packed, |st.out|, m.writeLegacy);
      assert (st.out + bytes)[|st.out|..|st.out| + |bytes|] == bytes;
      ResolvesUpdate(st.out + bytes, st.mapping, recs, m.writeLegacy, lo, e.checksum, x, w);
    }
  }

  /** Records resolve after n iterations when every write succeeds and the output stays below 2^47 bytes. */
  lemma {:induction false} IterateResolves(v: nat -> Visit, m: CopyMode, st: Pass, recs: map<uint64, Record>, lo: nat, n: nat)
    requires Resolves(st.out, st.mapping, recs, m.writeLegacy, lo) && lo <= |st.out|
    requires IterateWrites(v, m, st, n)
    requires |Iterate(v, m, st, n).out| < TWO47
    ensures Resolves(Iterate(v, m, st, n).out, Iterate(v, m, st, n).mapping, Records(v, m, st, recs, n), m.writeLegacy, lo)
  {
    if n > 0 {
      var prev := Iterate(v, m, st, n - 1);
      var e := v(prev.cursor);
      IterateGrows(v, m, st, n - 1);
      assert Step(v, m, prev) == Step(_ => e, m, prev);
      IterateResolves(v, m, st, recs, lo, n - 1);
      StepResolves(e, m, prev, Records(v, m, st, recs, n - 1), lo);
    }
  }

  // ---------------------------------------------------------------------
  // main: header, both passes, mapping table, backpatch

  /** What main learns from the two headers. */
  datatype Plan = Plan(legacy: bool, compression: bool, startA: nat, startB: nat)

  /**
   * main's checks: A's header, then B's (only when A's passes), then equal
   * formats. Compression follows A's marker alone.
   */
  function MergePlan(sa: seq<byte>, sb: seq<byte>): (r: Option<Plan>)
    ensures r.Some? ==> KnownMarker(HeaderAt(sa, 0).marker) && KnownMarker(HeaderAt(sb, 0).marker)
    ensures r.Some? ==> r.value.legacy == HeaderAt(sa, 0).legacy == HeaderAt(sb, 0).legacy
    ensures r.Some? ==> (r.value.compression <==> HeaderAt(sa, 0).marker == MARKER_GZ)
    ensures r.None? ==> !KnownMarker(HeaderAt(sa, 0).marker) || !KnownMarker(HeaderAt(sb, 0).marker)
                        || HeaderAt(sa, 0).legacy != HeaderAt(sb, 0).legacy
  {
    var ha := HeaderAt(sa, 0);
    if !KnownMarker(ha.marker) then None
    else
      var hb := HeaderAt(sb, 0);
      if !KnownMarker(hb.marker) || hb.legacy != ha.legacy then None
      else Some(Plan(ha.legacy, ha.marker == MARKER_GZ, ha.end, hb.end))
  }

  /** Both inputs are copied alike: read and written in the shared format. */
  function ModeOf(plan: Plan, z: Zlib.Codec): CopyMode
  {
    CopyMode(plan.legacy, plan.legacy, plan.compression, z)
  }

  /** After the header and the pass over A. */
  function PassA(sa: seq<byte>, plan: Plan, z: Zlib.Codec): Pass
  {
    Run(sa, ModeOf(plan, z), Pass(plan.startA, HeaderBytes(plan.legacy, plan.compression), map[]))
  }

  /** After the pass over B, which continues A's output and mapping. */
  function PassB(sa: seq<byte>, sb: seq<byte>, plan: Plan, z: Zlib.Codec): Pass
  {
    var a := PassA(sa, plan, z);
    Run(sb, ModeOf(plan, z), Pass(plan.startB, a.out, a.mapping))
  }

  /** order lists each key exactly once. */
  ghost predicate IsEnumeration(order: seq<uint64>, keys: set<uint64>)
  {
    && (forall i, j :: 0 <= i < j < |order| ==> order[i] != order[j])
    && (forall k :: k in order <==> k in keys)
  }

  /** The (checksum, offset) pairs in the given order, 16 bytes each. */
  function Pairs(mapping: map<uint64, uint64>, order: seq<uint64>): (r: seq<byte>)
    requires forall k :: k in order ==> k in mapping
    ensures |r| == 16 * |order|
  {
    Pow256Widths();
    if order == [] then []
    else
      var k := order[|order| - 1];
      Pairs(mapping, order[..|order| - 1]) + LE(k, 8) + LE(mapping[k], 8)
  }

  /** Listing one more key appends its pair. */
  lemma PairsSnoc(mapping: map<uint64, uint64>, order: seq<uint64>, k: uint64)
    requires forall j :: j in order ==> j in mapping
    requires k in mapping
    ensures Pairs(mapping, order + [k]) == Pairs(mapping, order) + LE(k, 8) + LE(mapping[k], 8)
  {
    assert (order + [k])[..|order|] == order;
  }

  /** The mapping table: the int32 entry count, then the pairs. */
  function TableBytes(mapping: map<uint64, uint64>, order: seq<uint64>): (r: seq<byte>)
    requires forall k :: k in order ==> k in mapping
    ensures |r| == 4 + 16 * |order|
  {
    Pow256Widths();
    LE(|mapping| % TWO32, 4) + Pairs(mapping, order)
  }

  lemma AppendAssoc3(a: seq<byte>, b: seq<byte>, c: seq<byte>)
    ensures a + b + c == a + (b + c)
  {
  }

  lemma AppendAssoc(a: seq<byte>, b: seq<byte>, c: seq<byte>, d: seq<byte>)
    ensures a + b + c + d == a + (b + c + d)
  {
  }

  /** FWRITE(m.first); FWRITE(m.second._data) at the end of out. */
  method WritePair(out: File, k: uint64, x: uint64)
    requires out.pos == |out.bytes|
    modifies out
    ensures out.bytes == old(out.bytes) + LE(k, 8) + LE(x, 8)
    ensures out.pos == |out.bytes|
  {
    Pow256Widths();
    SpliceAtEnd(out.bytes, LE(k, 8));
    out.Write(LE(k, 8));
    SpliceAtEnd(out.bytes, LE(x, 8));
    out.Write(LE(x, 8));
  }

  /** Partway through listing keys: order so far, each once, and the keys still to list. */
  ghost predicate Listed(order: seq<uint64>, remaining: set<uint64>, keys: set<uint64>)
  {
    && (forall i, j :: 0 <= i < j < |order| ==> order[i] != order[j])
    && (forall k :: k in order ==> k in keys && k !in remaining)
    && (forall k :: k in keys ==> k in order || k in remaining)
    && remaining <= keys
  }

  /** Listing one more remaining key keeps the listing consistent. */
  lemma ListedStep(order: seq<uint64>, remaining: set<uint64>, keys: set<uint64>, k: uint64)
    requires Listed(order, remaining, keys) && k in remaining
    ensures Listed(order + [k], remaining - {k}, keys)
  {
    var o := order + [k];
    forall i, j | 0 <= i < j < |o|
      ensures o[i] != o[j]
    {
      if j == |order| {
        assert o[i] == order[i];
        assert order[i] in order;
      }
    }
  }

  /** With nothing left to list, the listing is an enumeration of the keys. */
  lemma ListedDone(order: seq<uint64>, keys: set<uint64>)
    requires Listed(order, {}, keys)
    ensures IsEnumeration(order, keys)
  {
  }

  /** Writes the pair of one more key after the pairs already written. */
  method AppendPair(out: File, mapping: map<uint64, uint64>, order: seq<uint64>, k: uint64, ghost head: seq<byte>)
    requires forall j :: j in order ==> j in mapping
    requires k in mapping
    requires out.pos == |out.bytes| && out.bytes == head + Pairs(mapping, order)
    modifies out
    ensures out.pos == |out.bytes| && out.bytes == head + Pairs(mapping, order + [k])
  {
    WritePair(out, k, mapping[k]);
    PairsSnoc(mapping, order, k);
    AppendAssoc(head, Pairs(mapping, order), LE(k, 8), LE(mapping[k], 8));
  }

  /** Writes the mapping table at the end of out, in the map's iteration order. */
  method WriteTable(out: File, mapping: map<uint64, uint64>) returns (order: seq<uint64>)
    requires out.pos == |out.bytes|
    modifies out
    ensures IsEnumeration(order, mapping.Keys)
    ensures out.bytes == old(out.bytes) + TableBytes(mapping, order)
    ensures out.pos == |out.bytes|
  {
    Pow256Widths();
    var count := |mapping| % TWO32;
    ghost var start := out.bytes;
    ghost var head := out.bytes + LE(count, 4);
    SpliceAtEnd(out.bytes, LE(count, 4));
    out.Write(LE(count, 4));
    var remaining := mapping.Keys;
    order := [];
    while remaining != {}
      invariant Listed(order, remaining, mapping.Keys)
      invariant out.pos == |out.bytes|
      invariant out.bytes == head + Pairs(mapping, order)
      decreases |remaining|
    {
      var k :| k in remaining;
      AppendPair(out, mapping, order, k, head);
      ListedStep(order, remaining, mapping.Keys, k);
      order := order + [k];
      remaining := remaining - {k};
    }
    ListedDone(order, mapping.Keys);
    AppendAssoc3(start, LE(count, 4), Pairs(mapping, order));
  }

  /**
   * The output file of a successful run: the header, A's and B's records,
   * the table at the end, and the table's offset backpatched over the
   * placeholder after the marker.
   */
  function MergedFile(b: Pass, legacy: bool, order: seq<uint64>): seq<byte>
    requires forall k :: k in order ==> k in b.mapping
  {
    Patched(b.out, TableBytes(b.mapping, order), legacy)
  }

  /**
   * The records in out followed by the table, with the table's offset
   * written over the 8 bytes after the marker.
   */
  function Patched(out: seq<byte>, table: seq<byte>, legacy: bool): seq<byte>
  {
    Pow256Widths();
    Splice(out + table, HeaderLen(legacy), LE(|out| % TWO64, 8))
  }

  /** The header writes at the start of the empty output. */
  method WriteHeader(out: File, legacy: bool, compression: bool)
    requires out.bytes == [] && out.pos == 0
    modifies out
    ensures out.bytes == HeaderBytes(legacy, compression)
    ensures out.pos == |out.bytes|
  {
    Pow256Widths();
    if !legacy {
      SpliceAtEnd(out.bytes, LE(TXCACHE_FORMAT_VERSION, 4));
      out.Write(LE(TXCACHE_FORMAT_VERSION, 4));
    }
    SpliceAtEnd(out.bytes, LE(MarkerFor(compression), 4));
    out.Write(LE(MarkerFor(compression), 4));
    SpliceAtEnd(out.bytes, LE(0, 8));
    out.Write(LE(0, 8));
  }

  /**
   * main after its argument checks: out was just created empty. Exit code 1
   * leaves it empty; code 0 leaves the merged file, whose table lists the
   * final mapping in the returned order.
   */
  method Merge(fa: File, fb: File, out: File, z: Zlib.Codec) returns (code: int, order: seq<uint64>)
    requires fa != out && fb != out && fa != fb
    requires fa.pos == 0 && fb.pos == 0 && out.bytes == [] && out.pos == 0
    modifies fa`pos, fb`pos, out
    ensures code == 0 || code == 1
    ensures code == 0 <==> MergePlan(fa.bytes, fb.bytes).Some?
    ensures code == 1 ==> out.bytes == []
    ensures code == 0 ==>
      && IsEnumeration(order, PassB(fa.bytes, fb.bytes, MergePlan(fa.bytes, fb.bytes).value, z).mapping.Keys)
      && out.bytes == MergedFile(PassB(fa.bytes, fb.bytes, MergePlan(fa.bytes, fb.bytes).value, z),
                                 MergePlan(fa.bytes, fb.bytes).value.legacy, order)
  {
    Pow256Widths();
    ghost var sa, sb := fa.bytes, fb.bytes;
    order := [];
    var okA, legacy, compression := CheckHeader(fa);
    if !okA {
      return 1, order;
    }
    var okB, legacyB, compressionB := CheckHeader(fb);
    if !okB {
      return 1, order;
    }
    if legacy != legacyB {
      return 1, order;
    }
    ghost var plan := Plan(legacy, compression, fa.pos, fb.pos);
    assert MergePlan(sa, sb) == Some(plan);
    WriteHeader(out, legacy, compression);
    var mode := CopyMode(legacy, legacy, compression, z);
    var mapping := WriteCache(fa, out, mode, map[]);
    assert Pass(fa.pos, out.bytes, mapping) == PassA(sa, plan, z);
    mapping := WriteCache(fb, out, mode, mapping);
    assert Pass(fb.pos, out.bytes, mapping) == PassB(sa, sb, plan, z);
    var mappingOffset := out.Tell();
    order := WriteTable(out, mapping);
    var seeked := out.Seek(HeaderLen(legacy));
    out.Write(LE(mappingOffset % TWO64, 8));
    code := 0;
  }

  // ---------------------------------------------------------------------
  // Reading the merged file back

  /** The three parts of a concatenation, sliced back out. */
  lemma ConcatParts(p: seq<byte>, a: seq<byte>, b: seq<byte>, i: nat, j: nat)
    requires i <= j <= |p|
    ensures (p + a + b)[i..j] == p[i..j]
    ensures (p + a + b)[|p|..|p| + |a|] == a
    ensures (p + a + b)[|p| + |a|..|p| + |a| + |b|] == b
  {
  }

  /** Pair i of the table holds the i-th key and its mapping value. */
  lemma {:induction false} PairsAt(mapping: map<uint64, uint64>, order: seq<uint64>, i: nat)
    requires forall k :: k in order ==> k in mapping
    requires i < |order|
    ensures Pairs(mapping, order)[16 * i..16 * i + 8] == LE(order[i], 8)
    ensures Pairs(mapping, order)[16 * i + 8..16 * i + 16] == LE(mapping[order[i]], 8)
  {
    Pow256Widths();
    var n := |order|;
    var pre := order[..n - 1];
    var p := Pairs(mapping, pre);
    var x := LE(order[n - 1], 8);
    var y := LE(mapping[order[n - 1]], 8);
    assert Pairs(mapping, order) == p + x + y;
    if i < n - 1 {
      PairsAt(mapping, pre, i);
      ConcatParts(p, x, y, 16 * i, 16 * i + 8);
      ConcatParts(p, x, y, 16 * i + 8, 16 * i + 16);
      assert pre[i] == order[i];
    } else {
      ConcatParts(p, x, y, 0, 0);
    }
  }

  /** An enumeration of a set lists as many keys as the set has. */
  lemma {:induction false} EnumerationSize(order: seq<uint64>, keys: set<uint64>)
    requires IsEnumeration(order, keys)
    ensures |order| == |keys|
  {
    if order == [] {
      assert forall k :: k !in keys;
      assert keys == {};
    } else {
      var n := |order|;
      var last := order[n - 1];
      var pre := order[..n - 1];
      forall k
        ensures k in pre <==> k in keys - {last}
      {
        if k in pre {
          var i :| 0 <= i < n - 1 && pre[i] == k;
          assert order[i] == k;
        }
        if k in order && k != last {
          var i :| 0 <= i < n && order[i] == k;
          assert pre[i] == k;
        }
      }
      EnumerationSize(pre, keys - {last});
    }
  }

  /** The table's layout: the count word, then pair i at 4 + 16i. */
  lemma TableLayout(mapping: map<uint64, uint64>, order: seq<uint64>)
    requires forall k :: k in order ==> k in mapping
    ensures TableBytes(mapping, order)[0..4] == LE(|mapping| % TWO32, 4)
    ensures forall i :: 0 <= i < |order| ==>
      && TableBytes(mapping, order)[4 + 16 * i..4 + 16 * i + 8] == LE(order[i], 8)
      && TableBytes(mapping, order)[4 + 16 * i + 8..4 + 16 * i + 16] == LE(mapping[order[i]], 8)
  {
    Pow256Widths();
    var c := LE(|mapping| % TWO32, 4);
    var pairs := Pairs(mapping, order);
    assert TableBytes(mapping, order) == c + pairs;
    ConcatParts(c, pairs, [], 0, 0);
    forall i | 0 <= i < |order|
      ensures TableBytes(mapping, order)[4 + 16 * i..4 + 16 * i + 8] == LE(order[i], 8)
      ensures TableBytes(mapping, order)[4 + 16 * i + 8..4 + 16 * i + 16] == LE(mapping[order[i]], 8)
    {
      PairsAt(mapping, order, i);
      SliceOfSlice(c + pairs, 4, pairs, 16 * i, 16 * i + 8);
      SliceOfSlice(c + pairs, 4, pairs, 16 * i + 8, 16 * i + 16);
    }
  }

  /** A k-byte field inside bytes e placed at t reads as the value it encodes. */
  lemma FieldInPlaced(f: seq<byte>, t: nat, e: seq<byte>, a: nat, x: nat, k: nat)
    requires x < Pow256(k)
    requires Placed(f, t, e)
    requires a + k <= |e| && e[a..a + k] == LE(x, k)
    ensures FieldAt(f, t + a, k, 0).0 == x
  {
    SliceOfSlice(f, t, e, a, a + k);
    FieldAtEncoded(f, t + a, x, k, 0);
  }

  /**
   * A table laid out at t reads back: the entry count, then for each i the
   * i-th checksum and its offset at t + 4 + 16i.
   */
  lemma TableReadBack(f: seq<byte>, t: nat, mapping: map<uint64, uint64>, order: seq<uint64>)
    requires forall k :: k in order ==> k in mapping
    requires Placed(f, t, TableBytes(mapping, order))
    ensures FieldAt(f, t, 4, 0).0 == |mapping| % TWO32
    ensures forall i :: 0 <= i < |order| ==>
      FieldAt(f, t + 4 + 16 * i, 8, 0).0 == order[i] && FieldAt(f, t + 12 + 16 * i, 8, 0).0 == mapping[order[i]]
  {
    Pow256Widths();
    var table := TableBytes(mapping, order);
    TableLayout(mapping, order);
    FieldInPlaced(f, t, table, 0, |mapping| % TWO32, 4);
    forall i | 0 <= i < |order|
      ensures FieldAt(f, t + 4 + 16 * i, 8, 0).0 == order[i]
      ensures FieldAt(f, t + 12 + 16 * i, 8, 0).0 == mapping[order[i]]
    {
      FieldInPlaced(f, t, table, 4 + 16 * i, order[i], 8);
      FieldInPlaced(f, t, table, 4 + 16 * i + 8, mapping[order[i]], 8);
    }
  }

  /** The records of a whole write_cache call, as Records gives them. */
  ghost function RunRecords(s: seq<byte>, m: CopyMode, st: Pass, recs: map<uint64, Record>): map<uint64, Record>
  {
    var (count, c) := Prologue(s, st.cursor);
    Records(Visits(s, m), m, st.(cursor := c), recs, count)
  }

  /** No compress2 failure in a whole write_cache call. */
  ghost predicate RunWrites(s: seq<byte>, m: CopyMode, st: Pass)
  {
    var (count, c) := Prologue(s, st.cursor);
    IterateWrites(Visits(s, m), m, st.(cursor := c), count)
  }

  /** The checksums a whole write_cache call copies. */
  function RunCopied(s: seq<byte>, m: CopyMode, st: Pass): set<uint64>
  {
    var (count, c) := Prologue(s, st.cursor);
    CopiedKeys(Visits(s, m), m, st.(cursor := c), count)
  }

  /** A whole write_cache call: the output grows, and mapped records stay resolvable. */
  lemma RunResolves(s: seq<byte>, m: CopyMode, st: Pass, recs: map<uint64, Record>, lo: nat)
    requires Resolves(st.out, st.mapping, recs, m.writeLegacy, lo) && lo <= |st.out|
    requires RunWrites(s, m, st)
    requires |Run(s, m, st).out| < TWO47
    ensures |st.out| <= |Run(s, m, st).out| && Run(s, m, st).out[..|st.out|] == st.out
    ensures Resolves(Run(s, m, st).out, Run(s, m, st).mapping, RunRecords(s, m, st, recs), m.writeLegacy, lo)
  {
    var (count, c) := Prologue(s, st.cursor);
    IterateGrows(Visits(s, m), m, st.(cursor := c), count);
    IterateResolves(Visits(s, m), m, st.(cursor := c), recs, lo, count);
  }

  /** The record each checksum of the merged mapping leads to. */
  ghost function MergedRecords(sa: seq<byte>, sb: seq<byte>, plan: Plan, z: Zlib.Codec): map<uint64, Record>
  {
    var a := PassA(sa, plan, z);
    var recsA := RunRecords(sa, ModeOf(plan, z), Pass(plan.startA, HeaderBytes(plan.legacy, plan.compression), map[]), map[]);
    RunRecords(sb, ModeOf(plan, z), Pass(plan.startB, a.out, a.mapping), recsA)
  }

  /** No compress2 failure while merging. */
  ghost predicate MergeWrites(sa: seq<byte>, sb: seq<byte>, plan: Plan, z: Zlib.Codec)
  {
    var a := PassA(sa, plan, z);
    && RunWrites(sa, ModeOf(plan, z), Pass(plan.startA, HeaderBytes(plan.legacy, plan.compression), map[]))
    && RunWrites(sb, ModeOf(plan, z), Pass(plan.startB, a.out, a.mapping))
  }

  /** Both passes only append: the merged output starts with the header. */
  lemma MergeKeepsHeader(sa: seq<byte>, sb: seq<byte>, plan: Plan, z: Zlib.Codec)
    ensures var hb := HeaderBytes(plan.legacy, plan.compression);
      |hb| <= |PassB(sa, sb, plan, z).out| && PassB(sa, sb, plan, z).out[..|hb|] == hb
  {
    var m := ModeOf(plan, z);
    var hb := HeaderBytes(plan.legacy, plan.compression);
    var a := PassA(sa, plan, z);
    var b := PassB(sa, sb, plan, z);
    RunGrows(sa, m, Pass(plan.startA, hb, map[]));
    RunGrows(sb, m, Pass(plan.startB, a.out, a.mapping));
    assert b.out[..|hb|] == b.out[..|a.out|][..|hb|];
  }

  /** The merged output holds at least the header. */
  lemma MergeCoversHeader(sa: seq<byte>, sb: seq<byte>, plan: Plan, z: Zlib.Codec)
    ensures HeaderLen(plan.legacy) + 8 <= |PassB(sa, sb, plan, z).out|
  {
    MergeKeepsHeader(sa, sb, plan, z);
  }

  /** Both passes: the merged mapping resolves to the records written for it. */
  lemma MergeResolves(sa: seq<byte>, sb: seq<byte>, plan: Plan, z: Zlib.Codec)
    requires MergeWrites(sa, sb, plan, z)
    requires |PassB(sa, sb, plan, z).out| < TWO47
    ensures Resolves(PassB(sa, sb, plan, z).out, PassB(sa, sb, plan, z).mapping, MergedRecords(sa, sb, plan, z),
                     plan.legacy, HeaderLen(plan.legacy) + 8)
  {
    var m := ModeOf(plan, z);
    var hb := HeaderBytes(plan.legacy, plan.compression);
    var st := Pass(plan.startA, hb, map[]);
    var a := PassA(sa, plan, z);
    var stb := Pass(plan.startB, a.out, a.mapping);
    var lo := HeaderLen(plan.legacy) + 8;
    RunGrows(sb, m, stb);
    assert Resolves(hb, map[], map[], plan.legacy, lo);
    RunResolves(sa, m, st, map[], lo);
    RunResolves(sb, m, stb, RunRecords(sa, m, st, map[]), lo);
  }

  /** A whole write_cache call only appends to the output. */
  lemma RunGrows(s: seq<byte>, m: CopyMode, st: Pass)
    ensures |st.out| <= |Run(s, m, st).out| && Run(s, m, st).out[..|st.out|] == st.out
  {
    var (count, c) := Prologue(s, st.cursor);
    IterateGrows(Visits(s, m), m, st.(cursor := c), count);
  }

  /** The same, for a whole write_cache call. */
  lemma RunOverrides(s: seq<byte>, m: CopyMode, c: nat, out: seq<byte>, mp: map<uint64, uint64>)
    ensures Run(s, m, Pass(c, out, mp)).out == Run(s, m, Pass(c, out, map[])).out
    ensures Run(s, m, Pass(c, out, mp)).mapping == mp + Run(s, m, Pass(c, out, map[])).mapping
  {
    var (count, c1) := Prologue(s, c);
    IterateOverrides(Visits(s, m), m, c1, out, mp, count);
  }

  /** The merged mapping holds exactly the checksums copied from A or from B. */
  lemma MergedKeys(sa: seq<byte>, sb: seq<byte>, plan: Plan, z: Zlib.Codec)
    ensures PassB(sa, sb, plan, z).mapping.Keys ==
            RunCopied(sa, ModeOf(plan, z), Pass(plan.startA, HeaderBytes(plan.legacy, plan.compression), map[]))
            + RunCopied(sb, ModeOf(plan, z), Pass(plan.startB, PassA(sa, plan, z).out, PassA(sa, plan, z).mapping))
  {
    var m := ModeOf(plan, z);
    var sta := Pass(plan.startA, HeaderBytes(plan.legacy, plan.compression), map[]);
    var a := PassA(sa, plan, z);
    var stb := Pass(plan.startB, a.out, a.mapping);
    var (ca, pa) := Prologue(sa, sta.cursor);
    var (cb, pb) := Prologue(sb, stb.cursor);
    IterateKeys(Visits(sa, m), m, sta.(cursor := pa), ca);
    IterateKeys(Visits(sb, m), m, stb.(cursor := pb), cb);
  }

  /**
   * The later input wins: the merged mapping is A's mapping overridden by
   * the mapping B's pass would build on its own, so a checksum in both
   * inputs maps to B's copy.
   */
  lemma MergeOverrides(sa: seq<byte>, sb: seq<byte>, plan: Plan, z: Zlib.Codec)
    ensures PassB(sa, sb, plan, z).mapping ==
            PassA(sa, plan, z).mapping + Run(sb, ModeOf(plan, z), Pass(plan.startB, PassA(sa, plan, z).out, map[])).mapping
  {
    var a := PassA(sa, plan, z);
    RunOverrides(sb, ModeOf(plan, z), plan.startB, a.out, a.mapping);
  }

  /** Bytes placed in out past lo stay placed in a file agreeing with out from lo on. */
  lemma PlacedSame(out: seq<byte>, f: seq<byte>, q: nat, e: seq<byte>, lo: nat)
    requires Placed(out, q, e) && lo <= q
    requires |out| <= |f| && f[lo..|out|] == out[lo..]
    ensures Placed(f, q, e)
  {
    assert out[lo..] == out[lo..|out|];
    SameWindow(out, f, lo, |out|, q, q + |e|);
  }

  /** Every mapped record decodes from a file that agrees with out from lo on. */
  lemma RecordsReadBack(out: seq<byte>, f: seq<byte>, mapping: map<uint64, uint64>, recs: map<uint64, Record>, legacy: bool, lo: nat)
    requires Resolves(out, mapping, recs, legacy, lo)
    requires lo <= |out| <= |f| && f[lo..|out|] == out[lo..]
    ensures forall k :: k in mapping ==>
      lo <= SeekTarget(mapping[k]) && DecodeRaw(f, SeekTarget(mapping[k]) as nat, legacy).0 == Some(Stored(recs[k], legacy))
  {
    forall k | k in mapping
      ensures DecodeRaw(f, SeekTarget(mapping[k]) as nat, legacy).0 == Some(Stored(recs[k], legacy))
    {
      var q := SeekTarget(mapping[k]) as nat;
      PlacedSame(out, f, q, Encode(recs[k], legacy), lo);
      DecodeEncoded(f, q, recs[k], legacy);
    }
  }

  /** The backpatch changes only the 8 bytes at h. */
  lemma PatchAgrees(body: seq<byte>, h: nat, patch: seq<byte>, a: nat, b: nat)
    requires a <= b <= |body| && h + |patch| <= |body|
    requires b <= h || h + |patch| <= a
    ensures Splice(body, h, patch)[a..b] == body[a..b]
  {
    var f := Splice(body, h, patch);
    SpliceElsewhere(body, h, patch);
    assert forall i :: a <= i < b ==> f[i] == body[i];
  }

  /** The patched file starts with a header check_header accepts. */
  lemma PatchedHeader(out: seq<byte>, table: seq<byte>, legacy: bool, compression: bool)
    requires |HeaderBytes(legacy, compression)| <= |out|
    requires out[..HeaderLen(legacy)] == HeaderBytes(legacy, compression)[..HeaderLen(legacy)]
    ensures HeaderAt(Patched(out, table, legacy), 0) == Header(legacy, MarkerFor(compression), HeaderLen(legacy))
  {
    Pow256Widths();
    var h := HeaderLen(legacy);
    var f := Patched(out, table, legacy);
    PatchAgrees(out + table, h, LE(|out| % TWO64, 8), 0, h);
    assert (out + table)[..h] == out[..h];
    assert f[..h] == f[0..h];
    HeaderRoundTrip(f, legacy, compression);
  }

  /** The patched offset field holds where the table starts. */
  lemma PatchedOffset(out: seq<byte>, table: seq<byte>, legacy: bool)
    requires HeaderLen(legacy) + 8 <= |out| < TWO47
    ensures FieldAt(Patched(out, table, legacy), HeaderLen(legacy), 8, 0).0 == |out|
  {
    Pow256Widths();
    var f := Patched(out, table, legacy);
    SmallMod(|out|, TWO64);
    assert f[HeaderLen(legacy)..HeaderLen(legacy) + 8] == LE(|out| % TWO64, 8);
    FieldAtEncoded(f, HeaderLen(legacy), |out|, 8, 0);
  }

  lemma SmallMod(x: nat, n: nat)
    requires x < n
    ensures x % n == x
  {
  }

  /** The table sits unchanged at the end of the patched file. */
  lemma PatchedTable(out: seq<byte>, table: seq<byte>, legacy: bool)
    requires HeaderLen(legacy) + 8 <= |out|
    ensures Placed(Patched(out, table, legacy), |out|, table)
  {
    Pow256Widths();
    PatchAgrees(out + table, HeaderLen(legacy), LE(|out| % TWO64, 8), |out|, |out| + |table|);
    assert (out + table)[|out|..|out| + |table|] == table;
  }

  /** Past the offset field, the records of out are unchanged in the patched file. */
  lemma PatchedRecords(out: seq<byte>, table: seq<byte>, legacy: bool)
    requires HeaderLen(legacy) + 8 <= |out|
    ensures |out| <= |Patched(out, table, legacy)|
    ensures Patched(out, table, legacy)[HeaderLen(legacy) + 8..|out|] == out[HeaderLen(legacy) + 8..]
  {
    Pow256Widths();
    PatchAgrees(out + table, HeaderLen(legacy), LE(|out| % TWO64, 8), HeaderLen(legacy) + 8, |out|);
    assert (out + table)[HeaderLen(legacy) + 8..|out|] == out[HeaderLen(legacy) + 8..];
  }

  /**
   * A merged file whose records and table end before 2^47 bytes and whose
   * records start with the header passes check_header with the header's
   * format and compression, and its mapping offset points at the table
   * just past the records. Whatever placeholder the offset field held
   * before the backpatch does not matter.
   */
  lemma MergedHeaderReadsBack(b: Pass, legacy: bool, compression: bool, order: seq<uint64>)
    requires forall k :: k in order ==> k in b.mapping
    requires |HeaderBytes(legacy, compression)| <= |b.out| < TWO47
    requires b.out[..HeaderLen(legacy)] == HeaderBytes(legacy, compression)[..HeaderLen(legacy)]
    ensures HeaderAt(MergedFile(b, legacy, order), 0) == Header(legacy, MarkerFor(compression), HeaderLen(legacy))
    ensures FieldAt(MergedFile(b, legacy, order), HeaderLen(legacy), 8, 0).0 == |b.out|
  {
    var table := TableBytes(b.mapping, order);
    PatchedHeader(b.out, table, legacy, compression);
    PatchedOffset(b.out, table, legacy);
  }

  /**
   * The table of a merged file counts the mapping's checksums and lists
   * each checksum of order with its offset.
   */
  lemma MergedTableReadsBack(b: Pass, legacy: bool, order: seq<uint64>)
    requires forall k :: k in order ==> k in b.mapping
    requires HeaderLen(legacy) + 8 <= |b.out|
    ensures FieldAt(MergedFile(b, legacy, order), |b.out|, 4, 0).0 == |b.mapping| % TWO32
    ensures forall i :: 0 <= i < |order| ==>
      && FieldAt(MergedFile(b, legacy, order), |b.out| + 4 + 16 * i, 8, 0).0 == order[i]
      && FieldAt(MergedFile(b, legacy, order), |b.out| + 12 + 16 * i, 8, 0).0 == b.mapping[order[i]]
  {
    var table := TableBytes(b.mapping, order);
    PatchedTable(b.out, table, legacy);
    TableReadBack(MergedFile(b, legacy, order), |b.out|, b.mapping, order);
  }

  /**
   * Every offset in a merged file's mapping leads past the header to a
   * record that decodes to the one recs gives for its checksum, when the
   * mapping resolves in the records written.
   */
  lemma MergedRecordsReadBack(b: Pass, recs: map<uint64, Record>, legacy: bool, order: seq<uint64>)
    requires forall k :: k in order ==> k in b.mapping
    requires HeaderLen(legacy) + 8 <= |b.out|
    requires Resolves(b.out, b.mapping, recs, legacy, HeaderLen(legacy) + 8)
    ensures forall k :: k in b.mapping ==>
      && HeaderLen(legacy) + 8 <= SeekTarget(b.mapping[k])
      && DecodeRaw(MergedFile(b, legacy, order), SeekTarget(b.mapping[k]) as nat, legacy).0 == Some(Stored(recs[k], legacy))
  {
    PatchedRecords(b.out, TableBytes(b.mapping, order), legacy);
    RecordsReadBack(b.out, MergedFile(b, legacy, order), b.mapping, recs, legacy, HeaderLen(legacy) + 8);
  }
}
