// hts2png: walks the mapping of a legacy .hts file and exports every
// mapped texture as an RGBA PNG named after its checksum. The PNG encoding
// itself (libpng) is not modelled; what is kept is the file name, the
// record reader, the walk over the mapping with its cursor save/restore,
// and the row-major copy that feeds the PNG writer.

module HtsToPng {
  import opened Wrappers
  import opened Bytes
  import opened Files
  import opened Texture
  import opened HtsMerge
  import HtcToHts

  // ---------------------------------------------------------------------
  // get_filename_from_info

  function Pow16(n: nat): (r: nat)
    ensures r > 0
  {
    if n == 0 then 1 else 16 * Pow16(n - 1)
  }

  /** One uppercase hexadecimal digit, as %X prints it. */
  function HexDigit(d: nat): (c: char)
    requires d < 16
  {
    if d < 10 then (48 + d) as char else (55 + d) as char
  }

  /** The value of an uppercase hexadecimal digit. */
  function DigitValue(c: char): (d: nat)
    ensures d < 16
  {
    if '0' <= c <= '9' then c as nat - 48
    else if 'A' <= c <= 'F' then c as nat - 55
    else 0
  }

  lemma DigitValueOfHexDigit(d: nat)
    requires d < 16
    ensures DigitValue(HexDigit(d)) == d
    ensures '0' <= HexDigit(d) <= '9' || 'A' <= HexDigit(d) <= 'F'
  {
  }

  /** %0nX: x in n hexadecimal digits, most significant first, zero-padded. */
  function Hex(x: nat, n: nat): (r: string)
    ensures |r| == n
  {
    if n == 0 then [] else Hex(x / 16, n - 1) + [HexDigit(x % 16)]
  }

  /** The value of a run of hexadecimal digits, most significant first. */
  function FromHex(s: string): nat
  {
    if s == [] then 0 else FromHex(s[..|s| - 1]) * 16 + DigitValue(s[|s| - 1])
  }

  /** A value that fits n digits reads back from its n-digit form. */
  lemma {:induction false} FromHexOfHex(x: nat, n: nat)
    requires x < Pow16(n)
    ensures FromHex(Hex(x, n)) == x
  {
    if n == 0 {
    } else {
      var h := Hex(x, n);
      assert h[..n - 1] == Hex(x / 16, n - 1);
      DigitValueOfHexDigit(x % 16);
      FromHexOfHex(x / 16, n - 1);
    }
  }

  lemma Pow16Eight()
    ensures Pow16(8) == TWO32
  {
  }

  /** checksum & 0xffffffff: the texture checksum. */
  function Low(checksum: uint64): (r: uint32)
  {
    checksum % TWO32
  }

  /** checksum >> 32: the palette checksum. */
  function High(checksum: uint64): (r: uint32)
  {
    checksum / TWO32
  }

  /** The two halves make up the checksum. */
  lemma HalvesJoin(checksum: uint64)
    ensures High(checksum) * TWO32 + Low(checksum) == checksum
  {
  }

  /**
   * The exported file's name: the ident, the texture checksum, the fixed
   * "#3#0", and either "_all.png" or the palette checksum and
   * "_ciByRGBA.png" when the palette checksum is not zero.
   */
  function FileName(ident: string, checksum: uint64): string
  {
    if High(checksum) == 0 then ident + "#" + Hex(Low(checksum), 8) + "#3#0_all.png"
    else ident + "#" + Hex(Low(checksum), 8) + "#3#0#" + Hex(High(checksum), 8) + "_ciByRGBA.png"
  }

  /** The checksum a name of either form stands for, given the ident. */
  function ParseName(ident: string, name: string): Option<uint64>
  {
    var h := |ident| + 1;
    if |name| < h + 8 || name[..h] != ident + "#" then None
    else
      var lo := FromHex(name[h..h + 8]);
      var rest := name[h + 8..];
      var v :=
        if rest == "#3#0_all.png" then Some(lo)
        else if |rest| == 26 && rest[..5] == "#3#0#" && rest[13..] == "_ciByRGBA.png" then Some(FromHex(rest[5..13]) * TWO32 + lo)
        else None;
      if v.Some? && v.value < TWO64 then Some(v.value) else None
  }

  /** Every name reads back as the checksum it was made from. */
  lemma NameRoundTrip(ident: string, checksum: uint64)
    ensures ParseName(ident, FileName(ident, checksum)) == Some(checksum)
  {
    var h := |ident| + 1;
    var name := FileName(ident, checksum);
    var lo, hi := Hex(Low(checksum), 8), Hex(High(checksum), 8);
    Pow16Eight();
    FromHexOfHex(Low(checksum), 8);
    HalvesJoin(checksum);
    assert name[..h] == ident + "#";
    assert name[h..h + 8] == lo;
    if High(checksum) == 0 {
      assert name[h + 8..] == "#3#0_all.png";
    } else {
      FromHexOfHex(High(checksum), 8);
      var rest := name[h + 8..];
      assert rest == "#3#0#" + hi + "_ciByRGBA.png";
      assert rest[5..13] == hi;
    }
  }

  /** Different checksums get different names. */
  lemma FileNameInjective(ident: string, a: uint64, b: uint64)
    requires FileName(ident, a) == FileName(ident, b)
    ensures a == b
  {
    NameRoundTrip(ident, a);
    NameRoundTrip(ident, b);
  }

  /** The name ends in "_all.png" exactly when the palette checksum is zero. */
  lemma NameSuffix(ident: string, checksum: uint64)
    ensures |FileName(ident, checksum)| >= 8
    ensures FileName(ident, checksum)[|FileName(ident, checksum)| - 8..] == "_all.png" <==> High(checksum) == 0
  {
    var name := FileName(ident, checksum);
    var lo := Hex(Low(checksum), 8);
    if High(checksum) == 0 {
      assert name == (ident + "#" + lo + "#3#0") + "_all.png";
    } else {
      var hi := Hex(High(checksum), 8);
      assert name == (ident + "#" + lo + "#3#0#" + hi + "_ciBy") + "RGBA.png";
      assert name[|name| - 8..] == "RGBA.png";
    }
  }

  /** %X prints uppercase digits only. */
  lemma {:induction false} HexDigits(x: nat, n: nat)
    ensures forall i :: 0 <= i < |Hex(x, n)| ==> '0' <= Hex(x, n)[i] <= '9' || 'A' <= Hex(x, n)[i] <= 'F'
  {
    if n > 0 {
      HexDigits(x / 16, n - 1);
      DigitValueOfHexDigit(x % 16);
    }
  }

  // ---------------------------------------------------------------------
  // read_info

  /**
   * What read_info leaves: NoMemory when malloc of dataSize bytes fails,
   * otherwise the fixed fields and the payload, None when the payload is
   * cut short (fread then leaves part of the buffer unwritten).
   */
  datatype InfoRead = NoMemory | Loaded(fields: TexInfo, payload: Option<seq<byte>>)

  /**
   * read_info at p in the legacy layout, with no tag and no decompression;
   * fits says whether malloc of that many bytes succeeds. The cursor is
   * where the reads leave it.
   */
  function InfoAt(s: seq<byte>, p: nat, fits: nat -> bool): (r: (InfoRead, nat))
    ensures p <= r.1
  {
    Pow256Widths();
    var (t, q) := FixedAt(s, p, true);
    var (n, q1) := FieldAt(s, q, 4, 0);
    if !fits(n) then (NoMemory, q1)
    else
      var (d, q2) := PayloadAt(s, q1, n);
      (Loaded(t, d), q2)
  }

  /** read_info: the struct filled field by field from the cursor. */
  method ReadInfo(f: File, fits: nat -> bool) returns (r: InfoRead)
    modifies f`pos
    ensures (r, f.pos) == InfoAt(f.bytes, old(f.pos), fits)
  {
    ghost var s, p := f.bytes, f.pos;
    var width := f.Read32(0);
    var height := f.Read32(0);
    var format := f.Read32(0);
    var textureFormat := f.Read16(0);
    var pixelType := f.Read16(0);
    var isHiresTex := f.Read8(0);
    var fields := TexInfo(width, height, format, textureFormat, pixelType, isHiresTex, 0, []);
    assert FixedAt(s, p, true) == (fields, f.pos);
    var dataSize := f.Read32(0);
    if !fits(dataSize) {
      return NoMemory;
    }
    var data := f.ReadPayload(dataSize);
    r := Loaded(fields, data);
  }

  /**
   * The reader agrees with the legacy decoder of the merge tool: once
   * malloc succeeds, a whole payload is read exactly when that decoder
   * finds a record, and the two records are the same.
   */
  lemma InfoAtIsDecodeRaw(s: seq<byte>, p: nat, fits: nat -> bool)
    requires InfoAt(s, p, fits).0.Loaded?
    ensures InfoAt(s, p, fits).0.payload.Some? <==> DecodeRaw(s, p, true).0.Some?
    ensures InfoAt(s, p, fits).0.payload.Some? ==>
      DecodeRaw(s, p, true) == (Some(InfoAt(s, p, fits).0.fields.(data := InfoAt(s, p, fits).0.payload.value)), InfoAt(s, p, fits).1)
  {
  }

  /** A legacy record written at p reads back: its fields (no tag) and its whole payload. */
  lemma InfoAtEncoded(s: seq<byte>, p: nat, t: Record, fits: nat -> bool)
    requires p + |Encode(t, true)| <= |s| && s[p..p + |Encode(t, true)|] == Encode(t, true)
    requires fits(|t.data|)
    ensures InfoAt(s, p, fits) == (Loaded(t.(formatSize := 0, data := []), Some(t.data)), p + |Encode(t, true)|)
  {
    FixedAtEncoded(s, p, t, true);
    TailRead(s, p, t, true);
  }

  // ---------------------------------------------------------------------
  // The walk over the mapping

  /**
   * A texture handed to the PNG writer: the file name is built from the
   * identifier and the checksum (get_filename_from_info).
   */
  datatype Exported = Exported(ident: string, checksum: uint64, fields: TexInfo, payload: Option<seq<byte>>)
  {
    function Name(): string
    {
      FileName(ident, checksum)
    }
  }

  /** How main ends: its exit status and the textures exported, in order. */
  datatype Outcome = Outcome(status: int, exports: seq<Exported>)

  /**
   * One pass of the loop body at cursor c: the (checksum, offset) entry,
   * the seek to the record and read_info. The export when read_info
   * succeeds, and the cursor for the next entry: restored to just past the
   * entry after an export, but left where read_info stopped after the
   * `continue` of a failed read_info. A negative offset makes fseek fail
   * and the record is read from the cursor as it is.
   */
  function EntryAt(s: seq<byte>, c: nat, ident: string, fits: nat -> bool): (r: (Option<Exported>, nat))
  {
    Pow256Widths();
    var (checksum, q1) := FieldAt(s, c, 8, 0);
    var (offset, q2) := FieldAt(s, q1, 8, 0);
    var target := if Int64(offset) >= 0 then Int64(offset) as nat else q2;
    match InfoAt(s, target, fits)
    case (NoMemory, q) => (None, q)
    case (Loaded(t, d), _) => (Some(Exported(ident, checksum, t, d)), q2)
  }

  /** The loop body as a function of the cursor: the entry's export, if any, and the next cursor. */
  function Reader(s: seq<byte>, ident: string, fits: nat -> bool): nat -> (Option<Exported>, nat)
  {
    c => EntryAt(s, c, ident, fits)
  }

  /** step is the loop body over the bytes s. */
  ghost predicate ReadsWith(step: nat -> (Option<Exported>, nat), s: seq<byte>, ident: string, fits: nat -> bool)
  {
    forall c {:trigger EntryAt(s, c, ident, fits)} :: step(c) == EntryAt(s, c, ident, fits)
  }

  /** The exports ahead of those of the rest of the run. */
  function Prepend(es: seq<Exported>, o: Outcome): Outcome
  {
    Outcome(o.status, es + o.exports)
  }

  /**
   * The loop body run k more times from cursor c; written decides whether
   * write_info_to_png succeeds for an export, and its failure ends main
   * with status 1.
   */
  function Walk(step: nat -> (Option<Exported>, nat), c: nat, k: nat, written: Exported -> bool): Outcome
    decreases k
  {
    if k == 0 then Outcome(0, [])
    else
      match step(c)
      case (None, q) => Walk(step, q, k - 1, written)
      case (Some(e), q) =>
        if !written(e) then Outcome(1, [])
        else Prepend([e], Walk(step, q, k - 1, written))
  }

  /** for (int32_t i = 0; i < mappingSize; i++): how many times the loop runs. */
  function Count(mappingSize: uint32): nat
  {
    if Int32(mappingSize) > 0 then Int32(mappingSize) else 0
  }

  /**
   * main from line 204: the header and the mapping offset are read, then,
   * for the legacy uncompressed marker, mappingSize at the mapping offset.
   * Whether the header is accepted, mappingSize, and the cursor after it.
   */
  function MappingAt(s: seq<byte>): (r: (bool, uint32, nat))
  {
    Pow256Widths();
    var (header, q1) := FieldAt(s, 0, 4, MINUS_ONE_32);
    var (mappingOffset, q2) := FieldAt(s, q1, 8, MINUS_ONE_64);
    if header != MARKER_PLAIN then (false, MINUS_ONE_32, q2)
    else
      var t := if Int64(mappingOffset) >= 0 then Int64(mappingOffset) as nat else q2;
      var (mappingSize, q3) := FieldAt(s, t, 4, MINUS_ONE_32);
      (true, mappingSize, q3)
  }

  /** A rejected header ends main with status 1; otherwise the mapping is walked. */
  function ExportAll(s: seq<byte>, ident: string, fits: nat -> bool, written: Exported -> bool): Outcome
  {
    var (ok, mappingSize, q) := MappingAt(s);
    if !ok then Outcome(1, []) else Walk(Reader(s, ident, fits), q, Count(mappingSize), written)
  }

  /** The reads up to the loop, with the header check between them. */
  method OpenMapping(f: File) returns (ok: bool, mappingSize: uint32)
    requires f.pos == 0
    modifies f`pos
    ensures (ok, mappingSize, f.pos) == MappingAt(f.bytes)
  {
    var header := f.Read32(MINUS_ONE_32);
    var mappingOffset := f.Read64(MINUS_ONE_64);
    if header != MARKER_PLAIN {
      return false, MINUS_ONE_32;
    }
    var _ := f.Seek(Int64(mappingOffset));
    mappingSize := f.Read32(MINUS_ONE_32);
    ok := true;
  }

  /** One pass of the loop body; the PNG writer's verdict comes from written. */
  method ExportEntry(f: File, ident: string, fits: nat -> bool) returns (e: Option<Exported>)
    modifies f`pos
    ensures (e, f.pos) == EntryAt(f.bytes, old(f.pos), ident, fits)
  {
    ghost var s, c := f.bytes, f.pos;
    var checksum := f.Read64(0);
    var offset := f.Read64(0);
    var currentOffset := f.Tell();
    var _ := f.Seek(Int64(offset));
    var info := ReadInfo(f, fits);
    if info.NoMemory? {
      return None;
    }
    e := Some(Exported(ident, checksum, info.fields, info.payload));
    var _ := f.Seek(currentOffset);
  }

  lemma PrependTwice(a: seq<Exported>, b: seq<Exported>, o: Outcome)
    ensures Prepend(a, Prepend(b, o)) == Prepend(a + b, o)
  {
  }

  /**
   * One pass of the loop body within a walk of k more entries: the export
   * appended unless read_info failed, or stop when the PNG writer fails.
   */
  method WalkOne(f: File, ident: string, fits: nat -> bool, written: Exported -> bool, k: nat,
                 exports0: seq<Exported>, ghost step: nat -> (Option<Exported>, nat), ghost whole: Outcome)
      returns (stop: bool, exports: seq<Exported>)
    requires k > 0
    requires ReadsWith(step, f.bytes, ident, fits)
    requires whole == Prepend(exports0, Walk(step, f.pos, k, written))
    modifies f`pos
    ensures stop ==> whole == Outcome(1, exports)
    ensures !stop ==> whole == Prepend(exports, Walk(step, f.pos, k - 1, written))
  {
    var e := ExportEntry(f, ident, fits);
    exports := exports0;
    if e.None? {
      return false, exports;
    }
    if !written(e.value) {
      return true, exports;
    }
    PrependTwice(exports, [e.value], Walk(step, f.pos, k - 1, written));
    exports := exports + [e.value];
    stop := false;
  }

  /** for (int32_t i = 0; i < mappingSize; i++) from the cursor after mappingSize. */
  method WalkLoop(f: File, mappingSize: uint32, ident: string, fits: nat -> bool, written: Exported -> bool,
                  ghost step: nat -> (Option<Exported>, nat))
      returns (o: Outcome)
    requires ReadsWith(step, f.bytes, ident, fits)
    modifies f`pos
    ensures o == Walk(step, old(f.pos), Count(mappingSize), written)
  {
    var n := Count(mappingSize);
    ghost var whole := Walk(step, f.pos, n, written);
    var exports: seq<Exported> := [];
    var i: int := 0;
    while i < Int32(mappingSize)
      invariant 0 <= i <= n
      invariant f.bytes == old(f.bytes)
      invariant whole == Prepend(exports, Walk(step, f.pos, n - i, written))
      decreases Int32(mappingSize) - i
    {
      var stop;
      stop, exports := WalkOne(f, ident, fits, written, n - i, exports, step, whole);
      if stop {
        return Outcome(1, exports);
      }
      i := i + 1;
    }
    o := Outcome(0, exports);
  }

  /** main's header check and mapping walk over the opened file. */
  method Export(f: File, ident: string, fits: nat -> bool, written: Exported -> bool) returns (o: Outcome)
    requires f.pos == 0
    modifies f`pos
    ensures o == ExportAll(f.bytes, ident, fits, written)
  {
    var ok, mappingSize := OpenMapping(f);
    if !ok {
      return Outcome(1, []);
    }
    o := WalkLoop(f, mappingSize, ident, fits, written, Reader(f.bytes, ident, fits));
  }

  /**
   * The header is checked before anything is exported: a first int32 other
   * than 1075970048 ends main with status 1, and any export at all means
   * the file starts with that marker.
   */
  lemma HeaderRejected(s: seq<byte>, ident: string, fits: nat -> bool, written: Exported -> bool)
    ensures FieldAt(s, 0, 4, MINUS_ONE_32).0 != MARKER_PLAIN ==> ExportAll(s, ident, fits, written) == Outcome(1, [])
    ensures ExportAll(s, ident, fits, written).exports != [] ==> 4 <= |s| && s[..4] == LE(MARKER_PLAIN, 4)
  {
    Pow256Widths();
    if ExportAll(s, ident, fits, written).exports != [] {
      assert MappingAt(s).0;
      assert FieldAt(s, 0, 4, MINUS_ONE_32).0 == MARKER_PLAIN != MINUS_ONE_32;
      LEofFromLE(s[..4]);
    }
  }

  /**
   * After an export the cursor is back just past the (checksum, offset)
   * entry, wherever the record lay.
   */
  lemma RestoredAfterExport(s: seq<byte>, c: nat, ident: string, fits: nat -> bool)
    requires c + 16 <= |s|
    requires EntryAt(s, c, ident, fits).0.Some?
    ensures EntryAt(s, c, ident, fits).1 == c + 16
  {
  }

  /**
   * When malloc fails, the `continue` skips the restore: the next entry is
   * read from just past the record's dataSize field, not from just past
   * the mapping entry.
   */
  lemma SkipLeavesCursorInRecord(s: seq<byte>, c: nat, ident: string, fits: nat -> bool)
    requires c + 16 <= |s|
    requires FromLE(s[c + 8..c + 16]) < 0x8000_0000_0000_0000
    requires FromLE(s[c + 8..c + 16]) + 21 <= |s|
    ensures EntryAt(s, c, ident, fits).0.None? <==> !fits(FromLE(s[FromLE(s[c + 8..c + 16]) + 17..FromLE(s[c + 8..c + 16]) + 21]))
    ensures EntryAt(s, c, ident, fits).0.None? ==> EntryAt(s, c, ident, fits).1 == FromLE(s[c + 8..c + 16]) + 21
  {
    Pow256Widths();
  }

  // ---------------------------------------------------------------------
  // The RGBA row copy of write_info_to_png

  /** Row y of a width-pixel RGBA image stored row-major in data. */
  function Row(data: seq<byte>, width: nat, y: nat): (r: seq<byte>)
    requires 4 * width * (y + 1) <= |data|
    ensures |r| == 4 * width
  {
    data[4 * width * y..4 * width * (y + 1)]
  }

  /** Byte c of pixel (x, y) in its row is byte 4 (y width + x) + c of the payload. */
  lemma RowPixel(data: seq<byte>, width: nat, y: nat, x: nat, c: nat)
    requires 4 * width * (y + 1) <= |data|
    requires x < width && c < 4
    ensures 4 * (y * width + x) + c < |data|
    ensures Row(data, width, y)[4 * x + c] == data[4 * (y * width + x) + c]
  {
    assert 4 * width * y + (4 * x + c) == 4 * (y * width + x) + c;
  }

  lemma RowsFit(width: nat, height: nat, y: nat)
    requires y < height
    ensures 4 * width * (y + 1) <= 4 * width * height
  {
    assert 4 * width * (y + 1) == 4 * width * y + 4 * width;
    assert 4 * width * height == 4 * width * (height - 1) + 4 * width;
    assert width * y <= width * (height - 1);
  }

  /**
   * The copy into row_pointers: one fresh row of 4 width bytes per image
   * row, filled pixel by pixel from the payload while p runs on.
   */
  method CopyRows(data: seq<byte>, width: nat, height: nat) returns (rows: array<array?<byte>>)
    requires 0 < width && 0 < height
    requires 4 * width * height <= |data|
    ensures rows.Length == height
    ensures forall y :: 0 <= y < height ==> rows[y] != null && 4 * width * (y + 1) <= |data| && rows[y][..] == Row(data, width, y)
  {
    rows := new array?<byte>[height];
    var p := 0;
    var y := 0;
    while y < height
      invariant 0 <= y <= height
      invariant p == 4 * width * y
      invariant forall j :: 0 <= j < y ==> rows[j] != null && 4 * width * (j + 1) <= |data| && rows[j][..] == Row(data, width, j)
    {
      RowsFit(width, height, y);
      var row := new byte[4 * width];
      var x := 0;
      while x < width
        invariant 0 <= x <= width
        invariant p == 4 * width * y + 4 * x
        invariant forall i :: 0 <= i < 4 * x ==> row[i] == data[4 * width * y + i]
        modifies row
      {
        row[4 * x + 0] := data[p];
        row[4 * x + 1] := data[p + 1];
        row[4 * x + 2] := data[p + 2];
        row[4 * x + 3] := data[p + 3];
        p := p + 4;
        x := x + 1;
      }
      assert row[..] == Row(data, width, y);
      rows[y] := row;
      y := y + 1;
    }
  }

  /** The rows for (int y = 0; y <= info->height; y++) visits, as written, in order. */
  function AsWrittenRowsVisited(height: nat): (r: seq<nat>)
    ensures |r| == height + 1
  {
    if height == 0 then [0] else AsWrittenRowsVisited(height - 1) + [height]
  }

  /** The rows an image of height rows has: 0 up to height - 1. */
  function ImageRows(height: nat): (r: seq<nat>)
    ensures |r| == height
  {
    seq(height, y => y)
  }

  /**
   * The copy as written visits every image row and then one more, row
   * height: row_pointers has height entries, so that store is out of
   * bounds, and that row's bytes start where a payload of height full
   * rows ends.
   */
  lemma {:induction false} AsWrittenOverrun(width: nat, height: nat)
    ensures AsWrittenRowsVisited(height) == ImageRows(height) + [height]
    ensures AsWrittenRowsVisited(height)[height] !in ImageRows(height)
    ensures 4 * width * AsWrittenRowsVisited(height)[height] == 4 * width * height
  {
    if height > 0 {
      AsWrittenOverrun(width, height - 1);
      assert ImageRows(height - 1) + [height - 1] == ImageRows(height);
    }
  }

  // ---------------------------------------------------------------------
  // Exporting a legacy file written by the merge tool

  /** A field lying wholly in the file reads the same whatever the variable held before. */
  lemma FieldAtAnyDefault(s: seq<byte>, p: nat, k: nat, d1: nat, d2: nat)
    requires d1 < Pow256(k) && d2 < Pow256(k) && p + k <= |s|
    ensures FieldAt(s, p, k, d1) == FieldAt(s, p, k, d2)
  {
  }

  /** What hts2png exports for a record stored under checksum. */
  function ExportOf(ident: string, checksum: uint64, t: Record): Exported
  {
    Exported(ident, checksum, Stored(t, true).(data := []), Some(t.data))
  }

  /** The exports of the records of recs for the checksums of order, in that order. */
  function ExportsOf(ident: string, recs: map<uint64, Record>, order: seq<uint64>): (r: seq<Exported>)
    requires forall k :: k in order ==> k in recs
    ensures |r| == |order|
  {
    seq(|order|, i requires 0 <= i < |order| => ExportOf(ident, order[i], recs[order[i]]))
  }

  /** A record the merge tool's decoder finds is one read_info loads, once malloc succeeds. */
  lemma InfoAtOfDecodeRaw(s: seq<byte>, p: nat, fits: nat -> bool, t: TexInfo)
    requires DecodeRaw(s, p, true).0 == Some(t)
    requires fits(|t.data|)
    ensures InfoAt(s, p, fits).0 == Loaded(t.(data := []), Some(t.data))
  {
  }

  /**
   * Entries that each export one record and hand over to the next entry,
   * 16 bytes on, give those exports in order with status 0.
   */
  lemma {:induction false} WalkEntries(step: nat -> (Option<Exported>, nat), t: nat, es: seq<Exported>,
                                       written: Exported -> bool, i: nat)
    requires i <= |es|
    requires forall j :: 0 <= j < |es| ==> step(t + 16 * j) == (Some(es[j]), t + 16 * (j + 1)) && written(es[j])
    ensures Walk(step, t + 16 * i, |es| - i, written) == Outcome(0, es[i..])
    decreases |es| - i
  {
    if i < |es| {
      WalkEntries(step, t, es, written, i + 1);
      assert es[i..] == [es[i]] + es[i + 1..];
    }
  }

  /** A legacy offset below 2^47 is where both readers seek. */
  lemma SmallOffset(v: uint64)
    requires v < TWO47
    ensures Int64(v) == v && SeekTarget(v) == v
  {
  }

  /**
   * In a legacy merged file the header passes hts2png's check, the mapping
   * offset leads to the table, and mappingSize is the number of checksums.
   */
  lemma MergedMappingAt(b: Pass, order: seq<uint64>)
    requires forall k :: k in order ==> k in b.mapping
    requires 12 <= |b.out| < TWO47
    requires b.out[..4] == HeaderBytes(true, false)[..4]
    ensures MappingAt(MergedFile(b, true, order)) == (true, |b.mapping| % TWO32, |b.out| + 4)
  {
    Pow256Widths();
    var f := MergedFile(b, true, order);
    MergedHeaderReadsBack(b, true, false, order);
    MergedTableReadsBack(b, true, order);
    assert |f| == |b.out| + 4 + 16 * |order|;
    FieldAtAnyDefault(f, 4, 8, 0, MINUS_ONE_64);
    FieldAtAnyDefault(f, |b.out|, 4, 0, MINUS_ONE_32);
    SmallOffset(|b.out|);
  }

  /**
   * A table entry at c holding checksum k and an offset v below 2^47 whose
   * record decodes: the entry exports that record and the cursor comes
   * back just past the entry.
   */
  lemma EntryFromTable(f: seq<byte>, c: nat, ident: string, fits: nat -> bool, k: uint64, v: uint64, t: TexInfo)
    requires c + 16 <= |f|
    requires FieldAt(f, c, 8, 0).0 == k && FieldAt(f, c + 8, 8, 0).0 == v
    requires v < TWO47 && DecodeRaw(f, v, true).0 == Some(t)
    requires fits(|t.data|)
    ensures EntryAt(f, c, ident, fits) == (Some(Exported(ident, k, t.(data := []), Some(t.data))), c + 16)
  {
    SmallOffset(v);
    InfoAtOfDecodeRaw(f, v, fits, t);
  }

  /** A header that passes: main walks the mapping from the cursor after mappingSize. */
  lemma ExportAllWalks(f: seq<byte>, ident: string, fits: nat -> bool, written: Exported -> bool)
    requires MappingAt(f).0
    ensures ExportAll(f, ident, fits, written) == Walk(Reader(f, ident, fits), MappingAt(f).2, Count(MappingAt(f).1), written)
  {
  }

  /** Reader is the loop body over s. */
  lemma ReaderReads(s: seq<byte>, ident: string, fits: nat -> bool)
    ensures ReadsWith(Reader(s, ident, fits), s, ident, fits)
  {
  }

  /** The i-th pair of a table at o exports its record and hands over to the next pair. */
  lemma TableEntry(f: seq<byte>, o: nat, mapping: map<uint64, uint64>, recs: map<uint64, Record>, order: seq<uint64>,
                   ident: string, fits: nat -> bool, i: nat)
    requires i < |order| && order[i] in mapping && order[i] in recs
    requires o + 4 + 16 * (i + 1) <= |f|
    requires FieldAt(f, o + 4 + 16 * i, 8, 0).0 == order[i] && FieldAt(f, o + 12 + 16 * i, 8, 0).0 == mapping[order[i]]
    requires mapping[order[i]] < TWO47
    requires DecodeRaw(f, mapping[order[i]], true).0 == Some(Stored(recs[order[i]], true))
    requires fits(|recs[order[i]].data|)
    ensures EntryAt(f, o + 4 + 16 * i, ident, fits) == (Some(ExportOf(ident, order[i], recs[order[i]])), o + 4 + 16 * (i + 1))
  {
    var k := order[i];
    assert o + 4 + 16 * i + 8 == o + 12 + 16 * i;
    EntryFromTable(f, o + 4 + 16 * i, ident, fits, k, mapping[k], Stored(recs[k], true));
  }

  /** A step that reads like the loop body agrees with it wherever the body's result is known. */
  lemma StepIs(step: nat -> (Option<Exported>, nat), f: seq<byte>, c: nat, ident: string, fits: nat -> bool,
               v: (Option<Exported>, nat))
    requires ReadsWith(step, f, ident, fits)
    requires EntryAt(f, c, ident, fits) == v
    ensures step(c) == v
  {
  }

  /** The same, for a step that reads like the loop body. */
  lemma TableStep(step: nat -> (Option<Exported>, nat), f: seq<byte>, o: nat, mapping: map<uint64, uint64>,
                  recs: map<uint64, Record>, order: seq<uint64>, ident: string, fits: nat -> bool, i: nat)
    requires ReadsWith(step, f, ident, fits)
    requires i < |order| && order[i] in mapping && order[i] in recs
    requires o + 4 + 16 * (i + 1) <= |f|
    requires FieldAt(f, o + 4 + 16 * i, 8, 0).0 == order[i] && FieldAt(f, o + 12 + 16 * i, 8, 0).0 == mapping[order[i]]
    requires mapping[order[i]] < TWO47
    requires DecodeRaw(f, mapping[order[i]], true).0 == Some(Stored(recs[order[i]], true))
    requires fits(|recs[order[i]].data|)
    ensures step(o + 4 + 16 * i) == (Some(ExportOf(ident, order[i], recs[order[i]])), o + 4 + 16 * (i + 1))
  {
    TableEntry(f, o, mapping, recs, order, ident, fits, i);
    StepIs(step, f, o + 4 + 16 * i, ident, fits, (Some(ExportOf(ident, order[i], recs[order[i]])), o + 4 + 16 * (i + 1)));
  }

  /** The (checksum, offset) pairs of order, 16 bytes each, from o + 4 in f. */
  ghost predicate TablePairsAt(f: seq<byte>, o: nat, mapping: map<uint64, uint64>, order: seq<uint64>)
  {
    forall i :: 0 <= i < |order| ==>
      && order[i] in mapping
      && FieldAt(f, o + 4 + 16 * i, 8, 0).0 == order[i]
      && FieldAt(f, o + 12 + 16 * i, 8, 0).0 == mapping[order[i]]
  }

  /** Every checksum of recs is mapped to an offset in f that decodes to its record. */
  ghost predicate RecordsAt(f: seq<byte>, mapping: map<uint64, uint64>, recs: map<uint64, Record>)
  {
    forall k :: k in recs ==> k in mapping && DecodeRaw(f, mapping[k], true).0 == Some(Stored(recs[k], true))
  }

  /** Over a whole table at o, the loop body at each pair exports that pair's record. */
  lemma TableSteps(step: nat -> (Option<Exported>, nat), f: seq<byte>, o: nat, mapping: map<uint64, uint64>,
                   recs: map<uint64, Record>, order: seq<uint64>, ident: string, fits: nat -> bool)
    requires ReadsWith(step, f, ident, fits)
    requires forall k :: k in order ==> k in mapping && k in recs
    requires o + 4 + 16 * |order| <= |f|
    requires TablePairsAt(f, o, mapping, order)
    requires forall k :: k in mapping ==> mapping[k] < TWO47
    requires RecordsAt(f, mapping, recs)
    requires forall k :: k in recs ==> fits(|recs[k].data|)
    ensures forall i :: 0 <= i < |order| ==>
      step(o + 4 + 16 * i) == (Some(ExportOf(ident, order[i], recs[order[i]])), o + 4 + 16 * (i + 1))
  {
    forall i | 0 <= i < |order|
      ensures step(o + 4 + 16 * i) == (Some(ExportOf(ident, order[i], recs[order[i]])), o + 4 + 16 * (i + 1))
    {
      TableStep(step, f, o, mapping, recs, order, ident, fits, i);
    }
  }

  /**
   * The loop body run once per pair of a table at o, each pair exporting
   * its record, gives those exports in table order with status 0.
   */
  lemma TableWalk(step: nat -> (Option<Exported>, nat), o: nat, recs: map<uint64, Record>, order: seq<uint64>,
                  ident: string, written: Exported -> bool)
    requires forall k :: k in order ==> k in recs
    requires forall i :: 0 <= i < |order| ==>
      step(o + 4 + 16 * i) == (Some(ExportOf(ident, order[i], recs[order[i]])), o + 4 + 16 * (i + 1))
    requires forall k :: k in recs ==> written(ExportOf(ident, k, recs[k]))
    ensures Walk(step, o + 4, |order|, written) == Outcome(0, ExportsOf(ident, recs, order))
  {
    var es := ExportsOf(ident, recs, order);
    forall j | 0 <= j < |es|
      ensures step(o + 4 + 16 * j) == (Some(es[j]), o + 4 + 16 * (j + 1)) && written(es[j])
    {
    }
    WalkEntries(step, o + 4, es, written, 0);
    assert es[0..] == es;
  }

  /**
   * A legacy file whose header passes, whose mapping offset o leads to a
   * count of |order| and then the (checksum, offset) pairs of order, with
   * every offset leading to its record, exports those records in order.
   */
  lemma TableExports(f: seq<byte>, o: nat, mapping: map<uint64, uint64>, recs: map<uint64, Record>, order: seq<uint64>,
                     ident: string, fits: nat -> bool, written: Exported -> bool)
    requires forall k :: k in order ==> k in mapping && k in recs
    requires MappingAt(f).0 && MappingAt(f).2 == o + 4 && Count(MappingAt(f).1) == |order|
    requires o + 4 + 16 * |order| <= |f|
    requires TablePairsAt(f, o, mapping, order)
    requires forall k :: k in mapping ==> mapping[k] < TWO47
    requires RecordsAt(f, mapping, recs)
    requires forall k :: k in recs ==> fits(|recs[k].data|)
    requires forall k :: k in recs ==> written(ExportOf(ident, k, recs[k]))
    ensures ExportAll(f, ident, fits, written) == Outcome(0, ExportsOf(ident, recs, order))
  {
    ReaderReads(f, ident, fits);
    TableSteps(Reader(f, ident, fits), f, o, mapping, recs, order, ident, fits);
    TableWalk(Reader(f, ident, fits), o, recs, order, ident, written);
    ExportAllWalks(f, ident, fits, written);
  }

  /** In a legacy merged file every mapped offset below 2^47 leads to its record. */
  lemma MergedRecordsAt(b: Pass, recs: map<uint64, Record>, order: seq<uint64>)
    requires forall k :: k in order ==> k in b.mapping
    requires 12 <= |b.out|
    requires Resolves(b.out, b.mapping, recs, true, 12)
    requires forall k :: k in b.mapping ==> b.mapping[k] < TWO47
    ensures RecordsAt(MergedFile(b, true, order), b.mapping, recs)
  {
    MergedRecordsReadBack(b, recs, true, order);
    forall k | k in recs
      ensures k in b.mapping && DecodeRaw(MergedFile(b, true, order), b.mapping[k], true).0 == Some(Stored(recs[k], true))
    {
      SmallOffset(b.mapping[k]);
    }
  }

  /** In a legacy merged file the pairs of order follow the count. */
  lemma MergedPairsAt(b: Pass, order: seq<uint64>)
    requires forall k :: k in order ==> k in b.mapping
    requires 12 <= |b.out|
    ensures TablePairsAt(MergedFile(b, true, order), |b.out|, b.mapping, order)
    ensures |b.out| + 4 + 16 * |order| <= |MergedFile(b, true, order)|
  {
    MergedTableReadsBack(b, true, order);
  }

  /** A count below 2^31 written as four bytes is read back by the loop as that count. */
  lemma CountOfSize(n: nat)
    requires n < 0x8000_0000
    ensures Count((n % TWO32) as uint32) == n
  {
  }

  /** The mapping of a legacy merged file is read with the number of checksums as its size. */
  lemma MergedTableAt(b: Pass, order: seq<uint64>)
    requires IsEnumeration(order, b.mapping.Keys)
    requires 12 <= |b.out| < TWO47
    requires b.out[..4] == HeaderBytes(true, false)[..4]
    requires |b.mapping| < 0x8000_0000
    ensures MappingAt(MergedFile(b, true, order)).0
    ensures MappingAt(MergedFile(b, true, order)).2 == |b.out| + 4
    ensures Count(MappingAt(MergedFile(b, true, order)).1) == |order|
  {
    MergedMappingAt(b, order);
    EnumerationSize(order, b.mapping.Keys);
    CountOfSize(|b.mapping|);
  }

  /**
   * Exporting a legacy, uncompressed file the merge tool wrote: every
   * checksum of the table, in table order, gives the record it maps to,
   * under its own name, and main ends with status 0.
   */
  lemma MergedExports(b: Pass, recs: map<uint64, Record>, order: seq<uint64>, ident: string,
                      fits: nat -> bool, written: Exported -> bool)
    requires IsEnumeration(order, b.mapping.Keys)
    requires 12 <= |b.out| < TWO47
    requires b.out[..4] == HeaderBytes(true, false)[..4]
    requires Resolves(b.out, b.mapping, recs, true, 12)
    requires forall k :: k in b.mapping ==> b.mapping[k] < TWO47
    requires |b.mapping| < 0x8000_0000
    requires forall k :: k in recs ==> fits(|recs[k].data|)
    requires forall k :: k in recs ==> written(ExportOf(ident, k, recs[k]))
    ensures ExportAll(MergedFile(b, true, order), ident, fits, written) == Outcome(0, ExportsOf(ident, recs, order))
  {
    assert forall k :: k in order ==> k in b.mapping && k in recs;
    MergedTableAt(b, order);
    MergedPairsAt(b, order);
    MergedRecordsAt(b, recs, order);
    TableExports(MergedFile(b, true, order), |b.out|, b.mapping, recs, order, ident, fits, written);
  }

  /**
   * The same for the file the conversion writes once its placeholder is 8
   * bytes wide: the table lists the first record of each checksum, and
   * exporting the file gives those records in table order.
   */
  lemma ConvertedExports(items: seq<HtcToHts.HtcItem>, order: seq<uint64>, ident: string,
                         fits: nat -> bool, written: Exported -> bool)
    requires forall k :: k in order ==> k in HtcToHts.Body(8, items).mapping && k in HtcToHts.Firsts(items)
    requires IsEnumeration(order, HtcToHts.Body(8, items).mapping.Keys)
    requires |HtcToHts.Body(8, items).out| < TWO47
    requires |HtcToHts.Body(8, items).mapping| < 0x8000_0000
    requires forall k :: k in HtcToHts.Firsts(items) ==> fits(|HtcToHts.Firsts(items)[k].data|)
    requires forall k :: k in HtcToHts.Firsts(items) ==> written(ExportOf(ident, k, HtcToHts.Firsts(items)[k]))
    ensures ExportAll(HtcToHts.ConvertedFile(8, items, order), ident, fits, written)
         == Outcome(0, ExportsOf(ident, HtcToHts.Firsts(items), order))
  {
    var c := HtcToHts.Body(8, items);
    HtcToHts.BodyStartsWithPrologue(8, items);
    HeaderPrefix(true, false);
    assert c.out[..4] == HtcToHts.Prologue(8)[..4] == LE(MARKER_PLAIN, 4);
    HtcToHts.BodyResolves(8, items);
    HtcToHts.BodyOffsets(8, items);
    MergedExports(Pass(0, c.out, c.mapping), HtcToHts.Firsts(items), order, ident, fits, written);
  }
}
