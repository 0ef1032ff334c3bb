// htc2uhts: rewrites a texture cache in the older .htc format (a gzip
// stream of checksum-led records) as an uncompressed .hts file in the
// legacy layout, with the checksum table at its end.

module HtcToHts {
  import opened Wrappers
  import opened Bytes
  import opened Files
  import opened Texture
  import opened HtsMerge

  // ---------------------------------------------------------------------
  // The output file name

  /** tolower in the C locale: only 'A'..'Z' change. */
  function Lower(c: char): char
  {
    if 'A' <= c <= 'Z' then (c as int + 32) as char else c
  }

  function Lowered(s: string): (r: string)
    ensures |r| == |s|
  {
    seq(|s|, i requires 0 <= i < |s| => Lower(s[i]))
  }

  /**
   * The name of the .hts file written for name: the last four characters,
   * lower-cased, must be ".htc", and are replaced by ".hts". None when the
   * name does not end that way.
   */
  function OutputName(name: string): (r: Option<string>)
  {
    if |name| < 4 || Lowered(name[|name| - 4..]) != ".htc" then None
    else Some(name[..|name| - 4] + ".hts")
  }

  /**
   * A name is accepted exactly when it ends in a dot and the letters h, t, c
   * in either case; the output keeps everything before the extension and
   * ends in ".hts", and is never itself accepted.
   */
  lemma OutputNameSpec(name: string)
    ensures OutputName(name).Some? <==>
      && |name| >= 4
      && name[|name| - 4] == '.'
      && name[|name| - 3] in "hH"
      && name[|name| - 2] in "tT"
      && name[|name| - 1] in "cC"
    ensures OutputName(name).Some? ==>
      && |OutputName(name).value| == |name|
      && OutputName(name).value[..|name| - 4] == name[..|name| - 4]
      && OutputName(name).value[|name| - 4..] == ".hts"
      && OutputName(OutputName(name).value).None?
  {
    if |name| >= 4 {
      var e := Lowered(name[|name| - 4..]);
      assert e == [Lower(name[|name| - 4]), Lower(name[|name| - 3]), Lower(name[|name| - 2]), Lower(name[|name| - 1])];
      if OutputName(name).Some? {
        var r := OutputName(name).value;
        assert r[|r| - 4..] == ".hts";
        assert Lowered(r[|r| - 4..])[3] == 's';
      }
    }
  }

  /** Any stem with ".htc" in any case becomes the stem with ".hts". */
  lemma OutputNameOfStem(stem: string, ext: string)
    requires Lowered(ext) == ".htc"
    ensures OutputName(stem + ext) == Some(stem + ".hts")
  {
    var name := stem + ext;
    assert name[|name| - 4..] == ext;
    assert name[..|name| - 4] == stem;
  }

  /**
   * The extension check of main on the copied name: the last four
   * characters are lower-cased in place, compared with ".htc", and on a
   * match overwritten with ".hts".
   */
  method RewriteExtension(name: array<char>) returns (ok: bool)
    requires 4 <= name.Length
    modifies name
    ensures ok <==> OutputName(old(name[..])).Some?
    ensures ok ==> name[..] == OutputName(old(name[..])).value
    ensures !ok ==> name[..] == old(name[..])[..name.Length - 4] + Lowered(old(name[..])[name.Length - 4..])
  {
    ghost var orig := name[..];
    var e := name.Length - 4;
    for i := 0 to 4
      invariant forall j :: 0 <= j < e || e + i <= j < name.Length ==> name[j] == orig[j]
      invariant forall j :: e <= j < e + i ==> name[j] == Lower(orig[j])
    {
      name[e + i] := Lower(name[e + i]);
    }
    assert name[..e] == orig[..e];
    assert name[e..] == Lowered(orig[e..]);
    assert name[..] == name[..e] + name[e..];
    if name[e..] != ".htc" {
      return false;
    }
    name[e], name[e + 1], name[e + 2], name[e + 3] := '.', 'h', 't', 's';
    assert name[e..] == ".hts";
    assert name[..] == name[..e] + name[e..];
    ok := true;
  }

  // ---------------------------------------------------------------------
  // The .htc stream

  /** One record of the decompressed .htc stream: its checksum, then the texture. */
  datatype HtcItem = HtcItem(checksum: uint64, info: Record)

  /**
   * One pass of the loop's reads at p: the 8-byte checksum, then the fixed
   * fields, the 32-bit length and the payload of a legacy record, with the
   * payload kept as read. None when one of the reads comes up short, which
   * is what makes gzeof true; a read that ends exactly at the end of the
   * stream does not.
   */
  function ItemAt(s: seq<byte>, p: nat): (r: (Option<HtcItem>, nat))
    ensures p <= r.1
    ensures r.0.Some? ==> r.1 == p + |Entry(r.0.value)| <= |s|
  {
    Pow256Widths();
    var (checksum, q) := FieldAt(s, p, 8, 0);
    var (t, q2) := DecodeRaw(s, q, true);
    if t.None? || |s| < p + 8 + FieldsLen(true) + 4 then (None, q2)
    else (Some(HtcItem(checksum, t.value)), q2)
  }

  /** The whole items the loop reads from p on, up to the first pass whose reads come up short. */
  function ItemsFrom(s: seq<byte>, p: nat): seq<HtcItem>
    decreases |s| - p
  {
    match ItemAt(s, p)
    case (None, _) => []
    case (Some(x), q) => [x] + ItemsFrom(s, q)
  }

  /**
   * The record the loop's final pass writes. That pass starts with gzeof
   * still false after the last whole item, its reads come up short, and it
   * writes whatever its uninitialised variables hold: the parameter last,
   * which is None when its malloc of the stale dataSize fails and main
   * returns 1. A loop that checks the reads (checked) writes nothing then.
   */
  function FinalPass(checked: bool, last: Option<HtcItem>): seq<HtcItem>
  {
    if checked || last.None? then [] else [last.value]
  }

  /** The items whose records the loop writes, from p on. */
  function Written(s: seq<byte>, p: nat, checked: bool, last: Option<HtcItem>): seq<HtcItem>
  {
    ItemsFrom(s, p) + FinalPass(checked, last)
  }

  /** How an item is laid out in the stream. */
  function Entry(x: HtcItem): (r: seq<byte>)
    ensures |r| == 8 + |Encode(x.info, true)|
  {
    Pow256Widths();
    LE(x.checksum, 8) + Encode(x.info, true)
  }

  /** Byte runs laid one after another. */
  function Concat(es: seq<seq<byte>>): seq<byte>
  {
    if es == [] then [] else es[0] + Concat(es[1..])
  }

  /** Laying two lists of runs is laying each in turn. */
  lemma {:induction false} ConcatAppend(a: seq<seq<byte>>, b: seq<seq<byte>>)
    ensures Concat(a + b) == Concat(a) + Concat(b)
    decreases |a|
  {
    if a != [] {
      ConcatAppend(a[1..], b);
      assert (a + b)[1..] == a[1..] + b;
      assert (a + b)[0] == a[0];
      assert a[0] + (Concat(a[1..]) + Concat(b)) == (a[0] + Concat(a[1..])) + Concat(b);
    } else {
      assert a + b == b;
    }
  }

  /** The i-th run sits right after the runs before it. */
  lemma ConcatAt(es: seq<seq<byte>>, i: nat)
    requires i < |es|
    ensures |Concat(es[..i + 1])| == |Concat(es[..i])| + |es[i]| <= |Concat(es)|
    ensures Concat(es)[|Concat(es[..i])|..|Concat(es[..i + 1])|] == es[i]
  {
    var a, b := es[..i], es[i..];
    assert es == a + b;
    ConcatAppend(a, b);
    ConcatAppend(a, [es[i]]);
    assert es[..i + 1] == a + [es[i]];
    assert Concat([es[i]]) == es[i];
    assert Concat(b) == es[i] + Concat(b[1..]);
  }

  /** The entries of the items, in order. */
  function Entries(items: seq<HtcItem>): (r: seq<seq<byte>>)
    ensures |r| == |items|
    ensures forall i :: 0 <= i < |items| ==> r[i] == Entry(items[i])
  {
    seq(|items|, i requires 0 <= i < |items| => Entry(items[i]))
  }

  /** A stream holding the given items one after another. */
  function Stream(items: seq<HtcItem>): seq<byte>
  {
    Concat(Entries(items))
  }

  /** Untagged items: .htc records carry no N64 format/size tag. */
  predicate Untagged(items: seq<HtcItem>)
  {
    forall i :: 0 <= i < |items| ==> items[i].info.formatSize == 0
  }

  /** Where the i-th of the items starts in a stream of them placed at p. */
  function Offset(p: nat, items: seq<HtcItem>, i: nat): nat
    requires i <= |items|
  {
    p + |Concat(Entries(items)[..i])|
  }

  /** The i-th item's entry lies at its offset, and the next offset is just past it. */
  lemma EntryInStream(s: seq<byte>, p: nat, items: seq<HtcItem>, i: nat)
    requires p <= |s| && s[p..] == Stream(items)
    requires i < |items|
    ensures Offset(p, items, i + 1) == Offset(p, items, i) + |Entry(items[i])|
    ensures Offset(p, items, i + 1) <= |s|
    ensures s[Offset(p, items, i)..Offset(p, items, i + 1)] == Entry(items[i])
  {
    var es := Entries(items);
    ConcatAt(es, i);
    var lo, hi := |Concat(es[..i])|, |Concat(es[..i + 1])|;
    assert s[p + lo..p + hi] == s[p..][lo..hi];
  }

  /** An entry in the stream reads back as its item, and the reads end just past it. */
  lemma EntryAt(s: seq<byte>, p: nat, x: HtcItem)
    requires x.info.formatSize == 0
    requires p + |Entry(x)| <= |s| && s[p..p + |Entry(x)|] == Entry(x)
    ensures ItemAt(s, p) == (Some(x), p + |Entry(x)|)
  {
    Pow256Widths();
    var en := Entry(x);
    assert en[0..8] == LE(x.checksum, 8);
    assert en[8..|en|] == Encode(x.info, true);
    SliceOfSlice(s, p, en, 0, 8);
    SliceOfSlice(s, p, en, 8, |en|);
    FieldAtEncoded(s, p, x.checksum, 8, 0);
    DecodeEncoded(s, p + 8, x.info, true);
    assert Stored(x.info, true) == x.info;
  }

  /** Reading at each item's offset finds that item and ends at the next offset. */
  ghost predicate ReadsAt(s: seq<byte>, p: nat, items: seq<HtcItem>)
  {
    && Offset(p, items, |items|) == |s|
    && forall i :: 0 <= i < |items| ==>
         Offset(p, items, i) < |s| && ItemAt(s, Offset(p, items, i)) == (Some(items[i]), Offset(p, items, i + 1))
  }

  /**
   * Reads that each give one item and hand over to the next offset, ending
   * with an empty read, give the items from the i-th on.
   */
  lemma {:induction false} Unroll(f: nat -> seq<HtcItem>, p: nat, items: seq<HtcItem>, i: nat)
    requires i <= |items|
    requires forall j :: 0 <= j < |items| ==> f(Offset(p, items, j)) == [items[j]] + f(Offset(p, items, j + 1))
    requires f(Offset(p, items, |items|)) == []
    ensures f(Offset(p, items, i)) == items[i..]
    decreases |items| - i
  {
    if i < |items| {
      Unroll(f, p, items, i + 1);
      assert items[i..] == [items[i]] + items[i + 1..];
    }
  }

  /** Items read one after another up to the end are what the loop reads. */
  lemma ReadsItems(s: seq<byte>, p: nat, items: seq<HtcItem>)
    requires ReadsAt(s, p, items)
    ensures ItemsFrom(s, p) == items
  {
    var f := (q: nat) => ItemsFrom(s, q);
    forall j | 0 <= j < |items|
      ensures f(Offset(p, items, j)) == [items[j]] + f(Offset(p, items, j + 1))
    {
      ItemsFromNext(s, Offset(p, items, j), items[j], Offset(p, items, j + 1));
    }
    Unroll(f, p, items, 0);
    assert Entries(items)[..0] == [];
  }

  /** Reading at the i-th item's offset finds it and ends at the next offset. */
  lemma ItemInStream(s: seq<byte>, p: nat, items: seq<HtcItem>, i: nat)
    requires Untagged(items)
    requires p <= |s| && s[p..] == Stream(items)
    requires i < |items|
    ensures Offset(p, items, i) < |s|
    ensures ItemAt(s, Offset(p, items, i)) == (Some(items[i]), Offset(p, items, i + 1))
  {
    EntryInStream(s, p, items, i);
    EntryAt(s, Offset(p, items, i), items[i]);
  }

  /** The stream of untagged items that ends the bytes from p on is read item by item. */
  lemma StreamReads(s: seq<byte>, p: nat, items: seq<HtcItem>)
    requires Untagged(items)
    requires p <= |s| && s[p..] == Stream(items)
    ensures ReadsAt(s, p, items)
  {
    assert Entries(items)[..|items|] == Entries(items);
    forall i | 0 <= i < |items|
      ensures Offset(p, items, i) < |s| && ItemAt(s, Offset(p, items, i)) == (Some(items[i]), Offset(p, items, i + 1))
    {
      ItemInStream(s, p, items, i);
    }
  }

  /** Reading a stream of untagged items after any prefix gives the items back. */
  lemma StreamReadsBack(pre: seq<byte>, items: seq<HtcItem>)
    requires Untagged(items)
    ensures ItemsFrom(pre + Stream(items), |pre|) == items
  {
    assert (pre + Stream(items))[|pre|..] == Stream(items);
    StreamReads(pre + Stream(items), |pre|, items);
    ReadsItems(pre + Stream(items), |pre|, items);
  }

  // ---------------------------------------------------------------------
  // The converted file

  /** The records written so far and the checksum mapping built beside them. */
  datatype Converted = Converted(out: seq<byte>, mapping: map<uint64, uint64>)

  /**
   * The header main writes: the legacy marker, then reserve bytes of -1
   * standing for the table offset until the backpatch.
   */
  function Prologue(reserve: nat): (r: seq<byte>)
    ensures |r| == 4 + reserve
  {
    Pow256Widths();
    LE(MARKER_PLAIN, 4) + LE(Pow256(reserve) - 1, reserve)
  }

  /**
   * One record handled: mapping.insert at the current end of the output,
   * which keeps an existing entry, then the record appended in the legacy
   * layout.
   */
  function Next(c: Converted, x: HtcItem): (r: Converted)
    ensures |r.out| == |c.out| + |Encode(x.info, true)|
  {
    Converted(c.out + Encode(x.info, true),
              if x.checksum in c.mapping then c.mapping else c.mapping[x.checksum := |c.out| % TWO64])
  }

  /** The output after the loop has handled items. */
  function Body(reserve: nat, items: seq<HtcItem>): (c: Converted)
    ensures |c.out| >= 4 + reserve
  {
    if items == [] then Converted(Prologue(reserve), map[])
    else Next(Body(reserve, items[..|items| - 1]), items[|items| - 1])
  }

  /** The output after fewer items is a prefix of the output after more. */
  lemma {:induction false} BodyGrows(reserve: nat, items: seq<HtcItem>, j: nat)
    requires j <= |items|
    ensures |Body(reserve, items[..j]).out| <= |Body(reserve, items).out|
    ensures Body(reserve, items).out[..|Body(reserve, items[..j]).out|] == Body(reserve, items[..j]).out
  {
    if j < |items| {
      var pre := items[..|items| - 1];
      BodyGrows(reserve, pre, j);
      assert pre[..j] == items[..j];
      var c := Body(reserve, pre);
      var e := Encode(items[|items| - 1].info, true);
      var b := Body(reserve, items[..j]).out;
      assert (c.out + e)[..|b|] == c.out[..|b|];
    } else {
      assert items[..j] == items;
    }
  }

  /** The records only follow the header. */
  lemma BodyStartsWithPrologue(reserve: nat, items: seq<HtcItem>)
    ensures Body(reserve, items).out[..4 + reserve] == Prologue(reserve)
  {
    BodyGrows(reserve, items, 0);
    assert items[..0] == [];
  }

  /** The whole file: the records, the table, and the table's offset written 8 bytes wide at byte 4. */
  function ConvertedFile(reserve: nat, items: seq<HtcItem>, order: seq<uint64>): seq<byte>
    requires forall k :: k in order ==> k in Body(reserve, items).mapping
  {
    MergedFile(Pass(0, Body(reserve, items).out, Body(reserve, items).mapping), true, order)
  }

  /** The header, written at the start of the empty output. */
  method WritePrologue(out: File, reserve: nat)
    requires out.bytes == [] && out.pos == 0
    modifies out
    ensures out.bytes == Prologue(reserve) && out.pos == |out.bytes|
  {
    Pow256Widths();
    SpliceAtEnd(out.bytes, LE(MARKER_PLAIN, 4));
    out.Write(LE(MARKER_PLAIN, 4));
    SpliceAtEnd(out.bytes, LE(Pow256(reserve) - 1, reserve));
    out.Write(LE(Pow256(reserve) - 1, reserve));
  }

  /**
   * The loop's gzreads: the checksum, then the record with its payload as
   * stored. None when a read came up short, so that gzeof is now true.
   */
  method ReadItem(gz: File) returns (item: Option<HtcItem>)
    modifies gz`pos
    ensures (item, gz.pos) == ItemAt(gz.bytes, old(gz.pos))
  {
    Pow256Widths();
    ghost var s := gz.bytes;
    var start := gz.pos;
    var checksum := gz.Read64(0);
    ghost var q := gz.pos;
    var width := gz.Read32(0);
    var height := gz.Read32(0);
    var format := gz.Read32(0);
    var textureFormat := gz.Read16(0);
    var pixelType := gz.Read16(0);
    var isHiresTex := gz.Read8(0);
    assert FixedAt(s, q, true) == (TexInfo(width, height, format, textureFormat, pixelType, isHiresTex, 0, []), gz.pos);
    var dataSize := gz.Read32(0);
    var data := gz.ReadPayload(dataSize);
    if data.None? || |gz.bytes| < start + 8 + FieldsLen(true) + 4 {
      return None;
    }
    item := Some(HtcItem(checksum, TexInfo(width, height, format, textureFormat, pixelType, isHiresTex, 0, data.value)));
  }

  /** The record's fwrites at the end of the output: fixed fields, length, payload. */
  method AppendRecord(out: File, t: Record)
    requires out.pos == |out.bytes|
    modifies out
    ensures out.bytes == old(out.bytes) + Encode(t, true)
    ensures out.pos == |out.bytes|
  {
    Pow256Widths();
    ghost var s := out.bytes;
    var f := Fields(t, true);
    var tail := LE(|t.data|, 4) + t.data;
    WriteFields(out, t, true);
    WritePayload(out, t.data);
    SpliceTwice(s, |s|, f, tail);
    SpliceAtEnd(s, f + tail);
    AppendAssoc3(f, LE(|t.data|, 4), t.data);
  }

  /** A read that finds no whole record ends the records. */
  lemma ItemsFromStop(s: seq<byte>, p: nat)
    requires ItemAt(s, p).0.None?
    ensures ItemsFrom(s, p) == []
  {
  }

  /** A read that finds a record x ending at q: x, then the records from q. */
  lemma ItemsFromNext(s: seq<byte>, p: nat, x: HtcItem, q: nat)
    requires ItemAt(s, p) == (Some(x), q)
    ensures ItemsFrom(s, p) == [x] + ItemsFrom(s, q)
  {
  }

  lemma ConcatSnoc(done: seq<HtcItem>, x: HtcItem, rest: seq<HtcItem>)
    ensures done + ([x] + rest) == (done + [x]) + rest
  {
  }

  /** One loop body after the reads: mapping.insert at the current offset, then the record. */
  method AppendItem(out: File, reserve: nat, mapping0: map<uint64, uint64>, x: HtcItem, ghost done: seq<HtcItem>)
      returns (mapping: map<uint64, uint64>)
    requires Body(reserve, done) == Converted(out.bytes, mapping0)
    requires out.pos == |out.bytes|
    modifies out
    ensures Body(reserve, done + [x]) == Converted(out.bytes, mapping)
    ensures out.pos == |out.bytes|
  {
    var here := out.Tell();
    mapping := mapping0;
    if x.checksum !in mapping {
      mapping := mapping[x.checksum := here % TWO64];
    }
    AppendRecord(out, x.info);
    assert (done + [x])[..|done|] == done;
  }

  /**
   * One pass of the loop: the reads, then, when a whole item was read, its
   * mapping entry and its record. When a read came up short (eof) the pass
   * still writes FinalPass's record; ok is false when it cannot, because
   * malloc failed.
   */
  method CopyOne(gz: File, out: File, reserve: nat, checked: bool, last: Option<HtcItem>,
                 mapping0: map<uint64, uint64>, ghost s: seq<byte>, ghost done0: seq<HtcItem>, ghost p0: nat)
      returns (eof: bool, ok: bool, mapping: map<uint64, uint64>, ghost done: seq<HtcItem>)
    requires gz != out && gz.bytes == s
    requires ItemsFrom(s, p0) == done0 + ItemsFrom(s, gz.pos)
    requires Body(reserve, done0) == Converted(out.bytes, mapping0) && out.pos == |out.bytes|
    modifies gz`pos, out
    ensures !eof ==> ok && old(gz.pos) < gz.pos <= |s| && ItemsFrom(s, p0) == done + ItemsFrom(s, gz.pos)
    ensures eof ==> (ok <==> checked || last.Some?) && done == Written(s, p0, checked, last)
    ensures Body(reserve, done) == Converted(out.bytes, mapping) && out.pos == |out.bytes|
  {
    ghost var p := gz.pos;
    var item := ReadItem(gz);
    mapping, done := mapping0, done0;
    eof, ok := item.None?, true;
    if !eof {
      ItemsFromNext(s, p, item.value, gz.pos);
      ConcatSnoc(done0, item.value, ItemsFrom(s, gz.pos));
      mapping := AppendItem(out, reserve, mapping, item.value, done0);
      done := done0 + [item.value];
    } else {
      ItemsFromStop(s, p);
      assert done0 + [] == done0;
      if checked {
      } else if last.None? {
        ok := false;
      } else {
        mapping := AppendItem(out, reserve, mapping, last.value, done0);
        done := done0 + [last.value];
      }
    }
  }

  /**
   * The loop: every whole item from the cursor on is appended and mapped,
   * then the final pass's record. ok is false when the final pass's malloc
   * failed, and then nothing follows the records of the whole items.
   */
  method CopyItems(gz: File, out: File, reserve: nat, checked: bool, last: Option<HtcItem>)
      returns (ok: bool, mapping: map<uint64, uint64>)
    requires gz != out
    requires Body(reserve, []) == Converted(out.bytes, map[])
    requires out.pos == |out.bytes|
    modifies gz`pos, out
    ensures ok <==> checked || last.Some?
    ensures Body(reserve, Written(gz.bytes, old(gz.pos), checked, last)) == Converted(out.bytes, mapping)
    ensures out.pos == |out.bytes|
  {
    ghost var s, p0 := gz.bytes, gz.pos;
    mapping := map[];
    ghost var done: seq<HtcItem> := [];
    assert [] + ItemsFrom(s, p0) == ItemsFrom(s, p0);
    var eof := false;
    ok := true;
    while !eof
      invariant gz.bytes == s
      invariant !eof ==> ok && ItemsFrom(s, p0) == done + ItemsFrom(s, gz.pos)
      invariant eof ==> (ok <==> checked || last.Some?) && done == Written(s, p0, checked, last)
      invariant Body(reserve, done) == Converted(out.bytes, mapping)
      invariant out.pos == |out.bytes|
      decreases if eof then 0 else 1, |gz.bytes| - gz.pos
    {
      eof, ok, mapping, done := CopyOne(gz, out, reserve, checked, last, mapping, s, done, p0);
    }
  }

  /**
   * main from the header on: the output was just created empty and gz is
   * the decompressed .htc stream at its start. The header is written with a
   * placeholder reserve bytes wide, the stream's 4-byte header is skipped,
   * every item read is appended and mapped, and so is the final pass's
   * record. Then the table follows, and its offset goes 8 bytes wide at
   * byte 4; or main returns 1 when the final pass's malloc failed.
   */
  method Convert(gz: File, out: File, reserve: nat, checked: bool, last: Option<HtcItem>)
      returns (code: int, order: seq<uint64>)
    requires gz != out
    requires gz.pos == 0 && out.bytes == [] && out.pos == 0
    modifies gz`pos, out
    ensures code == (if checked || last.Some? then 0 else 1)
    ensures code == 1 ==> out.bytes == Body(reserve, ItemsFrom(gz.bytes, 4)).out
    ensures code == 0 ==> IsEnumeration(order, Body(reserve, Written(gz.bytes, 4, checked, last)).mapping.Keys)
    ensures code == 0 ==> out.bytes == ConvertedFile(reserve, Written(gz.bytes, 4, checked, last), order)
  {
    Pow256Widths();
    WritePrologue(out, reserve);
    var skipped := gz.Seek(4);
    var ok, mapping := CopyItems(gz, out, reserve, checked, last);
    if !ok {
      assert FinalPass(checked, last) == [];
      assert ItemsFrom(gz.bytes, 4) + [] == ItemsFrom(gz.bytes, 4);
      return 1, [];
    }
    var mappingOffset := out.Tell();
    order := WriteTable(out, mapping);
    var seeked := out.Seek(4);
    out.Write(LE(mappingOffset % TWO64, 8));
    code := 0;
  }

  /**
   * As written, a stream that holds exactly some whole items is converted
   * with one record more: the final pass's, whose checksum is mapped too.
   */
  lemma AsWrittenExtraRecord(s: seq<byte>, items: seq<HtcItem>, x: HtcItem, reserve: nat)
    requires Untagged(items)
    requires 4 <= |s| && s[4..] == Stream(items)
    ensures Written(s, 4, false, Some(x)) == items + [x]
    ensures Body(reserve, Written(s, 4, false, Some(x))).mapping.Keys == Checksums(items) + {x.checksum}
    ensures |Body(reserve, Written(s, 4, false, Some(x))).out| == |Body(reserve, items).out| + |Encode(x.info, true)|
  {
    assert s == s[..4] + Stream(items);
    StreamReadsBack(s[..4], items);
    var all := items + [x];
    assert all[..|all| - 1] == items;
    BodyKeys(reserve, all);
    ChecksumsSnoc(all);
  }

  /**
   * A loop that stops at the short read converts exactly the items the
   * stream holds, and maps exactly their checksums.
   */
  lemma CorrectedWritesStream(s: seq<byte>, items: seq<HtcItem>, last: Option<HtcItem>, reserve: nat)
    requires Untagged(items)
    requires 4 <= |s| && s[4..] == Stream(items)
    ensures Written(s, 4, true, last) == items
    ensures Body(reserve, Written(s, 4, true, last)).mapping.Keys == Checksums(items)
  {
    assert s == s[..4] + Stream(items);
    StreamReadsBack(s[..4], items);
    assert items + [] == items;
    BodyKeys(reserve, items);
  }

  // ---------------------------------------------------------------------
  // What the mapping holds

  function Checksums(items: seq<HtcItem>): set<uint64>
  {
    set i | 0 <= i < |items| :: items[i].checksum
  }

  /** Item j is the first one with checksum k. */
  ghost predicate FirstAt(items: seq<HtcItem>, k: uint64, j: int)
  {
    0 <= j < |items| && items[j].checksum == k && forall i :: 0 <= i < j ==> items[i].checksum != k
  }

  /** The record of the first item with each checksum, as mapping.insert keeps it. */
  function Firsts(items: seq<HtcItem>): map<uint64, Record>
  {
    if items == [] then map[]
    else
      var m := Firsts(items[..|items| - 1]);
      var x := items[|items| - 1];
      if x.checksum in m then m else m[x.checksum := x.info]
  }

  lemma ChecksumsSnoc(items: seq<HtcItem>)
    requires items != []
    ensures Checksums(items) == Checksums(items[..|items| - 1]) + {items[|items| - 1].checksum}
  {
    var pre := items[..|items| - 1];
    forall k | k in Checksums(items) ensures k in Checksums(pre) + {items[|items| - 1].checksum} {
      var i :| 0 <= i < |items| && items[i].checksum == k;
      if i < |pre| {
        assert pre[i] == items[i];
      }
    }
    forall k | k in Checksums(pre) ensures k in Checksums(items) {
      var i :| 0 <= i < |pre| && pre[i].checksum == k;
      assert items[i] == pre[i];
    }
  }

  /** A first occurrence stays first when an item is appended. */
  lemma FirstAtSnoc(items: seq<HtcItem>, k: uint64, j: int)
    requires items != [] && FirstAt(items[..|items| - 1], k, j)
    ensures FirstAt(items, k, j) && items[j] == items[..|items| - 1][j]
  {
    var pre := items[..|items| - 1];
    forall i | 0 <= i < j ensures items[i].checksum != k {
      assert items[i] == pre[i];
    }
  }

  /** An appended item whose checksum is new is that checksum's first occurrence. */
  lemma FirstAtLast(items: seq<HtcItem>)
    requires items != [] && items[|items| - 1].checksum !in Checksums(items[..|items| - 1])
    ensures FirstAt(items, items[|items| - 1].checksum, |items| - 1)
  {
    var n := |items|;
    var pre := items[..n - 1];
    forall i | 0 <= i < n - 1 ensures items[i].checksum != items[n - 1].checksum {
      assert items[i] == pre[i];
      assert pre[i].checksum in Checksums(pre);
    }
  }

  /** Firsts holds every checksum of the items, each with its first item's record. */
  lemma {:induction false} FirstsAreFirst(items: seq<HtcItem>)
    ensures Firsts(items).Keys == Checksums(items)
    ensures forall k :: k in Firsts(items) ==> exists j :: FirstAt(items, k, j) && Firsts(items)[k] == items[j].info
  {
    if items != [] {
      var n := |items|;
      var pre := items[..n - 1];
      var m := Firsts(pre);
      FirstsAreFirst(pre);
      ChecksumsSnoc(items);
      forall k | k in Firsts(items)
        ensures exists j :: FirstAt(items, k, j) && Firsts(items)[k] == items[j].info
      {
        if k in m {
          var j :| FirstAt(pre, k, j) && m[k] == pre[j].info;
          FirstAtSnoc(items, k, j);
        } else {
          FirstAtLast(items);
        }
      }
    }
  }

  /** One more item: a mapped checksum keeps its offset, a new one gets where the record starts. */
  lemma BodyMapStep(reserve: nat, items: seq<HtcItem>, k: uint64)
    requires items != []
    ensures var c := Body(reserve, items[..|items| - 1]);
      && (k in Body(reserve, items).mapping <==> k in c.mapping || k == items[|items| - 1].checksum)
      && (k in c.mapping ==> Body(reserve, items).mapping[k] == c.mapping[k])
      && (k !in c.mapping && k == items[|items| - 1].checksum ==> Body(reserve, items).mapping[k] == |c.out| % TWO64)
  {
  }

  /** The mapping holds exactly the checksums read. */
  lemma {:induction false} BodyKeys(reserve: nat, items: seq<HtcItem>)
    ensures Body(reserve, items).mapping.Keys == Checksums(items)
  {
    if items != [] {
      BodyKeys(reserve, items[..|items| - 1]);
      ChecksumsSnoc(items);
      forall k ensures k in Body(reserve, items).mapping <==> k in Checksums(items) {
        BodyMapStep(reserve, items, k);
      }
    }
  }

  /** The first item's checksum stays mapped to where its record was written, right after the header. */
  lemma {:induction false} FirstKeyStays(reserve: nat, items: seq<HtcItem>)
    requires |items| > 0
    ensures items[0].checksum in Body(reserve, items).mapping
    ensures Body(reserve, items).mapping[items[0].checksum] == (4 + reserve) % TWO64
  {
    var k := items[0].checksum;
    var pre := items[..|items| - 1];
    BodyMapStep(reserve, items, k);
    if |items| == 1 {
      assert pre == [];
    } else {
      assert pre[0] == items[0];
      FirstKeyStays(reserve, pre);
    }
  }

  /** Handling one record keeps every mapped offset resolving, and resolves a new checksum to that record. */
  lemma ResolvesNext(c: Converted, x: HtcItem, recs: map<uint64, Record>, lo: nat)
    requires Resolves(c.out, c.mapping, recs, true, lo)
    requires lo <= |c.out| < TWO47
    ensures Resolves(Next(c, x).out, Next(c, x).mapping,
                     if x.checksum in recs then recs else recs[x.checksum := x.info], true, lo)
  {
    var e := Encode(x.info, true);
    ResolvesAppend(c.out, e, c.mapping, recs, true, lo);
    if x.checksum !in c.mapping {
      NewOffsetTarget(0, |c.out|, true);
      assert (c.out + e)[|c.out|..|c.out| + |e|] == e;
      ResolvesUpdate(c.out + e, c.mapping, recs, true, lo, x.checksum, |c.out| % TWO64, x.info);
    }
  }

  /**
   * Every mapped offset leads, past the header, to the encoding of the
   * first record read with that checksum.
   */
  lemma {:induction false} BodyResolves(reserve: nat, items: seq<HtcItem>)
    requires |Body(reserve, items).out| < TWO47
    ensures Resolves(Body(reserve, items).out, Body(reserve, items).mapping, Firsts(items), true, 4 + reserve)
  {
    if items != [] {
      var pre := items[..|items| - 1];
      BodyResolves(reserve, pre);
      ResolvesNext(Body(reserve, pre), items[|items| - 1], Firsts(pre), 4 + reserve);
    }
  }

  /** Every offset in the mapping points inside the output: it was the output's end when its record was appended. */
  lemma {:induction false} BodyOffsets(reserve: nat, items: seq<HtcItem>)
    ensures forall k :: k in Body(reserve, items).mapping ==> Body(reserve, items).mapping[k] < |Body(reserve, items).out|
  {
    if items != [] {
      var pre := items[..|items| - 1];
      BodyOffsets(reserve, pre);
      forall k | k in Body(reserve, items).mapping
        ensures Body(reserve, items).mapping[k] < |Body(reserve, items).out|
      {
        BodyMapStep(reserve, items, k);
      }
    }
  }

  // ---------------------------------------------------------------------
  // Reading the converted file back

  /** A value that fits m bytes, written n bytes wider, gets n zero bytes on top. */
  lemma {:induction false} LEWider(x: nat, m: nat, n: nat)
    requires x < Pow256(m)
    ensures x < Pow256(m + n)
    ensures LE(x, m + n) == LE(x, m) + LE(0, n)
  {
    if m == 0 {
      assert LE(x, m) == [];
    } else {
      LEWider(x / 256, m - 1, n);
    }
  }

  /** The first record's offset: right after the header, with the first item's record there. */
  lemma FirstRecordAfterHeader(reserve: nat, items: seq<HtcItem>)
    requires |items| > 0
    ensures items[0].checksum in Body(reserve, items).mapping
    ensures Body(reserve, items).mapping[items[0].checksum] == (4 + reserve) % TWO64
    ensures Placed(Body(reserve, items).out, 4 + reserve, Encode(items[0].info, true))
  {
    FirstKeyStays(reserve, items);
    BodyGrows(reserve, items, 1);
    var one := Body(reserve, items[..1]).out;
    assert items[..1][..0] == [];
    assert one == Prologue(reserve) + Encode(items[0].info, true);
    assert one[4 + reserve..|one|] == Encode(items[0].info, true);
    PlacedSame(one, Body(reserve, items).out, 4 + reserve, Encode(items[0].info, true), 0);
  }

  /**
   * An 8-byte offset below 2^32 written at byte 4 leaves zeros in bytes
   * 8..12, so a record there reads width 0.
   */
  lemma PatchZeroesEight(out: seq<byte>, table: seq<byte>)
    requires 12 <= |out| < TWO32
    ensures FieldAt(Patched(out, table, true), 8, 4, 0).0 == 0
    ensures DecodeRaw(Patched(out, table, true), 8, true).0.Some? ==>
      DecodeRaw(Patched(out, table, true), 8, true).0.value.width == 0
  {
    Pow256Widths();
    var f := Patched(out, table, true);
    var patch := LE(|out| % TWO64, 8);
    SmallMod(|out|, TWO64);
    assert f[4..12] == patch;
    LEWider(|out|, 4, 4);
    assert f[8..12] == patch[4..8] == LE(0, 4);
    FieldAtEncoded(f, 8, 0, 4, 0);
  }

  /** So a record of nonzero width written at byte 8 does not read back from the patched file. */
  lemma PatchLosesWidth(out: seq<byte>, table: seq<byte>, t: Record)
    requires 12 <= |out| < TWO32
    requires t.width != 0
    ensures DecodeRaw(Patched(out, table, true), 8, true).0 != Some(Stored(t, true))
  {
    PatchZeroesEight(out, table);
  }

  /**
   * As written, with a 4-byte placeholder: the first record is written at
   * byte 8 and mapped there.
   */
  lemma AsWrittenMapsFirstAtEight(items: seq<HtcItem>)
    requires |items| > 0
    ensures items[0].checksum in Body(4, items).mapping && Body(4, items).mapping[items[0].checksum] == 8
    ensures Placed(Body(4, items).out, 8, Encode(items[0].info, true))
  {
    FirstRecordAfterHeader(4, items);
  }

  /**
   * ... but the 8-byte table offset written at byte 4 covers that record's
   * width, which then reads back as 0.
   */
  lemma AsWrittenLosesFirstWidth(items: seq<HtcItem>, order: seq<uint64>)
    requires |items| > 0
    requires forall k :: k in order ==> k in Body(4, items).mapping
    requires |Body(4, items).out| < TWO32
    ensures FieldAt(ConvertedFile(4, items, order), 8, 4, 0).0 == 0
    ensures items[0].info.width != 0 ==>
      DecodeRaw(ConvertedFile(4, items, order), 8, true).0 != Some(Stored(items[0].info, true))
  {
    var c := Body(4, items);
    var table := TableBytes(c.mapping, order);
    assert ConvertedFile(4, items, order) == Patched(c.out, table, true);
    PatchZeroesEight(c.out, table);
    if items[0].info.width != 0 {
      PatchLosesWidth(c.out, table, items[0].info);
    }
  }

  /**
   * With an 8-byte placeholder the file is a legacy, uncompressed .hts
   * file: check_header accepts it and its mapping offset points at the
   * table just past the records.
   */
  lemma CorrectedHeader(items: seq<HtcItem>, order: seq<uint64>)
    requires forall k :: k in order ==> k in Body(8, items).mapping
    requires |Body(8, items).out| < TWO47
    ensures HeaderAt(ConvertedFile(8, items, order), 0) == Header(true, MARKER_PLAIN, 4)
    ensures FieldAt(ConvertedFile(8, items, order), 4, 8, 0).0 == |Body(8, items).out|
  {
    Pow256Widths();
    var c := Body(8, items);
    HeaderPrefix(true, false);
    BodyStartsWithPrologue(8, items);
    assert c.out[..4] == Prologue(8)[..4] == LE(MARKER_PLAIN, 4);
    MergedHeaderReadsBack(Pass(0, c.out, c.mapping), true, false, order);
  }

  /**
   * With an 8-byte placeholder every mapped checksum leads past the header
   * to the first record read with that checksum.
   */
  lemma CorrectedRecords(items: seq<HtcItem>, order: seq<uint64>)
    requires forall k :: k in order ==> k in Body(8, items).mapping
    requires |Body(8, items).out| < TWO47
    ensures Body(8, items).mapping.Keys == Firsts(items).Keys == Checksums(items)
    ensures forall k :: k in Body(8, items).mapping ==>
      && 12 <= SeekTarget(Body(8, items).mapping[k])
      && DecodeRaw(ConvertedFile(8, items, order), SeekTarget(Body(8, items).mapping[k]) as nat, true).0
         == Some(Stored(Firsts(items)[k], true))
  {
    var c := Body(8, items);
    BodyKeys(8, items);
    FirstsAreFirst(items);
    BodyResolves(8, items);
    MergedRecordsReadBack(Pass(0, c.out, c.mapping), Firsts(items), true, order);
  }
}
