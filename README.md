# HTS texture-cache tools, modelled in Dafny

This project models three small tools for HTS texture-cache files, the
high-resolution texture packs of an N64 graphics plugin.

An HTS file has three parts:
- a header: a version word in the current format, then a marker that says whether payloads are zlib-compressed, then a 64-bit mapping offset;
- a sequence of texture records (`GHQTexInfo`);
- at the mapping offset, a table: a 32-bit count, then (64-bit checksum, 64-bit offset) pairs.

The tools are:

- **hts2merge** (`hts2merge.cpp`) merges two HTS files into one.
  - `check_header` classifies a file as legacy or current and as compressed or not.
  - `read_info` and `write_info` decode and encode one record, including the zlib payload handling.
  - `StorageOffset` packs a 48-bit offset with a 16-bit N64 format/size tag.
  - `write_cache` copies every record an input's table names to the end of the output. It stores the new offset in a map keyed by checksum.
  - `main` writes a placeholder header, merges input A and then input B, writes the table, and backpatches the mapping offset.
- **htc2uhts** (`htc2uhts.cpp`) converts a gzip'd `.htc` stream of (checksum, record) items into a legacy HTS file.
  - It rewrites the file name's extension.
  - It keeps the first offset seen for each checksum.
- **hts2png** (`hts2png.c`) walks a legacy uncompressed HTS file's table.
  - It reads each record with its own `read_info`.
  - It names the PNG file after the checksum.
  - It lays the RGBA payload out in rows for the PNG writer.

## Files and modules

- `bytes.dfy`: `Wrappers` (Option) and `Bytes`. Little-endian fixed-width fields, the way `fwrite`/`fread` of an integer lay it out on the little-endian targets the tools run on. `Splice` is what a write at a file position does.
- `files.dfy`: `Files`. A `FILE*` is a class `File` with the file's bytes and a cursor. `FieldAt` and `PayloadAt` are the meaning of one `fread`; `FilledAt` is that of a payload `fread` whose count the caller ignores.
- `zlib.dfy`: `Zlib`. `compress2` and `uncompress` are calls into a library that is not part of this model. They are a parameter `Codec`, and `Valid` is what the model assumes of it.
- `texture.dfy`: `Texture`. The texture record and its byte layout, which all three tools share, with its round trip.
- `hts_merge.dfy`: `HtsMerge`, covering hts2merge.
- `htc_to_hts.dfy`: `HtcToHts`, covering htc2uhts.
- `hts_to_png.dfy`: `HtsToPng`, covering hts2png. It also holds the cross-tool theorems: hts2png exports exactly the textures a merge or a conversion stored.

State that the C code changes in place becomes imperative Dafny:
- the file cursor and the output bytes;
- the mapping;
- the name buffer;
- the row arrays.

Each such method is proved against a function. Examples are `Decode`, `Emitted`, `Run`, `Body`, `ItemsFrom` and `ExportAll`. The lemmas state what the tools promise about those functions.

## Model

| member | source | states |
|---|---|---|
| Bytes.FromLEofLE | hts2merge.cpp:65-66 | a field written little-endian in n bytes reads back as the same value |
| Bytes.LEofFromLE | hts2merge.cpp:65-66 | any n bytes are the little-endian form of the value read from them, so reading loses nothing |
| Bytes.LEInjective | hts2merge.cpp:66 | distinct values are written as distinct byte strings |
| Bytes.SpliceAtEnd | hts2merge.cpp:66 | a write at the end of a file appends |
| Bytes.SpliceTwice | hts2merge.cpp:137-166 | two writes in a row are one write of the concatenation |
| Bytes.SpliceElsewhere | hts2merge.cpp:410-413 | a write after a seek leaves every byte outside the written window as it was, and bytes past the old end read as zero |
| Files.FieldAtEncoded | hts2merge.cpp:65 | an fread of k bytes over the encoding of x yields x and moves the cursor k bytes, whatever the variable held before |
| Files.File.Open | hts2merge.cpp:331 | an opened input shows its contents, with the cursor at 0 |
| Files.File.Create | hts2merge.cpp:351 | a file opened with "wb+" is empty, with the cursor at 0 |
| Files.File.Tell | hts2merge.cpp:231 | ftell is the cursor |
| Files.File.Seek | hts2merge.cpp:214 | fseek succeeds exactly when the offset is not negative; then the cursor is the offset, otherwise it does not move |
| Files.File.Read | hts2merge.cpp:65 | an fread of a k-byte field gives the field, or the variable's prior value when the file ends first, and the cursor is where FieldAt says |
| Files.File.Read8 | hts2merge.cpp:82 | the 1-byte instance of Read |
| Files.File.Read16 | hts2merge.cpp:80-81 | the 2-byte instance of Read |
| Files.File.Read32 | hts2merge.cpp:77-79 | the 4-byte instance of Read |
| Files.File.Read64 | hts2merge.cpp:227-228 | the 8-byte instance of Read |
| Files.File.ReadPayload | htc2uhts.cpp:100 | reading n payload bytes gives exactly n bytes, or fails when the file is shorter |
| Files.FilledAt | hts2merge.cpp:89-95 | a fresh n-byte buffer read from the file always holds n bytes; when the file holds them all, they are the file's bytes and the cursor moves n |
| Files.File.ReadFill | hts2merge.cpp:89-95 | the buffer and the cursor are those FilledAt gives |
| Files.File.Write | hts2merge.cpp:66 | fwrite overwrites or extends the file at the cursor and moves the cursor past what it wrote |
| Zlib.CompressedStream | hts2merge.cpp:154 | a successful compress2 yields a nonempty stream that uncompress turns back into the input |
| Zlib.UncompressFits | hts2merge.cpp:110-119 | uncompress succeeds exactly when the inflated data fits the buffer, and reports Z_BUF_ERROR exactly when it does not fit a nonzero buffer |
| Texture.WithGz | hts2merge.cpp:132-135 | `format \|= GL_TEXFMT_GZ` sets the compression bit, keeps the other 31 bits, and changes nothing when the bit is already set |
| Texture.EncodeParts | hts2merge.cpp:137-146 | the record layout field by field: width, height, format, texture_format, pixel_type, is_hires_tex, then the format/size tag only in the current format |
| Texture.EncodeTail | hts2merge.cpp:165-166 | the fixed fields are followed by the 32-bit payload length and then the payload itself |
| Texture.FixedAtEncoded | hts2merge.cpp:77-86 | reading the fixed fields of a written record gives its fields back; the legacy layout gives a zero tag |
| Texture.DecodeEncoded | hts2merge.cpp:75-95 | reading a written record without decompression gives the record back and stops at its end |
| Texture.TailRead | hts2merge.cpp:87-95 | in a written record, dataSize reads back as the payload length and the payload read gives the payload |
| Texture.LengthPayloadRead | hts2merge.cpp:87-95 | a length followed by that many bytes reads back as that payload |
| Texture.EncodedIsWhole | hts2merge.cpp:75-95 | a written record lies entirely inside the file and ends where its encoding ends |
| Texture.DecodeFill | hts2merge.cpp:75-95 | read_info's reads never move the cursor backwards, and the payload they yield fits the 32-bit dataSize |
| Texture.DecodeFillRaw | hts2merge.cpp:75-95 | reads that ignore the payload fread's count end where the checking decoder ends, and give the same record whenever the whole payload is present |
| Texture.DecodeLocal | hts2merge.cpp:75-95 | a whole record decodes the same in any file holding the same bytes at the same place, so writes elsewhere cannot disturb it |
| HtsMerge.HeaderClassification | hts2merge.cpp:170-204 | the current format is chosen iff the first int32 is 0x08000000, with the marker in the second; otherwise the format is legacy and the first int32 is the marker; a known marker determines the compression mode |
| HtsMerge.CheckHeader | hts2merge.cpp:170-204 | returns true iff the marker is 1075970048 or 1084358656; legacy as classified; on success, compressed iff the marker is 1084358656; the cursor is after the header words |
| HtsMerge.HeaderPrefix | hts2merge.cpp:380-386 | the output header is the version word (current format only) followed by the marker for the chosen compression |
| HtsMerge.LegacyHeaderAt | hts2merge.cpp:182-186 | a file that starts with a known marker is legacy, with that marker, and its header ends at byte 4 |
| HtsMerge.CurrentHeaderAt | hts2merge.cpp:176-181 | a file that starts with the version word is current, with the marker from the second word, and its header ends at byte 8 |
| HtsMerge.HeaderRoundTrip | hts2merge.cpp:380-386 | check_header accepts the header main writes, with the same format and compression |
| HtsMerge.PackUnpack | hts2merge.cpp:43-50 | packing a 48-bit offset with a 16-bit tag gives both back |
| HtsMerge.UnpackPack | hts2merge.cpp:43-50 | every 64-bit StorageOffset is its offset and tag packed together |
| HtsMerge.SetOffsetKeepsTag | hts2merge.cpp:286 | assigning `_offset` keeps the tag, stores the position modulo 2^48, and seeks back to that position when it is below 2^47 |
| HtsMerge.FormatSizeSplit | hts2merge.cpp:30-41 | the 16-bit format/size tag and its (format, size) bytes convert into each other without loss |
| HtsMerge.TwiceDataSize | hts2merge.cpp:100 | the first uncompress buffer is `dataSize * 2` in 32-bit arithmetic, so it is below 2^32 |
| HtsMerge.Inflate | hts2merge.cpp:97-125 | the retry loop starts at 2×dataSize and doubles on Z_BUF_ERROR; it returns the inflated data when zlib succeeds and fails on any other error; a result fits the final buffer; a retry happened only when the data did not fit |
| HtsMerge.DoubledStep | hts2merge.cpp:114 | doubling the buffer keeps it the start size times a power of two |
| HtsMerge.DataSizeView | hts2merge.cpp:124 | `info->dataSize = destLen` keeps the inflated data whole when it fits in 32 bits |
| HtsMerge.Decode | hts2merge.cpp:75-128 | read_info never moves the cursor backwards, and a decoded record's payload length fits dataSize |
| HtsMerge.DecodeFailsOnlyInflating | hts2merge.cpp:94-127 | read_info fails exactly when a compressed payload does not inflate; an uncompressed record is always read, even when the file ends inside it |
| HtsMerge.ReadInfo | hts2merge.cpp:75-128 | read_info succeeds exactly when Decode does, fills in Decode's record, and leaves the cursor where Decode ends |
| HtsMerge.DecodeKeepsFormat | hts2merge.cpp:97-125 | read_info ends where the record's reads end and returns the stored format unchanged, with the compression bit still set; a compressed payload is replaced by its inflation, and read_info succeeds iff it inflates; a plain one is kept |
| HtsMerge.Prepare | hts2merge.cpp:148-163 | the payload write_info emits still fits dataSize |
| HtsMerge.WriteFields | hts2merge.cpp:137-146 | the fixed fields are written at the cursor in layout order |
| HtsMerge.WritePayload | hts2merge.cpp:165-166 | dataSize and then the payload are written at the cursor |
| HtsMerge.WriteInfo | hts2merge.cpp:130-168 | write_info fails exactly when compress2 does, and writes the bytes Emitted describes |
| HtsMerge.EmittedShape | hts2merge.cpp:130-168 | write_info writes the fields with the compression bit set when compressing; on compress2 failure it writes only those fields; otherwise they are followed by the length and the payload, and the length always equals the payload written |
| HtsMerge.EncodeThenDecode | hts2merge.cpp:75-128 | reading a record back gives its fields, with the payload inflated exactly when the stored format carries the compression bit |
| HtsMerge.PlainRoundTrip | hts2merge.cpp:130-168 | without compression, write_info writes the plain encoding and read_info gives the record back |
| HtsMerge.CompressedRoundTrip | hts2merge.cpp:148-163 | with compression, the written format carries the bit and read_info gives back the original payload with that format |
| HtsMerge.CompressedIntoPlain | hts2merge.cpp:290 | a compressed record copied without compression is written as is, and reads back exactly when its payload inflates |
| HtsMerge.VisitAt | hts2merge.cpp:227-234 | after a copied entry the input resumes just past the 16-byte (checksum, offset) pair, or at the end of a file too short to hold it |
| HtsMerge.CopyEntry | hts2merge.cpp:218-299 | one loop iteration: the input cursor, the output bytes and the mapping become what Step gives, and the output cursor stays at the end |
| HtsMerge.CopyEntries | hts2merge.cpp:218-299 | the loop runs mappingSize times, none when mappingSize is not positive, and its state is Iterate's |
| HtsMerge.WriteCache | hts2merge.cpp:206-302 | write_cache leaves the input cursor, the output and the mapping as Run gives them |
| HtsMerge.IterateGrows | hts2merge.cpp:206-302 | write_cache only appends to the output |
| HtsMerge.NewOffsetTarget | hts2merge.cpp:280-287 | the new mapping value seeks to the output position where the record is written; the legacy output stores the whole position, and the current output keeps the input entry's tag |
| HtsMerge.SkipKeepsState | hts2merge.cpp:236-240 | an entry whose read_info fails changes neither the output nor the mapping, and leaves the input cursor where read_info stopped, not restored |
| HtsMerge.IterateKeys | hts2merge.cpp:288 | the mapping's keys are the old keys plus the checksums of the copied entries; skipped entries add none |
| HtsMerge.IterateOverrides | hts2merge.cpp:288 | `mapping[checksum] = offset` means entries copied now replace earlier values for the same checksum, and the earlier mapping does not affect the output |
| HtsMerge.PlainIterateWrites | hts2merge.cpp:290-293 | without compression, every write_info in the loop succeeds |
| HtsMerge.ResolvesUpdate | hts2merge.cpp:288 | pointing a checksum at a newly written record keeps every mapping value pointing at its record |
| HtsMerge.StepResolves | hts2merge.cpp:279-293 | one iteration keeps every mapping value pointing at the encoding of the record it names |
| HtsMerge.IterateResolves | hts2merge.cpp:218-299 | after the loop, every checksum in the mapping points at the written form of its last copied record |
| HtsMerge.RunResolves | hts2merge.cpp:206-302 | write_cache keeps the output's existing prefix and keeps every mapping value pointing at its record |
| HtsMerge.RunGrows | hts2merge.cpp:206-302 | write_cache keeps the output written so far as a prefix |
| HtsMerge.RunOverrides | hts2merge.cpp:288 | the mapping after write_cache is the earlier mapping overridden by this input's entries |
| HtsMerge.MergePlan | hts2merge.cpp:353-370 | merging goes ahead iff both headers have known markers and the same format; compression comes from input A's marker |
| HtsMerge.WriteHeader | hts2merge.cpp:380-386 | the version word when current, the marker for A's compression, and an 8-byte zero placeholder |
| HtsMerge.PairsSnoc | hts2merge.cpp:404-408 | each further table entry appends its checksum and then its 64-bit value |
| HtsMerge.WritePair | hts2merge.cpp:406-407 | one table entry is the checksum and then the stored 64-bit value |
| HtsMerge.AppendPair | hts2merge.cpp:404-408 | writing one more entry extends the pair bytes for the listed keys |
| HtsMerge.ListedStep | hts2merge.cpp:404-408 | taking one more key keeps the listed and remaining keys a partition with no repeats |
| HtsMerge.ListedDone | hts2merge.cpp:404-408 | when no key remains, the keys written so far enumerate the mapping |
| HtsMerge.WriteTable | hts2merge.cpp:399-408 | the table is the count and then one pair per key, each key exactly once in some order |
| HtsMerge.EnumerationSize | hts2merge.cpp:400 | the number of pairs written equals the number of distinct checksums |
| HtsMerge.PairsAt | hts2merge.cpp:404-408 | pair i of the table holds the i-th key and its mapping value |
| HtsMerge.TableLayout | hts2merge.cpp:403-408 | the table starts with the 32-bit count, and entry i sits at 4 + 16i |
| HtsMerge.TableReadBack | hts2merge.cpp:403-408 | reading a written table gives back the count and every (checksum, value) pair |
| HtsMerge.Merge | hts2merge.cpp:372-413 | exit status 0 iff the headers are compatible, with the output empty otherwise; on success the output is the header, A's and then B's copied records, the table of every checksum, and the backpatched mapping offset |
| HtsMerge.MergeKeepsHeader | hts2merge.cpp:380-397 | the header written first survives both write_cache passes |
| HtsMerge.MergeCoversHeader | hts2merge.cpp:380-386 | records start after the header and its 8-byte placeholder |
| HtsMerge.MergeResolves | hts2merge.cpp:388-397 | after both passes, every checksum points at the written form of its record, with B's records overriding A's |
| HtsMerge.MergedKeys | hts2merge.cpp:388-397 | the merged mapping's keys are the checksums copied from A plus those copied from B |
| HtsMerge.MergeOverrides | hts2merge.cpp:394 | the merged mapping is A's mapping overridden by B's entries |
| HtsMerge.RecordsReadBack | hts2merge.cpp:399-413 | once the table is written and the header patched, every mapping value still decodes to its record |
| HtsMerge.PatchAgrees | hts2merge.cpp:410-413 | the backpatch changes no byte outside the 8 bytes it writes |
| HtsMerge.PatchedHeader | hts2merge.cpp:410-413 | the backpatch leaves the header words readable as before |
| HtsMerge.PatchedOffset | hts2merge.cpp:411-413 | the backpatch stores the mapping offset (the end of the records) at byte 4 for legacy output and at byte 8 for current output |
| HtsMerge.PatchedTable | hts2merge.cpp:399-408 | the table sits at the mapping offset |
| HtsMerge.PatchedRecords | hts2merge.cpp:410-413 | the records between the header and the table are untouched by the backpatch |
| HtsMerge.MergedHeaderReadsBack | hts2merge.cpp:372-413 | the merged file's header reads back with the chosen format and marker, and its mapping offset field is the start of the table |
| HtsMerge.MergedTableReadsBack | hts2merge.cpp:399-408 | the merged file's table reads back as the mapping's size and its (checksum, value) pairs |
| HtsMerge.MergedRecordsReadBack | hts2merge.cpp:279-288 | in the merged file, every mapping value seeks to a record that decodes to the record stored under that checksum |
| HtcToHts.Lowered | htc2uhts.cpp:41 | lowercasing keeps the length |
| HtcToHts.OutputNameSpec | htc2uhts.cpp:39-49 | a name is accepted iff its last 4 characters, lowercased, are ".htc"; the output name keeps the stem, ends in ".hts" and would itself be refused |
| HtcToHts.OutputNameOfStem | htc2uhts.cpp:39-49 | any stem followed by any capitalisation of ".htc" becomes the stem followed by ".hts" |
| HtcToHts.RewriteExtension | htc2uhts.cpp:39-49 | in place: on success the buffer holds the output name; on refusal, the last 4 characters stay lowercased |
| HtcToHts.ItemAt | htc2uhts.cpp:78-100 | reading never moves backwards, and an item is read only when every read gets all its bytes, ending just past the item's bytes inside the stream |
| HtcToHts.EntryAt | htc2uhts.cpp:84-100 | an item's bytes read back as that item |
| HtcToHts.EntryInStream | htc2uhts.cpp:84-100 | item i of a stream lies between the offsets of items i and i+1 |
| HtcToHts.ItemInStream | htc2uhts.cpp:78-100 | reading at item i's offset yields item i and moves to item i+1 |
| HtcToHts.StreamReads | htc2uhts.cpp:78-100 | the reading loop finds each item of a stream at its offset |
| HtcToHts.ReadsItems | htc2uhts.cpp:78-121 | a stream read item by item yields exactly its items |
| HtcToHts.StreamReadsBack | htc2uhts.cpp:78-121 | the record loop reads back exactly the items whose serialisation follows the skipped 4-byte header |
| HtcToHts.Body | htc2uhts.cpp:67-121 | the output always holds at least the marker and the placeholder |
| HtcToHts.BodyGrows | htc2uhts.cpp:104-121 | the loop only appends to the output |
| HtcToHts.BodyStartsWithPrologue | htc2uhts.cpp:67-70 | the output starts with marker 1075970048 and the placeholder |
| HtcToHts.WritePrologue | htc2uhts.cpp:67-70 | writes the marker and the reserved placeholder |
| HtcToHts.ReadItem | htc2uhts.cpp:84-100 | one iteration's reads yield the item ItemAt gives, or none once a read comes up short, and move the stream where ItemAt says |
| HtcToHts.AppendRecord | htc2uhts.cpp:108-117 | each item is written as its legacy record (no tag) with its payload unmodified |
| HtcToHts.AppendItem | htc2uhts.cpp:104-117 | the output and the mapping become Body of the items so far |
| HtcToHts.CopyOne | htc2uhts.cpp:78-121 | a pass that reads a whole item appends it and makes progress; the pass whose reads come up short appends the final pass's record, or fails when its malloc fails; the output and mapping stay Body of the items written |
| HtcToHts.CopyItems | htc2uhts.cpp:78-121 | after the loop, the output and mapping are Body of every whole item in the stream followed by the final pass's record; it fails exactly when that pass's malloc fails |
| HtcToHts.Convert | htc2uhts.cpp:67-140 | main returns 1, leaving only the prologue and the whole items' records, exactly when the final pass's malloc fails; otherwise 0, and the file is the prologue, the records of every whole item and of the final pass, the table of every distinct checksum and the backpatched offset |
| HtcToHts.AsWrittenExtraRecord | htc2uhts.cpp:78-121 | converting a stream of whole items writes one record more than it holds, and maps the extra record's checksum too |
| HtcToHts.CorrectedWritesStream | htc2uhts.cpp:78-121 | a loop that stops at the short read converts exactly the stream's items and maps exactly their checksums |
| HtcToHts.FirstsAreFirst | htc2uhts.cpp:105 | the kept record for each checksum is that of its first occurrence |
| HtcToHts.BodyMapStep | htc2uhts.cpp:105 | insert adds a checksum only when it is new, at the position before its record, and never changes an existing value |
| HtcToHts.BodyKeys | htc2uhts.cpp:105 | the mapping's keys are exactly the checksums in the stream |
| HtcToHts.FirstKeyStays | htc2uhts.cpp:105 | the first item's checksum maps to the first record position for good |
| HtcToHts.ResolvesNext | htc2uhts.cpp:104-117 | writing an item keeps every mapping value pointing at its checksum's first record |
| HtcToHts.BodyResolves | htc2uhts.cpp:78-121 | every mapping value points at the record of its checksum's first occurrence, although later duplicates are still written |
| HtcToHts.BodyOffsets | htc2uhts.cpp:105 | every mapping value is a position inside the records written |
| HtcToHts.FirstRecordAfterHeader | htc2uhts.cpp:67-70 | the first record starts right after the prologue |
| HtcToHts.PatchZeroesEight | htc2uhts.cpp:138-140 | the 8-byte backpatch at byte 4 of a file under 4 GiB zeroes bytes 8-11 |
| HtcToHts.PatchLosesWidth | htc2uhts.cpp:138-140 | a record at byte 8 with a nonzero width no longer reads back after the backpatch |
| HtcToHts.AsWrittenMapsFirstAtEight | htc2uhts.cpp:68-70 | with the 4-byte placeholder, the first record is mapped to, and written at, byte 8 |
| HtcToHts.AsWrittenLosesFirstWidth | htc2uhts.cpp:68-70 | the converted file as written reads 0 for the first record's width, so a first record with nonzero width does not read back |
| HtcToHts.CorrectedHeader | htc2uhts.cpp:129-140 | with an 8-byte placeholder, the file reads as legacy with marker 1075970048, and the mapping offset is the end of the records |
| HtcToHts.CorrectedRecords | htc2uhts.cpp:104-140 | with an 8-byte placeholder, the mapping's keys are the stream's checksums, and each points at a record that reads back as its first occurrence |
| HtsToPng.DigitValueOfHexDigit | hts2png.c:54 | each hex digit is an uppercase character from which its value is recovered |
| HtsToPng.Hex | hts2png.c:54 | `%08X` gives exactly 8 characters |
| HtsToPng.FromHexOfHex | hts2png.c:54 | a zero-padded uppercase hex field reads back as its value |
| HtsToPng.HexDigits | hts2png.c:54-58 | hex fields use only the digits 0-9 and A-F |
| HtsToPng.HalvesJoin | hts2png.c:49-50 | `chksum` is the low and `palchksum` the high 32 bits of the checksum |
| HtsToPng.NameRoundTrip | hts2png.c:47-60 | the checksum can be recovered from the file name |
| HtsToPng.FileNameInjective | hts2png.c:47-60 | distinct checksums give distinct file names |
| HtsToPng.NameSuffix | hts2png.c:52-59 | the name ends in "_all.png" exactly when `palchksum` is zero |
| HtsToPng.ReadInfo | hts2png.c:23-45 | read_info fills in InfoAt's fields and payload and moves the cursor where InfoAt says |
| HtsToPng.InfoAtIsDecodeRaw | hts2png.c:23-45 | read_info reads the legacy layout, with no tag and no decompression |
| HtsToPng.InfoAtEncoded | hts2png.c:23-45 | a written legacy record reads back fully with its payload, and the cursor stops at its end |
| HtsToPng.InfoAtOfDecodeRaw | hts2png.c:23-45 | whenever the raw legacy decoder finds a record and malloc succeeds, read_info loads that same record |
| HtsToPng.OpenMapping | hts2png.c:204-220 | header check and mapping size: reads the marker and the mapping offset, then the count at the offset |
| HtsToPng.HeaderRejected | hts2png.c:204-215 | unless the first int32 is 1075970048, main exits with status 1 and exports nothing |
| HtsToPng.ExportEntry | hts2png.c:225-264 | one entry: the export with checksum and record, and the cursor for the next entry |
| HtsToPng.RestoredAfterExport | hts2png.c:233-264 | after an export the cursor returns to just past the 16-byte entry |
| HtsToPng.SkipLeavesCursorInRecord | hts2png.c:236-243 | read_info fails exactly when malloc fails, and then the `continue` leaves the cursor after the record's length field, not restored |
| HtsToPng.WalkOne | hts2png.c:222-265 | one loop iteration keeps the exports so far plus the rest of the walk equal to the whole outcome |
| HtsToPng.WalkLoop | hts2png.c:222-265 | the loop runs mappingSize times, none when mappingSize is not positive, and yields Walk's outcome |
| HtsToPng.Export | hts2png.c:204-265 | main's export run yields exactly ExportAll's outcome |
| HtsToPng.WalkEntries | hts2png.c:222-265 | if every entry of a table exports, the walk exports them all in table order with status 0 |
| HtsToPng.SmallOffset | hts2png.c:237 | an offset below 2^47 is a nonnegative seek target equal to itself |
| HtsToPng.MergedMappingAt | hts2png.c:204-220 | in a legacy uncompressed merged file, hts2png accepts the header and finds the table at the backpatched offset |
| HtsToPng.EntryFromTable | hts2png.c:225-264 | an entry naming a record that decodes exports that record under the entry's checksum |
| HtsToPng.TableExports | hts2png.c:204-265 | if a file's table pairs and records are in place, hts2png exports every listed record in table order |
| HtsToPng.MergedExports | hts2png.c:204-265 | hts2png exports a legacy uncompressed merged file completely: every checksum of the merge once, in table order, each with the record stored under it |
| HtsToPng.ConvertedExports | hts2png.c:204-265 | hts2png exports a converted file, with the corrected 8-byte placeholder, completely: every distinct checksum with its first record |
| HtsToPng.RowPixel | hts2png.c:115-127 | byte c of pixel (x, y) in a row is `data[4*(y*width + x) + c]` |
| HtsToPng.CopyRows | hts2png.c:115-128 | row-major copy: one row array per image row, each holding that row's 4-byte pixels in order |
| HtsToPng.AsWrittenRowsVisited | hts2png.c:118 | the loop as written visits height + 1 rows |
| HtsToPng.AsWrittenOverrun | hts2png.c:117-128 | the loop visits rows 0 to height, and the last one is not a row of the image; its first pixel is at offset 4·width·height, past the pixel data |

## Findings

| source | as written | input that shows it | evidently intended | confidence | as-written member | corrected member |
|---|---|---|---|---|---|---|
| htc2uhts.cpp:68-70 | The header reserves 4 bytes for the mapping offset (an int32_t). Lines 139-140 then write the 8-byte int64_t offset at byte 4, which overwrites bytes 8-11, the first record's width. | any .htc stream whose first item has a nonzero width: the converted file reads that record back with width 0 | an 8-byte placeholder, as hts2merge.cpp:386 writes, so records start at byte 12 | not executed | HtcToHts.AsWrittenLosesFirstWidth | HtcToHts.CorrectedRecords |
| htc2uhts.cpp:78 | `while (!gzeof(gzfp))` tests for the end before reading. gzeof turns true only when a read comes up short, so after the last whole item the loop runs once more. That pass writes a record and a mapping entry made of uninitialised values, or returns 1 when malloc of the stale dataSize fails. | any .htc stream holding whole items only, even none: the converted file has one record more than the stream | stop the loop when a gzread returns fewer bytes than asked, before writing | not executed | HtcToHts.AsWrittenExtraRecord | HtcToHts.CorrectedWritesStream |
| hts2png.c:118 | The row loop runs `y <= info->height`. It stores a pointer at `row_pointers[height]`, one past the malloc'd array, and reads a row of pixels past the payload. | any texture with height 1 and width 1: the loop visits rows 0 and 1 | `y < info->height` | not executed | HtsToPng.AsWrittenOverrun | HtsToPng.CopyRows |

## Left out

- zlib, gzip and libpng are library calls and are not part of this model:
  - `compress2` and `uncompress` are the parameter `Zlib.Codec`, and `Zlib.Valid` is what the model assumes of it;
  - the `.htc` input is its gunzipped byte stream;
  - the PNG writer is `write_info_to_png`; hts2png's walk takes its success as a parameter `written`.
- `Zlib.Valid`: it assumes every inflated payload is under 4 GiB. So the truncation of a larger one to the 32-bit `dataSize` (hts2merge.cpp:124) is modelled by `HtsMerge.DataSizeView` but never reached under it.
- `malloc` can fail. That is modelled only where it changes the control flow: hts2png's `read_info` takes a parameter `fits`, and htc2uhts' final pass a parameter `last`. Elsewhere allocation succeeds; leaks and `free` are not modelled.
- A fixed-width field cut short by end of file: the variable keeps its initial value, and the cursor moves to the end. The model takes that value as zero. That is exact in hts2merge, whose `info` starts zeroed, when no byte of the field remains. For a partial read, and in hts2png, whose `struct GHQTexInfo info;` is uninitialised, C leaves the value indeterminate.
- `HtsMerge.Decode`: in hts2merge a payload cut short is still read, and the record is copied. The bytes fread did not fill are taken as zero; in C they are whatever malloc returned. hts2png's `HtsToPng.InfoAt` keeps such a payload unspecified (`payload` None) and still exports the record.
- `HtcToHts.Convert`: the record the loop's final pass writes is the parameter `last`. The model does not tie its values to the bytes of a partial trailing item or to the previous pass's stale values. The as-written behaviour is `checked` false; `checked` true is the corrected loop that stops at the short read.
- `HtcToHts.ItemAt`: htc2uhts' `dataSize` is an `int32_t`, and a negative value makes `malloc` fail or wrap. The model reads the field as unsigned.
- `HtcToHts.RewriteExtension` requires a name of at least 4 characters. For a shorter name, `strlen - 4` points before the buffer.
- Buffer sizes (PATH_MAX) and the overflow of `sprintf` or `strcpy` into them are not modelled.
- Operating-system plumbing is not modelled:
  - fopen/fclose failures;
  - stat, mkdir, chdir and basename;
  - the `_HIRESTEXTURES.hts` substring check;
  - argc handling;
  - the wrong NULL check at hts2merge.cpp:338;
  - handles left open at hts2merge.cpp:418;
  - printf and fprintf diagnostics.
- The iteration order of `std::unordered_map` is unspecified. `HtsMerge.WriteTable` and `HtcToHts.Convert` choose an order and return it. The properties hold for every order: each key exactly once.
- `HtsMerge.WriteCache`: `write_cache` always returns true, so main's two `return 1` paths after it are dead and have no model.
- `HtsMerge.MergeResolves` and `HtsToPng.MergedExports` require the output to stay below 2^47 bytes, so that mapping values fit the 48-bit signed offset. They also require that no write_info in the merge fails. When compress2 fails, the source maps the checksum to a record it wrote only in part.
- `HtsToPng.MergedExports` and `HtsToPng.ConvertedExports` require fewer than 2^31 distinct checksums, because the table count is an `int32_t`. They also cover only legacy, uncompressed files, the only ones hts2png accepts.
- `HtsMerge.CompressedRoundTrip` excludes a compressed payload of exactly 2^31 bytes. There, `dataSize * 2` wraps to 0 in 32-bit arithmetic and uncompress reports a data error.
- `HtsToPng.CopyRows` requires a positive width and height and at least 4·width·height payload bytes. The source checks neither, so a short payload is read out of bounds.
- `HtsToPng.ReadInfo` is hts2png's own legacy reader: no format/size tag and no decompression. hts2png accepts only the uncompressed legacy marker, so the cross-tool theorems cover only those files.
