# usmparser in Dafny

A model of the Go package `parser` of usmparser, a reader and writer for CRI
USM video containers. The model has seventeen modules, one for each part of the
package's work:

- **Chunks.** A USM file is a sequence of chunks. Each chunk is an 8-byte
  header (a four-byte tag such as `CRID`, `@SFV`, `@SFA`, `@SBT`, and a
  big-endian size), a 24-byte payload header, the payload and zero padding
  (`ChunkLayout`, `Builder.WriteChunk`, `Parser.ReadChunk`).
- **UTF tables.** Header and seek payloads are tables. A table is an 8-byte
  `@UTF` header, a 24-byte fixed part, and four regions: shared, unique,
  string and byte (`TableTypes`, `Parser.ParsePayload`).
  - Typed entries are packed into a table by `compressDict` and
    `compressPayload` (`Builder`).
  - A table is read back into rows of key/entry maps by `BuildDict` (`Dict`).
  - The type tag of an entry is decoded by `GetValue` (`UsmValue`).
  - That `BuildDict` reads back what `compressDict` wrote is proved in
    `TableCodec`.
- **Remuxing.**
  - `ParseFile` sorts every chunk of a file into a `USMInfo`: the root
    chunk, a header table and a seek table per stream, and the video,
    audio and subtitle streams.
  - `PrepareStreams` orders the three streams and closes each with a
    contents-end marker. It panics on an empty stream, so on any file
    without subtitles (see Findings).
  - `WriteTo` writes the file back. It reserves a hole for the video seek
    table, interleaves the streams by frame time, records where each video
    chunk lands, and then writes the generated seek table into the hole.
  - `ReplaceAudio` moves the audio of one file into another.
  - These live in `UsmInfo`, `FileLayout`, `Remux`, `VideoSeek` and
    `Usm`, which holds the `USMInfo` class.
- **Subtitles.** `GetSubs` collects the `@SBT` records by language.
  `SubsToSrt` and `SubsToTxt` render them as SubRip or as plain text
  (`Subs`).
- **Shared pieces.**
  - Go's readers and the output file: `GoIo`.
  - Fixed-width integers and byte orders: `Bytes`.
  - The read loop that ParseFile and GetSubs share: `ChunkStream`.
  - `sort.SliceStable` under an integer key: `StableSort`.

How the model is built:

- Each loop of the Go code is a Dafny method with the same loop. The method
  is proved against a function that states the loop's result.
- `USMInfo` is a class whose fields the methods update in place.
- Go's errors and panics are values of `GoIo.Error`. A `Panic` stands for a
  negative `make` length, or for an index out of range in `addContentsEnd`.
- Fields that Go keeps as byte arrays are numbers of their Go width. The
  proved round trips connect them to their big-endian bytes, or
  little-endian for the subtitle header.

The main results:

- A chunk reads back as it was written (`Parser.ReadChunkRoundTrip`).
- A table's header, fixed part and four regions read back as they were
  written (`Parser.ParsePayloadRoundTrip`).
- BuildDict gives back the name and the rows that compressDict wrote
  (`TableCodec.TableRoundTrip`, `TableCodec.BuildDictRows`). Every row has
  row 0's keys, and a recurring value is the same in every row
  (`TableCodec.BuildDictRecurringSame`). This holds for tables of one
  shape with zero-free keys and strings and no empty Bytes value; Left out
  gives the conditions.
- `PrepareStreams` panics exactly when a stream is empty. Otherwise it yields
  permutations, ordered and stable, each closed by its marker
  (`UsmInfo.Prepared`, `UsmInfo.PreparedStreams`).
- `ParseFile` sorts chunks exactly as its tests say
  (`UsmInfo.ClassifyAllStreams`, `UsmInfo.ClassifyAllTables`).
- `WriteTo` writes exactly the layout of `FileLayout.LayoutOf` and then
  the seek chunk. The seek chunk fills the reserved slot exactly
  (`FileLayout.SeekChunkFillsSlot`), once the slot size is corrected (see
  Findings).
- The SubRip and plain-text renderings are pinned down record by record
  (`Subs.SrtSplit`, `Subs.FormatTimeRoundTrip`, `Subs.GetSubsContents`).

## Model

| member | source | states |
|---|---|---|
| ChunkLayout.SameIdIsEqual | mess.go:252 | Go's `==` on two four-byte tags holds exactly when the tags are equal |
| ChunkLayout.EncodeHeader | chunk.go:21-24 | a chunk header is 8 bytes and starts with its four tag bytes |
| ChunkLayout.HeaderRoundTrip | chunk.go:21-24 | decoding the encoded header gives the header back |
| ChunkLayout.HeaderBytesRoundTrip | chunk.go:21-24 | any 8 bytes decode to a header that re-encodes to the same bytes |
| ChunkLayout.IDString | chunk.go:30-32 | the tag text is the first four bytes of the encoded header |
| ChunkLayout.SizeUInt | chunk.go:34-36 | SizeUInt is the size bytes read as unsigned big-endian, equal to Size when Size is not negative |
| ChunkLayout.EncodePayloadHeader | chunk.go:53-66 | a payload header is 24 bytes, with zeros at the positions of the blank fields |
| ChunkLayout.PayloadHeaderRoundTrip | chunk.go:53-66 | decoding an encoded payload header gives every named field back |
| ChunkLayout.PayloadHeaderBytesRoundTrip | chunk.go:53-66 | decoding and re-encoding 24 bytes keeps every named field's bytes and zeroes the blank ones |
| ChunkLayout.PayloadHeaderLength | chunk.go:68-70 | Len is the length of the encoded payload header (24) |
| ChunkLayout.GetPaddingSize | chunk.go:88-90 | GetPaddingSize is bytes 2..3 of the payload header read big-endian |
| ChunkLayout.GetPayloadType | chunk.go:84-86 | GetPayloadType is byte 7 of the payload header |
| TableTypes.EncodeFixedData | types.go:50-58 | the fixed part of a table is 24 bytes |
| TableTypes.FixedDataRoundTrip | types.go:50-106 | decoding the encoded fixed part gives every field back, each as its getter reads it |
| TableTypes.FixedDataBytesRoundTrip | types.go:50-106 | any 24 bytes decode to a fixed part that re-encodes to the same bytes |
| TableTypes.FixedDataLength | types.go:74-78 | Len is the length of the encoded fixed part (24) |
| TableTypes.EncodeSubtitleHeader | types.go:135-142 | a subtitle header is 20 bytes |
| TableTypes.SubtitleHeaderRoundTrip | types.go:135-162 | decoding an encoded subtitle header gives every little-endian field back |
| TableTypes.SubtitleHeaderBytesRoundTrip | types.go:135-162 | any 20 bytes decode to a subtitle header that re-encodes to the same bytes |
| UsmValue.CatalogWidths | usmvalue.go:14-29 | the twelve base types have the widths 1, 1, 2, 2, 4, 4, 8, 8, 4, 8, 4, 4, and 0x1A and 0x1B are String and Bytes |
| UsmValue.GetValue | usmvalue.go:38-50 | the unique flag is set exactly for tags from 0x50; the type found is in the catalog or is the zero type |
| UsmValue.GetValueOfFlaggedTag | usmvalue.go:31-50 | every base type plus 0x40 decodes to (that type, unique), plus 0x20 to (that type, recurring) |
| UsmValue.GetValueMiss | usmvalue.go:38-50 | a tag whose stripped value is no base type decodes to the zero type, of width 0 |
| UsmValue.ToByte | builder.go:75 | the tag written for an entry decodes back to the entry's type and its unique flag |
| Builder.EncodeChunk | builder.go:10-43 | the bytes of one chunk number Size + 8 |
| Builder.EncodeChunkParts | builder.go:10-43 | the chunk bytes are the header, the payload header, the declared payload bytes and PaddingSize zeros, each at its offset |
| Builder.WriteChunk | builder.go:10-43 | the four writes put the chunk bytes at the cursor and return Size + 8 |
| Builder.StringToC | builder.go:136-140 | the string's bytes followed by a single zero |
| Builder.Offset4 | builder.go:79 | four bytes whose big-endian value is uint32 of the number |
| Builder.CompressEntry | builder.go:72-122 | one entry gives the regions of EncodeEntry, which extend the old ones (Grows); BuildDict reads that entry back from them (TableCodec.ItemReadBack) |
| Builder.CompressString | builder.go:85-97 | the regions of EncodeValue for a String value, extending the old ones; its offset leads BuildDict back to the text (TableCodec.StringReadBack) |
| Builder.CompressBytes | builder.go:100-116 | the regions of EncodeValue for a Bytes value, extending the old ones; its start and end offsets lead BuildDict back to the blob (TableCodec.BytesReadBack) |
| Builder.CompressRaw | builder.go:118-122 | the regions of EncodeValue for a raw value, extending the old ones; BuildDict reads its first Type.Size bytes back (TableCodec.RawReadBack) |
| Builder.CompressDict | builder.go:56-133 | the nested loops give CompressDictSpec; its string region opens with "<NULL>\0" and the name at offset 7, and while its size fits in 32 bits each region starts where the previous one ends |
| Builder.EncodeEntryGrows | builder.go:72-122 | an entry only appends: the regions before it are prefixes of those after its key and after its value |
| Builder.RowPrefixGrows | builder.go:71-123 | within a row, the regions after j entries are prefixes of those after any later entry |
| Builder.RowsGrow | builder.go:70-124 | the regions after i rows are prefixes of those after any later row |
| Builder.EncodeKeyLayout | builder.go:73-83 | an item of row 0 takes five bytes of the shared region, its tag and the big-endian string offset of its key, and appends the key and a zero to the string region |
| Builder.CompressDictLayout | builder.go:56-132 | the string region opens with "<NULL>\0" and then the name, at the name offset 7; while the table's size fits in 32 bits, the unique, string and byte regions start where the previous one ends, and the byte region ends at the table's size |
| Builder.CompressPayloadSpec | builder.go:142-168 | the payload is 8 + PayloadData.Size bytes |
| Builder.CompressPayload | builder.go:142-168 | the buffer holds the header, the fixed part and the four regions in order |
| Parser.HeaderAt | main.go:205-207 | reading a chunk header succeeds exactly when 8 bytes remain, and then moves the cursor by 8 |
| Parser.PayloadHeaderAt | main.go:209-211 | reading a payload header succeeds exactly when 24 bytes remain |
| Parser.SafeReadFailsOnlyWhenEmpty | main.go:213-222 | safeRead fails only for an empty read at the end of a bytes.Reader |
| Parser.SafeRead | main.go:213-222 | one Read; a short read is not an error, a full read reports Read's error |
| Parser.ReadHeader | main.go:205-207 | the header, cursor and error of HeaderAt |
| Parser.ReadPayloadHeader | main.go:209-211 | the payload header, cursor and error of PayloadHeaderAt |
| Parser.ReadChunkDataSpec | main.go:150-162 | a chunk read without error has a payload of exactly the declared length |
| Parser.ChunkBody | main.go:153-161 | the payload (Size - PaddingSize - 24 bytes, a panic when negative), then the padding skipped |
| Parser.ReadChunkSpec | main.go:139-148 | a chunk read without error consumed its 8 header bytes and lies within the input |
| Parser.ReadChunkData | main.go:150-162 | the chunk data, cursor and error of ReadChunkDataSpec |
| Parser.ReadChunkBody | main.go:153-161 | the payload and padding reads of ChunkBody |
| Parser.ReadChunk | main.go:139-148 | the chunk, cursor and error of ReadChunkSpec |
| Parser.HeaderAtEncoded | main.go:205-207 | an encoded header in the input is read back whole |
| Parser.PayloadHeaderAtEncoded | main.go:209-211 | an encoded payload header in the input is read back whole |
| Parser.ReadChunkRoundTrip | main.go:139-162 | reading what WriteChunk wrote gives the chunk back with its payload cut to the declared size, consuming Size + 8 bytes |
| Parser.EncodedChunkAt | main.go:139-162 | an encoded chunk at any position of the input is read back whole |
| Parser.ChunkBodyOfEncoded | main.go:153-161 | the payload and zero padding WriteChunk wrote are read back after the payload header |
| Parser.ReadChunkAtEnd | main.go:139-148 | at the end of the input ReadChunk reports io.EOF; a cut-off header reports io.ErrUnexpectedEOF |
| Parser.ZeroHeaderPanics | main.go:139-162 | eight zero bytes where a chunk header is expected make ReadChunk panic, whatever follows: Size 0 leaves a negative payload length |
| Parser.ReadChunkFromFile | main.go:139-162 | on an os.File, once the header is there, ReadChunk fails only by a negative payload length |
| Parser.CStringAt | main.go:317-339 | the string read is no longer than what follows the offset |
| Parser.CStringAtIsRun | main.go:317-339 | the string read is the zero-free run at the offset, ended by the first zero or the end of input |
| Parser.CStringAtOfStringToC | main.go:317-339 | a zero-free string written with stringToC reads back at its offset |
| Parser.ReadStringAt | main.go:317-339 | the seek-and-ReadByte loop returns CStringAt, and no error |
| Parser.ParsePayloadEnd | main.go:164-168 | the marker text is the string at offset 0 of the payload |
| Parser.ParsePayloadSpec | main.go:170-203 | a table parsed without error had its 8-byte header and 24-byte fixed part in full |
| Parser.RegionLengths | main.go:182-185 | four region lengths, from the offsets in uint32 arithmetic |
| Parser.RegionsAt | main.go:187-197 | four consecutive reads yield regions of exactly the lengths allocated |
| Parser.ReadRegions | main.go:187-197 | the four safeReads give RegionsAt |
| Parser.ParsePayload | main.go:170-203 | the header, the fixed part and the four regions of ParsePayloadSpec, or its error |
| Parser.ReadTableBody | main.go:182-202 | allocating the regions (a panic for a negative byte-region length) and filling them |
| Parser.ParsePayloadRoundTrip | main.go:170-203 | ParsePayload undoes compressPayload for every table whose offsets and Size agree with its regions |
| Parser.ConsistentLengths | main.go:182-185 | with consistent offsets none of the length computations wraps, and each region gets its own length |
| Parser.ReadSubtitleSpec | main.go:121-137 | a record read without error has exactly StringSize bytes of text |
| Parser.ReadSubtitleData | main.go:121-137 | the record and error of ReadSubtitleSpec |
| Parser.ReadSubtitleRoundTrip | main.go:121-137 | a header followed by its text reads back as written; an empty text at the very end reports io.EOF |
| Dict.DecodeKeySpec | main.go:237-253 | the key step succeeds exactly when a tag byte remains, and moves the shared cursor by at most 5 |
| Dict.DecodeValueSpec | main.go:255-299 | a unique value leaves the shared cursor and a recurring one the unique cursor; a fixed-width value has its type's width |
| Dict.ValueRest | main.go:266-301 | String and raw values never fail after the first read; a raw value is the bytes read |
| Dict.BytesValueSpec | main.go:278-299 | the end offset comes from the same region as the start offset, and the other cursor stays |
| Dict.DecodeItemSpec | main.go:235-303 | a decoded item's type is GetValue of its tag byte |
| Dict.ItemsFrom | main.go:235-303 | a row decoded without error keeps every key it had |
| Dict.RowsFrom | main.go:232-311 | the rows so far are kept; an error leaves fewer rows than asked for |
| Dict.BuildDictSpec | main.go:224-315 | NumberOfDictionary rows without error; on error, fewer rows and an empty name; on a table compressDict built, its name and rows (TableCodec.BuildDictOfCompressDict) |
| Dict.ReadKey | main.go:237-253 | the ReadByte, safeRead and ReadStringAt of one key give DecodeKeySpec |
| Dict.ReadValue | main.go:255-299 | the value reads give DecodeValueSpec |
| Dict.ReadValueRest | main.go:266-301 | the branches after the first value read give ValueRest |
| Dict.ReadBytesValue | main.go:278-299 | the end-offset read and ReadAt give BytesValueSpec |
| Dict.ReadItem | main.go:235-303 | one item's reads give DecodeItemSpec |
| Dict.ReadRow | main.go:233-305 | the inner loop gives ItemsFrom from an empty map |
| Dict.BuildDict | main.go:224-315 | the two loops, the rewinds and the name read give BuildDictSpec, which on compressDict's tables is the name and rows written (TableCodec.BuildDictRows) |
| TableCodec.WithinFinal | builder.go:70-124 | every intermediate state of compressDict's regions is a prefix of the finished ones |
| TableCodec.KeyReadBack | main.go:237-253 | the tag, key offset and zero-free key compressDict wrote for a row-0 item read back, and the shared cursor moves by 5 |
| TableCodec.StringReadBack | main.go:255-276 | a zero-free String value compressDict wrote reads back: the offset from the region its tag selects, then the text; only that region's cursor moves, past the offset |
| TableCodec.BytesReadBack | main.go:255-299 | a non-empty Bytes value reads back: start and end offsets from one region, then ReadAt of the blob; only that region's cursor moves, by 8 |
| TableCodec.RawReadBack | main.go:255-301 | a raw value reads back as its first Type.Size bytes from the region its tag selects |
| TableCodec.ValueReadBack | main.go:255-301 | any recoverable value reads back as its restored value, the cursor of its region ending where the encoder's did |
| TableCodec.ItemReadBack | main.go:235-303 | item j of row i reads back as row 0's key and the expected entry, with the shared cursor at row 0's item j and the unique cursor at row i's |
| TableCodec.RowReadBack | main.go:233-305 | the rest of row i from item j decodes to its map of keys and entries, leaving the unique cursor where row i + 1 starts |
| TableCodec.RowsReadBack | main.go:232-311 | each row from row i on is decoded with the shared cursor rewound to 0 and gives its map, without error |
| TableCodec.RowMapContents | main.go:274-301 | with distinct keys, a decoded row has exactly row 0's keys, each bound to its expected entry |
| TableCodec.NameReadBack | main.go:313 | the table name compressDict wrote reads back at the name offset |
| TableCodec.CompressDictConsistent | builder.go:126-130 | compressDict's table under a header whose Size is the table's meets ParsePayload's consistency condition |
| TableCodec.BuildDictOfCompressDict | main.go:224-315 | BuildDict of compressDict's table: no error, the name, and the rows |
| TableCodec.BuildDictRows | main.go:224-315 | no error, the name, one row per row written; each row has exactly row 0's keys, and entry j has row i's type, with row 0's value if recurring and row i's otherwise, key and recurrence left zero |
| TableCodec.BuildDictRecurringSame | main.go:307-311 | a recurring entry decodes to the same entry in every row, because the shared region is rewound before each row |
| TableCodec.TableRoundTrip | main.go:170-315 | compressPayload of compressDict's table parses back unchanged, and BuildDict of it gives back the name and rows |
| ChunkStream.ChunksFrom | mess.go:60-68 | the read loop never stops with io.EOF as its error |
| ChunkStream.ChunksFromDeclared | mess.go:60-68 | every chunk the loop hands on has a payload of the declared length |
| ChunkStream.ChunksFromStep | subs.go:27-36 | after one good ReadChunk the loop yields that chunk and then the rest of the stream |
| StableSort.Insert | mess.go:103-106 | inserting adds exactly one chunk to the multiset |
| StableSort.SortByKey | mess.go:103-106 | the sort is a permutation of its input |
| StableSort.WithKey | mess.go:103-106 | the chunks of one key are a subsequence of the input |
| StableSort.InsertSorted | mess.go:103-106 | insertion keeps a sequence ordered by key |
| StableSort.SortByKeySorted | mess.go:103-106 | the sort's result is ordered by key |
| StableSort.InsertWithKey | mess.go:103-106 | insertion puts the new chunk after every chunk of the same key |
| StableSort.SortByKeyStable | mess.go:103-106 | the sort is stable: the chunks of each key keep their input order |
| Remux.CustomOrder | mess.go:21-25 | indices 0, 1, 2 give the stream tags, any other index the zero tag; only 0 gives `@SFV` |
| Remux.MakeEndChunk | mess.go:376-394 | an End chunk of Size 0x38, frame time 0, frame rate 30, no padding, with the given payload |
| Remux.EndChunkConsistent | mess.go:376-394 | a 32-byte marker chunk has exactly its declared size, is written in 64 bytes, and reads back unchanged |
| Remux.ContentsEndChunk | mess.go:364-366 | the marker chunk carrying "#CONTENTS END" |
| Remux.HeaderEndChunk | mess.go:368-370 | the marker chunk carrying "#HEADER END" |
| Remux.MetadataEndChunk | mess.go:372-374 | the marker chunk carrying "#METADATA END" |
| Remux.EndChunksWritable | mess.go:364-374 | every end marker, whatever its tag and frame time, is written whole in 64 bytes |
| Remux.GetFrameSeconds | mess.go:396-398 | FrameTime * 1000 / FrameRate in int32 arithmetic, the exact quotient when the product does not overflow |
| Remux.GetFrameSecondsMonotone | mess.go:396-398 | without overflow, a later frame of the same rate never has an earlier time |
| Remux.FrameKey | mess.go:238-245 | the interleaving key is getFrameSeconds wherever the frame rate is not zero |
| Remux.SubtitleKeyOrder | mess.go:122-135 | the subtitle comparator is exactly the order of an integer key (frame time, then first payload byte) |
| Remux.AddContentsEnd | mess.go:142-148 | a panic (None) exactly on an empty stream; otherwise the stream, then a contents-end marker with the last chunk's tag and frame time + 1 (int32) |
| Remux.AddContentsEndSorted | mess.go:142-148 | a stream ordered by frame time stays ordered with the marker, which comes strictly later, unless the time wraps |
| Remux.Pop | mess.go:294-296 | the first chunk and the rest, which together are the input |
| VideoSeek.SeekRow | mess.go:324-334 | a row of the four seek entries with their keys, types, recurrence and widths |
| VideoSeek.SeekRows | mess.go:317-337 | every collected row has the seek-row shape |
| VideoSeek.SeekRowsShape | mess.go:319-337 | one row per 30 offsets, row j made from offset 30 j and index 30 j |
| VideoSeek.SeekRowsEncodable | mess.go:339 | compressDict can encode the seek rows |
| VideoSeek.PaddingFor | mess.go:341-343 | the padding is below 16 and brings size + 8 to a multiple of 16 |
| VideoSeek.SeekChunk | mess.go:298-362 | an `@SFV` chunk of the Seek payload type |
| VideoSeek.GenerateVideoSeek | mess.go:298-362 | the loop over the offsets builds SeekChunk |
| VideoSeek.SeekContentSize | mess.go:339 | the seek table's PayloadData.Size is 103 + 12 bytes per row |
| VideoSeek.GetSizeForVideoSeek | mess.go:283-292 | the reserved size as written: 12 (n/30 + 1) + 144 plus a remainder below 16 |
| VideoSeek.ReserveSize | mess.go:283-292 | the corrected slot: a multiple of 16, at least 12 bytes per row plus 144 |
| VideoSeek.SeekChunkFits | mess.go:356-360 | the seek chunk agrees with WriteChunk's accounting and fills ReserveSize exactly |
| VideoSeek.SeekChunkBytes | mess.go:275 | the bytes WriteChunk emits for the seek chunk number ReserveSize |
| VideoSeek.SlotShort | mess.go:283-292 | whenever n/30 + 1 is 3 modulo 4 and 30 does not divide n, the slot as written is 8 bytes short |
| VideoSeek.SeekChunkOverrunsSlot | mess.go:283-292 | for 61 video chunks the slot as written is 184 bytes, but the seek chunk is 192 |
| VideoSeek.SeekChunkUnderfillsSlot | mess.go:283-292 | for 1 to 29 video chunks the slot as written is 168 bytes, and 176 for 30, but the seek chunk is 160 |
| UsmInfo.Get | mess.go:403-404 | a Go map read: the entry, or the zero chunk for a missing tag |
| UsmInfo.ParseFrom | mess.go:55-99 | the loop never ends with io.EOF as its error |
| UsmInfo.Matching | mess.go:75-95 | the chunks of one payload type and tag, a subsequence of the input |
| UsmInfo.Roots | mess.go:70-73 | the `CRID` chunks of the input |
| UsmInfo.ClassifyStreamsStep | mess.go:70-95 | one chunk either grows the stream it belongs to or becomes the root |
| UsmInfo.ClassifyAllStreams | mess.go:55-99 | the three streams are exactly the `@SFV`, `@SFA`, `@SBT` Stream-type chunks in file order; the root is the last `CRID` chunk |
| UsmInfo.ClassifyHeaderStep | mess.go:75-78 | one chunk of the Header type becomes its tag's header entry |
| UsmInfo.ClassifySeekStep | mess.go:80-83 | one chunk of the Seek type becomes its tag's seek entry |
| UsmInfo.ClassifyAllTables | mess.go:55-99 | a tag has a header (seek) entry exactly when some Header (Seek) chunk carries it, and the entry is the last such chunk |
| UsmInfo.Prepared | mess.go:101-148 | PrepareStreams panics exactly when the video, audio or subtitle stream is empty; it never changes the root or the tables; without a panic each stream grows by one chunk; a panic leaves the subtitles as they were, and all of the info when video is empty |
| UsmInfo.SortedAndClosed | mess.go:101-148 | a stream sorted and closed is a permutation, ordered, stable, then its marker |
| UsmInfo.PreparedStreams | mess.go:101-140 | without a panic, each stream is a permutation of what it was, then its marker; video is ordered by frame time and stable; subtitles are ordered by their comparator |
| UsmInfo.ClosedKeepsTags | mess.go:142-148 | sorting and closing a stream of one tag gives chunks of that tag |
| UsmInfo.ParsedTags | mess.go:85-95 | each stream ParseFile builds holds only chunks of its own tag |
| UsmInfo.PreparedTags | mess.go:101-148 | PrepareStreams keeps each stream's tag, markers included, whether or not it panics |
| UsmInfo.NoSubtitlesPanics | mess.go:55-148 | a file with no `@SBT` Stream chunk parses to an empty subtitle stream, and PrepareStreams panics on it |
| UsmInfo.CloseStream | mess.go:142-148 | an empty stream stays empty; any other stream is sorted and closed as addContentsEnd does |
| UsmInfo.PreparedKeepingEmptyStreams | mess.go:101-148 | the corrected PrepareStreams agrees with PrepareStreams whenever that does not panic, leaves empty streams empty, sorts and closes the others, and keeps tags, root and tables |
| UsmInfo.ReplacedAudio | mess.go:400-408 | the `@SFA` header and seek entries and the audio stream come from the second file; nothing else changes |
| FileLayout.ChunksBytes | mess.go:162-168 | chunks written one after another take at least 32 bytes each |
| FileLayout.HeaderChunks | mess.go:162-168 | one header chunk per entry of the header table |
| FileLayout.HeaderEnds | mess.go:169-175 | one writable header-end marker per header entry |
| FileLayout.MetadataChunks | mess.go:177-198 | one seek chunk per seek-table entry after the video one |
| FileLayout.MetadataEnds | mess.go:199-205 | one writable metadata-end marker per seek entry |
| FileLayout.MetadataRunSlot | mess.go:180-191 | the seek tables start with a zero hole of the slot's size |
| FileLayout.MetadataRunStep | mess.go:193-197 | each later turn of the loop writes Metadata[customOrder[i]] |
| FileLayout.Emit | mess.go:247-250 | an End chunk is written with frame time 0; everything else is unchanged |
| FileLayout.EmittedAt | mess.go:247-263 | the loop writes every chunk in its place, as Emit makes it |
| FileLayout.SfvOffsets | mess.go:252-255 | one offset per `@SFV` chunk written |
| FileLayout.SfvOffsetsAppend | mess.go:252-255 | a further chunk adds its start position exactly when it is tagged `@SFV` |
| FileLayout.Rest | mess.go:235-245 | the interleaved run has every chunk left after the pops |
| FileLayout.LayoutOf | mess.go:150-263 | WriteTo records at least one video offset, and fewer than 2^28 |
| FileLayout.CountSfvPermutation | mess.go:238-245 | reordering the chunks does not change how many are `@SFV` |
| FileLayout.VideoOffsetsCount | mess.go:215-255 | WriteTo records exactly one offset per video chunk, the first one included |
| FileLayout.LayoutAroundSlot | mess.go:177-191 | before the seek chunk, the file is the header run, the zero slot, then the rest, and the slot starts at the seek position |
| FileLayout.SeekChunkFillsSlot | mess.go:182-185 | the seek chunk written last replaces exactly the zero slot, and the bytes around it are unchanged |
| Subs.DigitChar | subs.go:65 | the ASCII digit of d |
| Subs.Decimal | subs.go:65 | strconv.Itoa gives at least one digit |
| Subs.DecimalSpells | subs.go:65 | the digits spell the number, with no leading zero |
| Subs.DecimalLength | subs.go:109 | a number below 10^k takes at most k digits |
| Subs.ZeroPad | subs.go:109 | `%0wd` is max(w, number of digits) long |
| Subs.ZeroPadSpells | subs.go:109 | the zero-padded digits still spell the number |
| Subs.SplitTime | subs.go:103-108 | hours, minutes < 60, seconds < 60 and millis < 1000 that add back to t |
| Subs.SplitTimeUnique | subs.go:103-108 | the split is the only normal one |
| Subs.FormatTime | subs.go:103-110 | the rendered time is at least 12 characters |
| Subs.FormatTimeRoundTrip | subs.go:103-110 | the rendered time has the form HH:MM:SS,mmm and reads back to t |
| Subs.EndTime | subs.go:69 | FrameTime + FrameEnd, exact when the uint32 sum does not wrap |
| Subs.SrtSplit | subs.go:62-73 | rendering two runs of records is rendering the first, then the second numbered on from it |
| Subs.SrtNumberedFromOne | subs.go:64-65 | SubRip blocks are numbered 1, 2, 3, ... in record order |
| Subs.WriteSrt | subs.go:63-74 | the inner loop produces the SubRip text of one language |
| Subs.SubsToSrt | subs.go:59-78 | one SubRip text per language of the input, and no other entry |
| Subs.Interval | subs.go:86-90 | the first line is "1000" and CRLF |
| Subs.TxtAppend | subs.go:83-96 | more records add entries only; the interval line is not repeated |
| Subs.WriteTxt | subs.go:84-97 | the inner loop produces the plain text of one language |
| Subs.SubsToTxt | subs.go:80-101 | one plain text per language of the input, and no other entry |
| Subs.Lookup | subs.go:53 | a missing language reads as the empty slice |
| Subs.GroupFrom | subs.go:38-53 | grouping never drops a language already present |
| Subs.SubsFrom | subs.go:24-57 | grouping from the stream never drops a language already present |
| Subs.GetSubs | subs.go:24-57 | the read loop gives SubsFrom from an empty map |
| Subs.Subtitles | subs.go:38-48 | at most one record per chunk |
| Subs.InLanguage | subs.go:53 | only records of that language, all from the input |
| Subs.GroupFromContents | subs.go:38-53 | without error, each language's slice grows by exactly its records in stream order, and a language appears only if it has one |
| Subs.GroupFromError | subs.go:47-51 | an error reported is the error of some subtitle chunk's record |
| Subs.GetSubsContents | subs.go:24-57 | for a clean stream, each language maps to exactly its records in file order |
| Usm.USMInfo.constructor | mess.go:12-19 | the object holds the given fields |
| Usm.USMInfo.PrepareStreams | mess.go:101-148 | the streams are sorted and closed in turn; the fields and the error are exactly Prepared of the old fields, a panic included; the object itself is returned |
| Usm.USMInfo.PopFirst | mess.go:209-226 | the first video chunk and first two audio chunks are taken off the streams and returned |
| Usm.Append | builder.go:10-43 | WriteChunk at or past the end appends the chunk to what a reader sees |
| Usm.WriteHeaderChunks | mess.go:162-168 | the first loop appends the header chunks |
| Usm.WriteHeaderEnds | mess.go:169-175 | the second loop appends the header-end markers |
| Usm.WriteMetadata | mess.go:177-198 | the third loop appends the slot hole and the other seek tables, and returns the slot's position |
| Usm.WriteMetadataEnds | mess.go:199-205 | the fourth loop appends the metadata-end markers, after the hole |
| Usm.AppendMetadataEnds | mess.go:199-205 | the markers after the first each land at the end of what is written |
| Usm.WriteHead | mess.go:156-175 | the root chunk, the header chunks and their markers |
| Usm.WriteSeekTables | mess.go:177-205 | the seek tables with the slot, then their markers |
| Usm.WriteOpening | mess.go:150-205 | the opening of the file, and the slot position |
| Usm.WriteFirstChunks | mess.go:207-231 | the popped video and audio chunks, with the video chunk's offset recorded |
| Usm.WriteEmit | mess.go:247-262 | one loop turn: the chunk as Emit makes it is appended, and an `@SFV` chunk's position is recorded |
| Usm.WriteStreams | mess.go:247-263 | the last loop appends the emitted run and records every `@SFV` position |
| Usm.WriteBody | mess.go:150-263 | all writes before the seek chunk produce LayoutOf's bytes, slot position and offsets |
| Usm.WriteSeekChunk | mess.go:265-278 | the seek chunk of the offsets is written at the slot position |
| Usm.WriteTo | mess.go:150-281 | the file is Output of the info, and the info has lost the three popped chunks |
| Usm.ParseFile | mess.go:55-99 | a fresh USMInfo holding ParseFrom's result, or ParseFrom's error and no object |
| Usm.ReplaceAudio | mess.go:400-408 | in1 becomes ReplacedAudio of the two files and is returned |

## Left out

- Printing and formatting are not modelled. This covers `DumpFile`, `DumpAllChunks` and every `String()` method, whose floating-point conversions of Float and Double values are also left out. The command-line program is not part of this model.
- Write errors are not modelled. The output is a `GoIo.Sink` whose writes and seeks cannot fail, so WriteTo's early returns on a write error, and safeWriter's message on a short write, have no counterpart.
- `compressPayload` cannot fail on an in-memory buffer, so `GenerateVideoSeek` returns no error.
- Reads come from a byte sequence with a cursor, standing in for `bytes.Reader` or an `os.File`. Only the end-of-input behaviour that differs between the two is kept: an empty read at the end reports io.EOF on a bytes.Reader but not on a file.
- `SubtitleHeader.GetLang`, `Entry.ToByte` and the `Key` and `Recurring` fields of `Entry` are used by subs.go and builder.go. They are not defined in the files modelled here.
  - `GetLang` is a parameter of `Subs.GetSubs`.
  - `ToByte` is modelled as the inverse of `GetValue`: base tag plus 0x20 for a recurring entry, plus 0x40 for a unique one.
  - `Chunk.offset` (main.go:140) is not a field of the Chunk struct in chunk.go and is dropped.
- Usm.WriteTo requires an empty file with its cursor at 0. It also requires that every chunk it writes declares a payload no longer than the one it carries, that the interleaving comparator never divides by a zero frame rate, and that there are fewer than 2^28 chunks. Otherwise Go panics, or the int32 sizes of the seek chunk wrap.
- Usm.WriteTo takes the three pops first and then writes from the remaining fields. The Go code interleaves pops and writes; the result is the same because the info and the file are distinct objects.
- Usm.WriteTo: the seek slot is ReserveSize, the corrected size (see Findings), not getSizeForVideoSeek.
- Usm.USMInfo.PrepareStreams models the code as written, so it panics on an empty stream (see Findings). The corrected `UsmInfo.PreparedKeepingEmpty` is proved beside it, but the class does not use it.
- UsmInfo.PreparedStreams claims only a permutation for audio, not an order. The audio comparator in mess.go:110-118 returns true for any chunk starting with "HCA\0", whatever the other chunk is, so it is not a strict weak order and sort.SliceStable's result depends on its internal algorithm. The model sorts audio by one consistent reading (HCA headers first, then frame time).
- UsmInfo.PreparedStreams does not model the panic of the subtitle comparator on an empty payload at a frame-time tie (`Payload[:1]`). The key reads such a payload as byte 0.
- The internals of sort.SliceStable are not modelled. `StableSort.SortByKey` is the unique stable sort by an integer key, which is what every comparator here except audio's amounts to.
- Remux.GetFrameSeconds requires a non-zero frame rate, because Go's integer division panics on zero.
- Remux.GetFrameSecondsMonotone assumes the int32 product FrameTime * 1000 does not overflow. The wrapped value is modelled, but no ordering is claimed for it.
- Subs.EndTime: FrameTime + FrameEnd wraps as uint32 and is modelled so. The SubRip rendering of a wrapped end time is not singled out.
- Slices are values. Go slices that share a backing array (`append(s.VideoStreams, ...)` in WriteTo, `pop`) are not aliased in the model.
- Header fields that Go stores as byte arrays (Size, FrameTime, FrameRate, PaddingSize, the table offsets, the subtitle header fields) are numbers of their Go width. Their byte forms are tied to them by the round-trip lemmas. The blank bytes of the payload header are not kept.
- Usm.ParseFile does not model the `%w` wrapping of the read error into a new message; the bare error value is returned.
- The file-level round trip is not claimed: reading back a whole file that WriteTo wrote. The chunk-level round trip (`Parser.ReadChunkRoundTrip`) and the table-level one are claimed. At table level, `Parser.ParsePayloadRoundTrip` covers the regions and `TableCodec.TableRoundTrip` covers the rows.
- TableCodec.BuildDictOfCompressDict claims the round trip only under RoundTrippable:
  - every row has row 0's length, types and recurrence flags;
  - the name, row 0's keys and every String value are free of zero bytes;
  - every Bytes value is non-empty;
  - the counts and the table's size fit their Go fields.
- Outside those conditions BuildDict's result differs from the rows written. Strings are cut at their first zero, and rows of another shape are read misaligned. An empty Bytes value at the very end of the byte region reports io.EOF. An empty one elsewhere reads back, but that case is not claimed.
- TableCodec.BuildDictRows also requires row 0's keys to be distinct. With a repeated key the later entry replaces the earlier one in the map, and the contents of such a row are not stated.
- compressDict writes only row 0's keys, so BuildDict keys every row by them. Keys given in later rows are dropped, and the model states the rows with row 0's keys.

## Findings

| source | as written | input that shows it | evidently intended | confidence | as-written member | corrected member |
|---|---|---|---|---|---|---|
| mess.go:283-292 (used at mess.go:185) | getSizeForVideoSeek adds `size % 16` to the size instead of rounding it up to a multiple of 16, and counts `n/30 + 1` rows where the seek table has `ceil(n/30)` | 61 video chunks: the slot is 12·3 + 144 = 180 + 4 = 184 bytes, but the seek chunk generateVideoSeek makes (3 rows, padded to 16) is 192 bytes. Writing it at the slot overwrites the first 8 bytes of the next chunk | a slot of exactly the seek chunk's size: 12 bytes per row plus 144, rounded up to 16 | not executed | VideoSeek.SeekChunkOverrunsSlot | VideoSeek.SeekChunkFits |
| mess.go:283-292 (used at mess.go:185) | the same computation for small files | 1 to 29 video chunks: the slot is 156 + 12 = 168 bytes but the seek chunk is 160; 30 chunks: 176 against 160. The 8 or 16 bytes after the seek chunk are never written and stay zero, and ReadChunk on a zero header panics (`Parser.ZeroHeaderPanics`), so ParseFile cannot read the file back | a slot of exactly the seek chunk's size | not executed | VideoSeek.SeekChunkUnderfillsSlot | VideoSeek.SeekChunkFits |
| mess.go:142-148 (called at mess.go:108, 120, 137) | addContentsEnd reads `src[len(src)-1]` without checking that the stream has a chunk, and PrepareStreams calls it on all three streams | a file with video and audio chunks but no `@SBT` chunk: ParseFile gives an empty subtitle stream, and PrepareStreams panics with an index out of range after closing video and audio. The command-line replacer calls PrepareStreams on every parsed file | an empty stream gets no marker and stays empty | not executed; medium, since the tool may only be meant for subtitled files | UsmInfo.NoSubtitlesPanics | UsmInfo.PreparedKeepingEmptyStreams |
