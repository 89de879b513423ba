/**
 * mess.go's video seek table: generateVideoSeek turns the byte offsets of
 * the written video chunks into a "VIDEO_SEEKINFO" table with one row per
 * 30 frames, packs it into a "@SFV" chunk of the Seek payload type padded
 * to 16 bytes, and getSizeForVideoSeek guesses beforehand how large a hole
 * WriteTo must leave for that chunk.
 */
module VideoSeek {
  import opened Bytes
  import opened ChunkLayout
  import opened TableTypes
  import opened UsmValue
  import opened Builder
  import opened Remux

  /** "VIDEO_SEEKINFO" */
  const SeekTableName: seq<byte> := [0x56, 0x49, 0x44, 0x45, 0x4F, 0x5F, 0x53, 0x45, 0x45, 0x4B, 0x49, 0x4E, 0x46, 0x4F]
  /** "ofs_byte", "ofs_frmid", "num_skip", "resv" */
  const OfsByte: seq<byte> := [0x6F, 0x66, 0x73, 0x5F, 0x62, 0x79, 0x74, 0x65]
  const OfsFrmid: seq<byte> := [0x6F, 0x66, 0x73, 0x5F, 0x66, 0x72, 0x6D, 0x69, 0x64]
  const NumSkip: seq<byte> := [0x6E, 0x75, 0x6D, 0x5F, 0x73, 0x6B, 0x69, 0x70]
  const Resv: seq<byte> := [0x72, 0x65, 0x73, 0x76]

  const TwoTo64: int := 0x1_0000_0000_0000_0000

  /** Video chunk `index` starts a row when it is a multiple of 30 (index 0 included). */
  const FramesPerRow: nat := 30

  /**
   * The row of one recorded video chunk: its byte offset as a big-endian
   * uint64 and its index as a big-endian uint32, both stored per row, then
   * two zero shorts stored once.
   */
  function SeekRow(offset: nat, index: nat): (row: seq<Entry>)
    ensures SeekShaped(row)
  {
    Pow256Values();
    [Entry(OfsByte, Values(0x16), false, ToBigEndian(offset % TwoTo64, 8)),
     Entry(OfsFrmid, Values(0x15), false, ToBigEndian(index % TwoTo32, 4)),
     Entry(NumSkip, Values(0x13), true, [0, 0]),
     Entry(Resv, Values(0x13), true, [0, 0])]
  }

  /** What the region sizes depend on: the four keys, the types, which are recurring, the value widths. */
  predicate SeekShaped(row: seq<Entry>) {
    && |row| == 4
    && row[0].key == OfsByte && row[0].info == Values(0x16) && !row[0].recurring && |row[0].value| == 8
    && row[1].key == OfsFrmid && row[1].info == Values(0x15) && !row[1].recurring && |row[1].value| == 4
    && row[2].key == NumSkip && row[2].info == Values(0x13) && row[2].recurring && |row[2].value| == 2
    && row[3].key == Resv && row[3].info == Values(0x13) && row[3].recurring && |row[3].value| == 2
  }

  /** Row j of `rows` is seek-shaped; named so that the facts about row j surface only where a proof asks for them. */
  predicate ShapedAt(rows: seq<seq<Entry>>, j: int)
    requires 0 <= j < |rows|
  {
    SeekShaped(rows[j])
  }

  /** The rows generateVideoSeek collects for the offsets recorded so far. */
  function SeekRows(offsets: seq<nat>): (rows: seq<seq<Entry>>)
    ensures forall j | 0 <= j < |rows| :: ShapedAt(rows, j)
  {
    if offsets == [] then []
    else
      var k := |offsets| - 1;
      var tail := if k % FramesPerRow == 0 then [SeekRow(offsets[k], k)] else [];
      assert forall j | 0 <= j < |tail| :: ShapedAt(tail, j);
      ShapedConcat(SeekRows(offsets[..k]), tail);
      SeekRows(offsets[..k]) + tail
  }

  lemma ShapedConcat(a: seq<seq<Entry>>, b: seq<seq<Entry>>)
    requires forall j | 0 <= j < |a| :: ShapedAt(a, j)
    requires forall j | 0 <= j < |b| :: ShapedAt(b, j)
    ensures forall j | 0 <= j < |a + b| :: ShapedAt(a + b, j)
  {
    forall j | 0 <= j < |a + b|
      ensures ShapedAt(a + b, j)
    {
      if j < |a| {
        assert ShapedAt(a, j);
      } else {
        assert ShapedAt(b, j - |a|);
      }
    }
  }

  /** One row for every 30 offsets, started by offsets 0, 30, 60, ... */
  lemma {:induction false} SeekRowsShape(offsets: seq<nat>)
    ensures |SeekRows(offsets)| == (|offsets| + 29) / 30
    ensures forall j | 0 <= j < |SeekRows(offsets)| ::
      30 * j < |offsets| && SeekRows(offsets)[j] == SeekRow(offsets[30 * j], 30 * j)
  {
    if offsets != [] {
      var k := |offsets| - 1;
      var init := offsets[..k];
      SeekRowsShape(init);
      var rows := SeekRows(offsets);
      forall j | 0 <= j < |rows|
        ensures 30 * j < |offsets| && rows[j] == SeekRow(offsets[30 * j], 30 * j)
      {
        if j < |SeekRows(init)| {
          assert rows[j] == SeekRows(init)[j];
          assert offsets[30 * j] == init[30 * j];
        } else {
          assert k % 30 == 0 && j == k / 30;
        }
      }
    }
  }

  lemma SeekShapedEncodable(row: seq<Entry>, first: bool)
    requires SeekShaped(row)
    ensures RowEncodable(row, first)
  {
    assert InCatalog(Values(0x16)) by { assert Values(0x16) == Values(0x16); }
    assert InCatalog(Values(0x15)) by { assert Values(0x15) == Values(0x15); }
    assert InCatalog(Values(0x13)) by { assert Values(0x13) == Values(0x13); }
    forall e | e in row
      ensures Encodable(e) && InCatalog(e.info)
    {
    }
  }

  lemma SeekRowsEncodable(offsets: seq<nat>)
    requires |offsets| >= 1
    ensures TableEncodable(SeekRows(offsets))
  {
    SeekRowsShape(offsets);
    var rows := SeekRows(offsets);
    forall i | 0 <= i < |rows|
      ensures RowEncodable(rows[i], i == 0)
    {
      assert ShapedAt(rows, i);
      SeekShapedEncodable(rows[i], i == 0);
    }
  }

  /** The padding that brings the payload (size plus its 8-byte header) to a multiple of 16. */
  function PaddingFor(size: nat): (pad: uint16)
    ensures (size + 8 + pad) % 16 == 0 && pad < 16
  {
    var rem := (size + 8) % 16;
    if rem != 0 then 16 - rem else 0
  }

  /** The chunk generateVideoSeek returns for the recorded offsets. */
  function SeekChunk(offsets: seq<nat>): (c: Chunk)
    requires |offsets| >= 1
    ensures c.header.id == SFV && c.payloadHeader.payloadType == PayloadTypeSeek
  {
    SeekRowsEncodable(offsets);
    var content := CompressDictSpec(SeekTableName, SeekRows(offsets));
    var size := PayloadDataSize(content);
    var pad := PaddingFor(size);
    var payload := CompressPayloadSpec(Payload(Header(UTF, I32(size)), content));
    Chunk(Header(SFV, I32(I32(size) + pad + 8 + 24)), PayloadHeader(0x18, pad, 0, PayloadTypeSeek, 0, 0x1e), payload)
  }

  /** generateVideoSeek; compressPayload cannot fail on an in-memory buffer, so there is no error result. */
  method GenerateVideoSeek(videoOffsets: seq<nat>) returns (c: Chunk)
    requires |videoOffsets| >= 1
    ensures c == SeekChunk(videoOffsets)
  {
    var data: seq<seq<Entry>> := [];
    for k := 0 to |videoOffsets|
      invariant data == SeekRows(videoOffsets[..k])
    {
      assert videoOffsets[..k + 1][..k] == videoOffsets[..k];
      if k != 0 && k % FramesPerRow != 0 {
        continue;
      }
      data := data + [SeekRow(videoOffsets[k], k)];
    }
    assert videoOffsets[..|videoOffsets|] == videoOffsets;
    SeekRowsEncodable(videoOffsets);
    var content := CompressDict(SeekTableName, data);
    var pad: uint16 := 0;
    var remainder := (PayloadDataSize(content) + 8) % 16;
    if remainder != 0 {
      pad := 16 - remainder;
    }
    var payload := CompressPayload(Payload(Header(UTF, I32(PayloadDataSize(content))), content));
    c := Chunk(Header(SFV, I32(I32(PayloadDataSize(content)) + pad + 8 + 24)),
               PayloadHeader(0x18, pad, 0, PayloadTypeSeek, 0, 0x1e), payload);
  }

  // ---------------------------------------------------------------------
  // Region sizes of the seek table

  /** A value of a fixed-width type: its key and tag on row 0, its bytes in one of the two value regions. */
  lemma RawEntryRegions(r: Regions, e: Entry, first: bool)
    requires !IsString(e.info) && !IsBytes(e.info) && e.info.size == |e.value| && (first ==> InCatalog(e.info))
    ensures var r' := EncodeEntry(r, e, first);
      && |r'.shared| == |r.shared| + (if first then 5 else 0) + (if first && e.recurring then |e.value| else 0)
      && |r'.unique| == |r.unique| + (if e.recurring then 0 else |e.value|)
      && |r'.strings| == |r.strings| + (if first then |e.key| + 1 else 0)
      && |r'.bytes| == |r.bytes|
  {
    assert e.value[..e.info.size] == e.value;
  }

  lemma RowPrefixStep(r: Regions, row: seq<Entry>, j: nat, first: bool)
    requires j < |row| && RowEncodable(row, first)
    ensures row[j] in row
    ensures EncodeRowPrefix(r, row, j + 1, first) == EncodeEntry(EncodeRowPrefix(r, row, j, first), row[j], first)
  {
  }

  /** One seek row adds 12 unique bytes; row 0 also adds 24 shared bytes and the 33 bytes of key text. */
  lemma {:induction false} SeekRowRegions(r: Regions, row: seq<Entry>, first: bool)
    requires SeekShaped(row)
    ensures RowEncodable(row, first)
    ensures var r' := EncodeRowPrefix(r, row, |row|, first);
      && |r'.shared| == |r.shared| + (if first then 24 else 0)
      && |r'.unique| == |r.unique| + 12
      && |r'.strings| == |r.strings| + (if first then 33 else 0)
      && |r'.bytes| == |r.bytes|
  {
    SeekShapedEncodable(row, first);
    assert !IsString(Values(0x16)) && !IsBytes(Values(0x16)) && Values(0x16).size == 8;
    assert !IsString(Values(0x15)) && !IsBytes(Values(0x15)) && Values(0x15).size == 4;
    assert !IsString(Values(0x13)) && !IsBytes(Values(0x13)) && Values(0x13).size == 2;
    var r0 := EncodeRowPrefix(r, row, 0, first);
    var r1 := EncodeRowPrefix(r, row, 1, first);
    var r2 := EncodeRowPrefix(r, row, 2, first);
    var r3 := EncodeRowPrefix(r, row, 3, first);
    RowPrefixStep(r, row, 0, first);
    RowPrefixStep(r, row, 1, first);
    RowPrefixStep(r, row, 2, first);
    RowPrefixStep(r, row, 3, first);
    RawEntryRegions(r0, row[0], first);
    RawEntryRegions(r1, row[1], first);
    RawEntryRegions(r2, row[2], first);
    RawEntryRegions(r3, row[3], first);
  }

  /** After i >= 1 rows: 24 shared bytes, 12 unique bytes per row, 55 bytes of text, no blobs. */
  lemma {:induction false} SeekRegions(raw: seq<seq<Entry>>, i: nat)
    requires TableEncodable(raw) && i <= |raw|
    requires forall j | 0 <= j < |raw| :: ShapedAt(raw, j)
    ensures var r := EncodeRows(SeekTableName, raw, i);
      && |r.shared| == (if i == 0 then 0 else 24)
      && |r.unique| == 12 * i
      && |r.strings| == (if i == 0 then 22 else 55)
      && |r.bytes| == 0
  {
    if i == 0 {
      InitialSeekRegions(raw);
    } else {
      SeekRegions(raw, i - 1);
      assert ShapedAt(raw, i - 1);
      SeekRowsStep(raw, i);
    }
  }

  /** Row i - 1 of a seek table, in terms of the regions before it. */
  lemma SeekRowsStep(raw: seq<seq<Entry>>, i: nat)
    requires TableEncodable(raw) && 1 <= i <= |raw| && SeekShaped(raw[i - 1])
    ensures var prev := EncodeRows(SeekTableName, raw, i - 1);
      var r := EncodeRows(SeekTableName, raw, i);
      && |r.shared| == |prev.shared| + (if i == 1 then 24 else 0)
      && |r.unique| == |prev.unique| + 12
      && |r.strings| == |prev.strings| + (if i == 1 then 33 else 0)
      && |r.bytes| == |prev.bytes|
  {
    SeekRowRegions(EncodeRows(SeekTableName, raw, i - 1), raw[i - 1], i - 1 == 0);
  }

  lemma InitialSeekRegions(raw: seq<seq<Entry>>)
    requires TableEncodable(raw)
    ensures var r := EncodeRows(SeekTableName, raw, 0);
      |r.shared| == 0 && |r.unique| == 0 && |r.strings| == 22 && |r.bytes| == 0
  {
    assert EncodeRows(SeekTableName, raw, 0) == InitialRegions(SeekTableName);
    assert |SeekTableName| == 14;
  }

  /** PayloadData.Size of the seek table: 103 bytes plus 12 per row. */
  lemma SeekContentSize(offsets: seq<nat>)
    requires |offsets| >= 1
    ensures TableEncodable(SeekRows(offsets))
    ensures PayloadDataSize(CompressDictSpec(SeekTableName, SeekRows(offsets))) == 103 + 12 * ((|offsets| + 29) / 30)
  {
    SeekRowsEncodable(offsets);
    SeekRowsShape(offsets);
    var rows := SeekRows(offsets);
    SeekRegions(rows, |rows|);
  }

  // ---------------------------------------------------------------------
  // The size of the slot

  function RoundUp16(x: nat): (r: nat)
    ensures r % 16 == 0 && x <= r < x + 16
  {
    if x % 16 == 0 then x else x + 16 - x % 16
  }

  lemma RoundUp16Unique(x: nat, y: nat)
    requires y % 16 == 0 && x <= y < x + 16
    ensures y == RoundUp16(x)
  {
  }

  /** getSizeForVideoSeek as written: 12 bytes per started 30 videos plus 144, plus the remainder modulo 16. */
  function GetSizeForVideoSeek(videos: nat): (r: nat)
    ensures var base := 12 * (videos / 30 + 1) + 144; base <= r < base + 16
  {
    var c := videos / 30 + 1;
    var size := 12 * c + 144;
    var remainder := size % 16;
    if remainder != 0 then size + remainder else size
  }

  /** The slot the seek chunk needs: 12 bytes per row plus 144, rounded up to 16. */
  function ReserveSize(videos: nat): (r: nat)
    ensures r % 16 == 0 && r >= 12 * ((videos + 29) / 30) + 144
  {
    RoundUp16(12 * ((videos + 29) / 30) + 144)
  }

  /**
   * The seek chunk is consistent with WriteChunk's accounting and fills
   * ReserveSize exactly, for any list of offsets small enough that the
   * int32 sizes do not wrap.
   */
  lemma SeekChunkFits(offsets: seq<nat>)
    requires 1 <= |offsets| < 0x1000_0000
    ensures Writable(SeekChunk(offsets))
    ensures |EncodeChunk(SeekChunk(offsets))| == ReserveSize(|offsets|)
  {
    hide EncodeChunk, SeekRows, CompressDictSpec;
    SeekContentSize(offsets);
    var n := (|offsets| + 29) / 30;
    var size := 103 + 12 * n;
    var pad := PaddingFor(size);
    var c := SeekChunk(offsets);
    assert c.header.size == size + pad + 32;
    assert |c.payload| == 8 + size;
    PaddedSize(n, pad);
  }

  /** The bytes WriteChunk emits for the seek chunk of `offsets`; they fill ReserveSize exactly. */
  function SeekChunkBytes(offsets: seq<nat>): (r: seq<byte>)
    requires 1 <= |offsets| < 0x1000_0000
    ensures |r| == ReserveSize(|offsets|)
  {
    SeekChunkFits(offsets);
    EncodeChunk(SeekChunk(offsets))
  }

  /** The arithmetic of the fit: a table of n rows padded to 16, plus both headers, is 12 n + 144 rounded up. */
  lemma PaddedSize(n: nat, pad: nat)
    requires (111 + 12 * n + pad) % 16 == 0 && pad < 16
    ensures 103 + 12 * n + pad + 40 == RoundUp16(12 * n + 144)
  {
    var m := 111 + 12 * n;
    assert m % 2 == 1;
    RoundUp16Unique(12 * n + 144, m + pad + 32);
  }

  /**
   * getSizeForVideoSeek is 8 bytes short whenever n/30 + 1 is 3 more than a
   * multiple of 4 and n is not a multiple of 30: the remainder 4 is added
   * where 12 was needed.
   */
  lemma {:induction false} SlotShort(n: nat)
    requires n % 30 != 0 && (n / 30 + 1) % 4 == 3
    ensures GetSizeForVideoSeek(n) + 8 == ReserveSize(n)
  {
    var c := n / 30 + 1;
    assert (n + 29) / 30 == c;
    var q := c / 4;
    assert 12 * c + 144 == 16 * (3 * q + 11) + 4;
  }

  /** 61 video chunks: the seek chunk is 192 bytes, but WriteTo leaves a 184-byte hole. */
  lemma SeekChunkOverrunsSlot(offsets: seq<nat>)
    requires |offsets| == 61
    ensures GetSizeForVideoSeek(61) == 184
    ensures Writable(SeekChunk(offsets)) && |EncodeChunk(SeekChunk(offsets))| == 192
  {
    SeekChunkFits(offsets);
    SlotSizes61();
  }

  lemma SlotSizes61()
    ensures GetSizeForVideoSeek(61) == 184 && ReserveSize(61) == 192
  {
    SlotShort(61);
  }

  /**
   * Up to 30 video chunks: the seek chunk is 160 bytes, but WriteTo leaves
   * a 168-byte slot (176 for exactly 30), so zero bytes the size of a
   * chunk header or more follow the seek chunk.
   */
  lemma SeekChunkUnderfillsSlot(offsets: seq<nat>)
    requires 1 <= |offsets| <= 30
    ensures GetSizeForVideoSeek(|offsets|) == if |offsets| < 30 then 168 else 176
    ensures Writable(SeekChunk(offsets)) && |EncodeChunk(SeekChunk(offsets))| == 160
  {
    SeekChunkFits(offsets);
    SlotSizesUpTo30(|offsets|);
  }

  lemma SlotSizesUpTo30(n: nat)
    requires 1 <= n <= 30
    ensures GetSizeForVideoSeek(n) == (if n < 30 then 168 else 176) && ReserveSize(n) == 160
  {
    assert (n + 29) / 30 == 1;
  }
}
