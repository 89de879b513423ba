/**
 * builder.go: writing a chunk to the output, and building a "UTF table"
 * payload from rows of entries (compressDict, then compressPayload).
 */
module Builder {
  import opened Bytes
  import opened GoIo
  import opened ChunkLayout
  import opened TableTypes
  import opened UsmValue

  /** A chunk WriteChunk can write without panicking: its declared payload size is neither negative nor longer than the payload. */
  predicate Writable(c: Chunk) {
    0 <= DeclaredPayloadSize(c) <= |c.payload|
  }

  /**
   * The bytes WriteChunk emits: chunk header, payload header, the declared
   * number of payload bytes, then PaddingSize zero bytes (EncodeChunkParts
   * says where each part sits).
   */
  function EncodeChunk(c: Chunk): (r: seq<byte>)
    requires Writable(c)
    ensures |r| == c.header.size + HeaderLen
  {
    EncodeHeader(c.header) + EncodePayloadHeader(c.payloadHeader) + c.payload[..DeclaredPayloadSize(c)]
      + Zeros(c.payloadHeader.paddingSize)
  }

  /** The four parts of an encoded chunk, each at its offset. */
  lemma EncodeChunkParts(c: Chunk)
    requires Writable(c)
    ensures var r := EncodeChunk(c);
      && r[0..HeaderLen] == EncodeHeader(c.header)
      && r[HeaderLen..HeaderLen + PayloadHeaderLen] == EncodePayloadHeader(c.payloadHeader)
      && r[HeaderLen + PayloadHeaderLen..HeaderLen + PayloadHeaderLen + DeclaredPayloadSize(c)]
        == c.payload[..DeclaredPayloadSize(c)]
      && r[HeaderLen + PayloadHeaderLen + DeclaredPayloadSize(c)..|r|] == Zeros(c.payloadHeader.paddingSize)
  {
    var h := EncodeHeader(c.header);
    var ph := EncodePayloadHeader(c.payloadHeader);
    var body := c.payload[..DeclaredPayloadSize(c)];
    var pad := Zeros(c.payloadHeader.paddingSize);
    var x1 := h + ph;
    var x2 := x1 + body;
    var r := x2 + pad;
    assert r == EncodeChunk(c);
    assert r[..|x2|] == x2 && r[|x2|..] == pad;
    assert x2[..|x1|] == x1 && x2[|x1|..] == body;
    assert x1[..8] == h && x1[8..] == ph;
    assert r[0..8] == x1[..8];
    assert r[8..32] == x1[8..];
    assert r[32..|x2|] == x2[32..];
    assert r[|x2|..|r|] == pad;
  }

  /** WriteChunk: writes the chunk at the sink's cursor and returns the byte count, Size + 8. */
  method WriteChunk(c: Chunk, out: Sink) returns (n: int)
    requires Writable(c)
    modifies out
    ensures out.data == Overwrite(old(out.data), old(out.pos), EncodeChunk(c))
    ensures n == |EncodeChunk(c)| == c.header.size + HeaderLen
    ensures out.pos == old(out.pos) + n
  {
    ghost var d0, p0 := out.data, out.pos;
    var h := EncodeHeader(c.header);
    var ph := EncodePayloadHeader(c.payloadHeader);
    out.Write(h);
    n := HeaderLen;
    out.Write(ph);
    OverwriteTwice(d0, p0, h, ph);
    n := n + PayloadHeaderLen;
    var payloadSize := DeclaredPayloadSize(c);
    var body := c.payload[..payloadSize];
    out.Write(body);
    OverwriteTwice(d0, p0, h + ph, body);
    n := n + payloadSize;
    var padding := Zeros(c.payloadHeader.paddingSize);
    out.Write(padding);
    OverwriteTwice(d0, p0, h + ph + body, padding);
    n := n + c.payloadHeader.paddingSize;
  }

  /** stringToC: the bytes of `s` and one terminating zero. */
  function StringToC(s: seq<byte>): (r: seq<byte>)
    ensures |r| == |s| + 1 && r[..|s|] == s && r[|s|] == 0
  {
    s + [0]
  }

  /** "<NULL>" and its terminator, the first string of every table. */
  const NullString: seq<byte> := [0x3C, 0x4E, 0x55, 0x4C, 0x4C, 0x3E, 0x00]
  /** Where the dictionary name starts in the string region. */
  const NameOffset: nat := 7

  /** binary.BigEndian.PutUint32 of uint32(n). */
  function Offset4(n: nat): (r: seq<byte>)
    ensures |r| == 4 && BigEndian(r) == U32(n)
  {
    Pow256Values();
    ToBigEndian(U32(n), 4)
  }

  /** The four regions while compressDict is filling them. */
  datatype Regions = Regions(shared: seq<byte>, unique: seq<byte>, strings: seq<byte>, bytes: seq<byte>)


  /** A raw-typed value must hold at least its type's width (v.Value[:v.Type.Size]). */
  predicate Encodable(e: Entry) {
    !IsString(e.info) && !IsBytes(e.info) ==> e.info.size <= |e.value|
  }

  /** Row 0 is where ToByte is called, so its types must be in the catalog. */
  predicate RowEncodable(row: seq<Entry>, firstRow: bool) {
    forall e | e in row :: Encodable(e) && (firstRow ==> InCatalog(e.info))
  }

  /** What compressDict requires: at least one row (raw[0] and the division by len(raw)). */
  predicate TableEncodable(raw: seq<seq<Entry>>) {
    |raw| >= 1 && forall i | 0 <= i < |raw| :: RowEncodable(raw[i], i == 0)
  }

  /** A value goes to the shared region once (recurring, row 0) or to the unique region for every row. */
  function Store(r: Regions, v: seq<byte>, recurring: bool, firstRow: bool): Regions {
    if recurring && firstRow then r.(shared := r.shared + v)
    else if !recurring then r.(unique := r.unique + v)
    else r
  }

  /** The key part of row 0: tag byte, key offset in the shared region; key text in the string region. */
  function EncodeKey(r: Regions, e: Entry): Regions
    requires InCatalog(e.info)
  {
    r.(shared := r.shared + [ToByte(e)] + Offset4(|r.strings|), strings := r.strings + StringToC(e.key))
  }

  /** The value part of an entry: text or blob appended to its region, its offset(s) or raw bytes stored. */
  function EncodeValue(r: Regions, e: Entry, firstRow: bool): Regions
    requires Encodable(e)
  {
    if IsString(e.info) then
      Store(r.(strings := r.strings + StringToC(e.value)), Offset4(|r.strings|), e.recurring, firstRow)
    else if IsBytes(e.info) then
      Store(r.(bytes := r.bytes + e.value), Offset4(|r.bytes|) + Offset4(|r.bytes| + |e.value|), e.recurring, firstRow)
    else
      Store(r, e.value[..e.info.size], e.recurring, firstRow)
  }

  function EncodeEntry(r: Regions, e: Entry, firstRow: bool): Regions
    requires Encodable(e) && (firstRow ==> InCatalog(e.info))
  {
    EncodeValue(if firstRow then EncodeKey(r, e) else r, e, firstRow)
  }

  /** The regions after the first `j` entries of a row. */
  function EncodeRowPrefix(r: Regions, row: seq<Entry>, j: nat, firstRow: bool): Regions
    requires j <= |row| && RowEncodable(row, firstRow)
  {
    if j == 0 then r
    else
      assert row[j - 1] in row;
      EncodeEntry(EncodeRowPrefix(r, row, j - 1, firstRow), row[j - 1], firstRow)
  }

  /** The regions before any row: the string region holds "<NULL>" and the dictionary name. */
  function InitialRegions(name: seq<byte>): Regions {
    Regions([], [], NullString + StringToC(name), [])
  }

  /** The regions after the first `i` rows. */
  function EncodeRows(name: seq<byte>, raw: seq<seq<Entry>>, i: nat): Regions
    requires i <= |raw| && TableEncodable(raw)
  {
    if i == 0 then InitialRegions(name)
    else EncodeRowPrefix(EncodeRows(name, raw, i - 1), raw[i - 1], |raw[i - 1]|, i - 1 == 0)
  }

  /** Each region of `r` is a prefix of the same region of `s`. */
  predicate Grows(r: Regions, s: Regions) {
    r.shared <= s.shared && r.unique <= s.unique && r.strings <= s.strings && r.bytes <= s.bytes
  }

  lemma EncodeValueGrows(r: Regions, e: Entry, first: bool)
    requires Encodable(e)
    ensures Grows(r, EncodeValue(r, e, first))
  {
  }

  lemma EncodeEntryGrows(r: Regions, e: Entry, first: bool)
    requires Encodable(e) && (first ==> InCatalog(e.info))
    ensures var k := if first then EncodeKey(r, e) else r;
      Grows(r, k) && Grows(k, EncodeEntry(r, e, first))
  {
    EncodeValueGrows(if first then EncodeKey(r, e) else r, e, first);
  }

  lemma GrowsTrans(a: Regions, b: Regions, c: Regions)
    requires Grows(a, b) && Grows(b, c)
    ensures Grows(a, c)
  {
  }

  /** The regions after `j` entries of a row are a prefix of those after `k`. */
  lemma {:induction false} RowPrefixGrows(r: Regions, row: seq<Entry>, j: nat, k: nat, first: bool)
    requires j <= k <= |row| && RowEncodable(row, first)
    ensures Grows(EncodeRowPrefix(r, row, j, first), EncodeRowPrefix(r, row, k, first))
    decreases k
  {
    if j < k {
      RowPrefixGrows(r, row, j, k - 1, first);
      assert row[k - 1] in row;
      var p := EncodeRowPrefix(r, row, k - 1, first);
      EncodeEntryGrows(p, row[k - 1], first);
      GrowsTrans(EncodeRowPrefix(r, row, j, first), p, EncodeRowPrefix(r, row, k, first));
    }
  }

  /** The regions after `i` rows are a prefix of those after `k`. */
  lemma {:induction false} RowsGrow(name: seq<byte>, raw: seq<seq<Entry>>, i: nat, k: nat)
    requires i <= k <= |raw| && TableEncodable(raw)
    ensures Grows(EncodeRows(name, raw, i), EncodeRows(name, raw, k))
    decreases k
  {
    if i < k {
      RowsGrow(name, raw, i, k - 1);
      var p := EncodeRows(name, raw, k - 1);
      RowPrefixGrows(p, raw[k - 1], 0, |raw[k - 1]|, k - 1 == 0);
      GrowsTrans(EncodeRows(name, raw, i), p, EncodeRows(name, raw, k));
    }
  }

  /**
   * The key part of an entry of row 0 takes five bytes of the shared
   * region, the tag byte and the key's string offset, and appends the key
   * and its terminator to the string region.
   */
  lemma EncodeKeyLayout(r: Regions, e: Entry)
    requires InCatalog(e.info) && |r.strings| < TwoTo32
    ensures var k := EncodeKey(r, e);
      && |k.shared| == |r.shared| + 5 && k.shared[..|r.shared|] == r.shared
      && k.shared[|r.shared|] == ToByte(e) && BigEndian(k.shared[|r.shared| + 1..]) == |r.strings|
      && k.strings == r.strings + e.key + [0] && k.unique == r.unique && k.bytes == r.bytes
  {
    var k := EncodeKey(r, e);
    assert k.shared[|r.shared| + 1..] == Offset4(|r.strings|);
  }

  /** The fixed header compressDict computes for the finished regions. */
  function FixedFor(r: Regions, raw: seq<seq<Entry>>): FixedData
    requires |raw| >= 1
  {
    var uniqueOffset := U32(|r.shared| + FixedDataLen);
    var stringOffset := U32(|r.unique| + uniqueOffset);
    var byteOffset := U32(|r.strings| + stringOffset);
    FixedData(uniqueOffset, stringOffset, byteOffset, NameOffset, U16(|raw[0]|), U16(|r.unique| / |raw|), U32(|raw|))
  }

  function CompressDictSpec(name: seq<byte>, raw: seq<seq<Entry>>): PayloadData
    requires TableEncodable(raw)
  {
    var r := EncodeRows(name, raw, |raw|);
    PayloadData(FixedFor(r, raw), FlexData(r.shared, r.unique, r.strings, r.bytes))
  }

  /**
   * The fixed part compressDict computes places its regions right: the
   * string region opens with "<NULL>" and then the name, at the name
   * offset; and while the table's size fits in 32 bits, the unique, string
   * and byte regions start where the previous one ends, the byte region
   * ending at the table's size.
   */
  lemma CompressDictLayout(name: seq<byte>, raw: seq<seq<Entry>>)
    requires TableEncodable(raw)
    ensures var d := CompressDictSpec(name, raw);
      var f := d.fixed;
      var x := d.flex;
      && f.payloadNameOffset == |NullString| && NullString + StringToC(name) <= x.strings
      && (PayloadDataSize(d) < TwoTo32 ==>
            && FixedDataLen <= f.uniqueArrayOffset <= f.stringArrayOffset <= f.byteArrayOffset <= PayloadDataSize(d)
            && f.uniqueArrayOffset == FixedDataLen + |x.shared|
            && f.stringArrayOffset == f.uniqueArrayOffset + |x.unique|
            && f.byteArrayOffset == f.stringArrayOffset + |x.strings|
            && f.byteArrayOffset + |x.bytes| == PayloadDataSize(d))
  {
    RowsGrow(name, raw, 0, |raw|);
    assert InitialRegions(name).strings == NullString + StringToC(name);
  }

  /** The body of compressDict's inner loop: one entry of one row. */
  method CompressEntry(r: Regions, v: Entry, first: bool) returns (r': Regions)
    requires Encodable(v) && (first ==> InCatalog(v.info))
    ensures r' == EncodeEntry(r, v, first) && Grows(r, r')
  {
    r' := r;
    if first {
      r' := r'.(shared := r'.shared + [ToByte(v)]);
      r' := r'.(shared := r'.shared + Offset4(|r'.strings|));
      r' := r'.(strings := r'.strings + StringToC(v.key));
    }
    assert r' == if first then EncodeKey(r, v) else r;
    if IsString(v.info) {
      r' := CompressString(r', v, first);
    } else if IsBytes(v.info) {
      r' := CompressBytes(r', v, first);
    } else {
      r' := CompressRaw(r', v, first);
    }
    EncodeEntryGrows(r, v, first);
    GrowsTrans(r, if first then EncodeKey(r, v) else r, r');
  }

  /** A String value: its text goes to the string region, its offset to the shared or unique region. */
  method CompressString(r: Regions, v: Entry, first: bool) returns (r': Regions)
    requires IsString(v.info)
    ensures r' == EncodeValue(r, v, first) && Grows(r, r')
  {
    r' := r;
    var valueOffset := Offset4(|r'.strings|);
    r' := r'.(strings := r'.strings + StringToC(v.value));
    if v.recurring && first {
      r' := r'.(shared := r'.shared + valueOffset);
    } else if !v.recurring {
      r' := r'.(unique := r'.unique + valueOffset);
    }
  }

  /** A Bytes value: the blob goes to the byte region, its start and end offsets to the shared or unique region. */
  method CompressBytes(r: Regions, v: Entry, first: bool) returns (r': Regions)
    requires IsBytes(v.info)
    ensures r' == EncodeValue(r, v, first) && Grows(r, r')
  {
    assert v.info.name[0] == 'B' && !IsString(v.info);
    ghost var offsets := Offset4(|r.bytes|) + Offset4(|r.bytes| + |v.value|);
    assert EncodeValue(r, v, first) == Store(r.(bytes := r.bytes + v.value), offsets, v.recurring, first);
    r' := r;
    var valueOffset := Offset4(|r'.bytes|);
    r' := r'.(bytes := r'.bytes + v.value);
    var endOffset := Offset4(|r'.bytes|);
    assert valueOffset + endOffset == offsets;
    if v.recurring && first {
      r' := r'.(shared := r'.shared + valueOffset);
      r' := r'.(shared := r'.shared + endOffset);
      assert r'.shared == r.shared + (valueOffset + endOffset);
    } else if !v.recurring {
      r' := r'.(unique := r'.unique + valueOffset);
      r' := r'.(unique := r'.unique + endOffset);
      assert r'.unique == r.unique + (valueOffset + endOffset);
    }
  }

  /** Any other value: its first Type.Size bytes go to the shared or unique region. */
  method CompressRaw(r: Regions, v: Entry, first: bool) returns (r': Regions)
    requires !IsString(v.info) && !IsBytes(v.info) && Encodable(v)
    ensures r' == EncodeValue(r, v, first) && Grows(r, r')
  {
    r' := r;
    if v.recurring && first {
      r' := r'.(shared := r'.shared + v.value[..v.info.size]);
    } else if !v.recurring {
      r' := r'.(unique := r'.unique + v.value[..v.info.size]);
    }
  }

  /** compressDict: builds the four regions row by row, entry by entry, then the fixed header. */
  method CompressDict(name: seq<byte>, raw: seq<seq<Entry>>) returns (d: PayloadData)
    requires TableEncodable(raw)
    ensures d == CompressDictSpec(name, raw)
    ensures d.fixed.payloadNameOffset == |NullString| && NullString + StringToC(name) <= d.flex.strings
    ensures PayloadDataSize(d) < TwoTo32 ==>
      && d.fixed.uniqueArrayOffset == FixedDataLen + |d.flex.shared|
      && d.fixed.stringArrayOffset == d.fixed.uniqueArrayOffset + |d.flex.unique|
      && d.fixed.byteArrayOffset == d.fixed.stringArrayOffset + |d.flex.strings|
      && d.fixed.byteArrayOffset + |d.flex.bytes| == PayloadDataSize(d)
  {
    var r := Regions([], [], NullString, []);
    r := r.(strings := r.strings + StringToC(name));
    var i := 0;
    while i < |raw|
      invariant 0 <= i <= |raw|
      invariant r == EncodeRows(name, raw, i)
    {
      var row := raw[i];
      var first := i == 0;
      var j := 0;
      while j < |row|
        invariant 0 <= j <= |row|
        invariant r == EncodeRowPrefix(EncodeRows(name, raw, i), row, j, first)
      {
        var v := row[j];
        assert v in row;
        r := CompressEntry(r, v, first);
        j := j + 1;
      }
      i := i + 1;
    }
    d := PayloadData(FixedFor(r, raw), FlexData(r.shared, r.unique, r.strings, r.bytes));
    assert d == CompressDictSpec(name, raw);
    CompressDictLayout(name, raw);
  }

  /** compressPayload's output: "@UTF" header, fixed part, then the four regions in order. */
  function CompressPayloadSpec(p: Payload): (r: seq<byte>)
    ensures |r| == HeaderLen + PayloadDataSize(p.data)
  {
    var x := p.data.flex;
    EncodeHeader(p.header) + EncodeFixedData(p.data.fixed) + x.shared + x.unique + x.strings + x.bytes
  }

  /** compressPayload: writes the pieces into a growing buffer. */
  method CompressPayload(p: Payload) returns (result: seq<byte>)
    ensures result == CompressPayloadSpec(p)
  {
    result := [];
    result := result + EncodeHeader(p.header);
    result := result + EncodeFixedData(p.data.fixed);
    result := result + p.data.flex.shared;
    result := result + p.data.flex.unique;
    result := result + p.data.flex.strings;
    result := result + p.data.flex.bytes;
  }
}
