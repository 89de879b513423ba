/**
 * types.go: payload-type codes, the fixed 24-byte header of a "UTF table"
 * payload with its four variable regions, and the little-endian subtitle
 * record header.
 */
module TableTypes {
  import opened Bytes
  import opened ChunkLayout

  const PayloadTypeStream: byte := 0
  const PayloadTypeHeader: byte := 1
  const PayloadTypeEnd: byte := 2
  const PayloadTypeSeek: byte := 3

  /** PayloadFixedData: offsets are measured from the start of this fixed part. */
  datatype FixedData = FixedData(
    uniqueArrayOffset: uint32,
    stringArrayOffset: uint32,
    byteArrayOffset: uint32,
    payloadNameOffset: uint32,
    itemsPerDictionary: uint16,
    uniqueArraySizePerDictionary: uint16,
    numberOfDictionary: uint32)

  /** PayloadFlexData: the shared, unique, string and byte regions, in file order. */
  datatype FlexData = FlexData(shared: seq<byte>, unique: seq<byte>, strings: seq<byte>, bytes: seq<byte>)

  datatype PayloadData = PayloadData(fixed: FixedData, flex: FlexData)

  /** A table payload: an 8-byte header ("@UTF", size) and the table itself. */
  datatype Payload = Payload(header: Header, data: PayloadData)

  const FixedDataLen: nat := 24

  /** binary.Write of PayloadFixedData: 4+4+4+4+2+2+4 big-endian bytes. */
  function EncodeFixedData(f: FixedData): (r: seq<byte>)
    ensures |r| == FixedDataLen
  {
    Pow256Values();
    ToBigEndian(f.uniqueArrayOffset, 4) + ToBigEndian(f.stringArrayOffset, 4)
      + ToBigEndian(f.byteArrayOffset, 4) + ToBigEndian(f.payloadNameOffset, 4)
      + ToBigEndian(f.itemsPerDictionary, 2) + ToBigEndian(f.uniqueArraySizePerDictionary, 2)
      + ToBigEndian(f.numberOfDictionary, 4)
  }

  /** binary.Read of PayloadFixedData from exactly 24 bytes; each getter reads its field big-endian. */
  function DecodeFixedData(b: seq<byte>): (f: FixedData)
    requires |b| == FixedDataLen
  {
    Pow256Values();
    FixedData(BigEndian(b[0..4]), BigEndian(b[4..8]), BigEndian(b[8..12]), BigEndian(b[12..16]),
      BigEndian(b[16..18]), BigEndian(b[18..20]), BigEndian(b[20..24]))
  }

  lemma FixedDataRoundTrip(f: FixedData)
    ensures DecodeFixedData(EncodeFixedData(f)) == f
  {
    Pow256Values();
    var e0, e1, e2, e3 := ToBigEndian(f.uniqueArrayOffset, 4), ToBigEndian(f.stringArrayOffset, 4),
      ToBigEndian(f.byteArrayOffset, 4), ToBigEndian(f.payloadNameOffset, 4);
    var e4, e5, e6 := ToBigEndian(f.itemsPerDictionary, 2), ToBigEndian(f.uniqueArraySizePerDictionary, 2),
      ToBigEndian(f.numberOfDictionary, 4);
    var x1 := e0 + e1;
    var x2 := x1 + e2;
    var x3 := x2 + e3;
    var x4 := x3 + e4;
    var x5 := x4 + e5;
    var b := x5 + e6;
    assert b == EncodeFixedData(f);
    assert b[20..24] == e6 && b[..20] == x5;
    assert x5[18..20] == e5 && x5[..18] == x4;
    assert x4[16..18] == e4 && x4[..16] == x3;
    assert x3[12..16] == e3 && x3[..12] == x2;
    assert x2[8..12] == e2 && x2[..8] == x1;
    assert x1[4..8] == e1 && x1[..4] == e0;
    assert b[18..20] == x5[18..20];
    assert b[16..18] == x4[16..18];
    assert b[12..16] == x3[12..16];
    assert b[8..12] == x2[8..12];
    assert b[4..8] == x1[4..8];
    assert b[0..4] == x1[..4];
  }

  lemma FixedDataBytesRoundTrip(b: seq<byte>)
    requires |b| == FixedDataLen
    ensures EncodeFixedData(DecodeFixedData(b)) == b
  {
    Pow256Values();
    ToBigEndianOfBigEndian(b[0..4]);
    ToBigEndianOfBigEndian(b[4..8]);
    ToBigEndianOfBigEndian(b[8..12]);
    ToBigEndianOfBigEndian(b[12..16]);
    ToBigEndianOfBigEndian(b[16..18]);
    ToBigEndianOfBigEndian(b[18..20]);
    ToBigEndianOfBigEndian(b[20..24]);
    assert b[..8] == b[0..4] + b[4..8];
    assert b[..12] == b[..8] + b[8..12];
    assert b[..16] == b[..12] + b[12..16];
    assert b[..18] == b[..16] + b[16..18];
    assert b[..20] == b[..18] + b[18..20];
    assert b == b[..20] + b[20..24];
  }

  /** PayloadFixedData.Len: the fixed part is always 24 bytes. */
  function FixedDataLength(f: FixedData): (r: nat)
    ensures r == |EncodeFixedData(f)|
  {
    24
  }

  /** PayloadData.Size: the fixed part plus the four regions, the size a table's "@UTF" header declares. */
  function PayloadDataSize(d: PayloadData): nat {
    FixedDataLen + |d.flex.shared| + |d.flex.unique| + |d.flex.strings| + |d.flex.bytes|
  }

  /** SubtitleHeader: five little-endian 32-bit fields. */
  datatype SubtitleHeader = SubtitleHeader(
    language: uint32,
    frameRate: uint32,
    frameTime: uint32,
    frameEnd: uint32,
    stringSize: uint32)

  datatype Subtitle = Subtitle(header: SubtitleHeader, text: seq<byte>)

  const SubtitleHeaderLen: nat := 20

  function EncodeSubtitleHeader(h: SubtitleHeader): (r: seq<byte>)
    ensures |r| == SubtitleHeaderLen
  {
    Pow256Values();
    ToLittleEndian(h.language, 4) + ToLittleEndian(h.frameRate, 4) + ToLittleEndian(h.frameTime, 4)
      + ToLittleEndian(h.frameEnd, 4) + ToLittleEndian(h.stringSize, 4)
  }

  /** binary.Read of a SubtitleHeader; every getter reads its field little-endian. */
  function DecodeSubtitleHeader(b: seq<byte>): SubtitleHeader
    requires |b| == SubtitleHeaderLen
  {
    Pow256Values();
    SubtitleHeader(LittleEndian(b[0..4]), LittleEndian(b[4..8]), LittleEndian(b[8..12]),
      LittleEndian(b[12..16]), LittleEndian(b[16..20]))
  }

  lemma SubtitleHeaderRoundTrip(h: SubtitleHeader)
    ensures DecodeSubtitleHeader(EncodeSubtitleHeader(h)) == h
  {
    Pow256Values();
    var e0, e1, e2 := ToLittleEndian(h.language, 4), ToLittleEndian(h.frameRate, 4), ToLittleEndian(h.frameTime, 4);
    var e3, e4 := ToLittleEndian(h.frameEnd, 4), ToLittleEndian(h.stringSize, 4);
    var x1 := e0 + e1;
    var x2 := x1 + e2;
    var x3 := x2 + e3;
    var b := x3 + e4;
    assert b == EncodeSubtitleHeader(h);
    assert b[16..20] == e4 && b[..16] == x3;
    assert x3[12..16] == e3 && x3[..12] == x2;
    assert x2[8..12] == e2 && x2[..8] == x1;
    assert x1[4..8] == e1 && x1[..4] == e0;
    assert b[12..16] == x3[12..16];
    assert b[8..12] == x2[8..12];
    assert b[4..8] == x1[4..8];
    assert b[0..4] == x1[..4];
  }

  lemma SubtitleHeaderBytesRoundTrip(b: seq<byte>)
    requires |b| == SubtitleHeaderLen
    ensures EncodeSubtitleHeader(DecodeSubtitleHeader(b)) == b
  {
    ToLittleEndianOfLittleEndian(b[0..4]);
    ToLittleEndianOfLittleEndian(b[4..8]);
    ToLittleEndianOfLittleEndian(b[8..12]);
    ToLittleEndianOfLittleEndian(b[12..16]);
    ToLittleEndianOfLittleEndian(b[16..20]);
    assert b == b[0..4] + b[4..8] + b[8..12] + b[12..16] + b[16..20];
  }
}
