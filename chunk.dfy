/**
 * chunk.go: the framing of one chunk — an 8-byte chunk header (ID, size)
 * followed by a 24-byte payload header, the payload and zero padding.
 * Header fields are numbers here; their byte form is big-endian, as the
 * getters SizeUInt and GetPaddingSize read it.
 */
module ChunkLayout {
  import opened Bytes

  /** A four-byte chunk tag such as "CRID" or "@SFV". */
  type Id = s: seq<byte> | |s| == 4 witness [0, 0, 0, 0]

  datatype Header = Header(id: Id, size: int32)

  /** The named fields of the payload header; the 11 reserved bytes are not kept. */
  datatype PayloadHeader = PayloadHeader(
    offset: byte,
    paddingSize: uint16,
    channelNumber: byte,
    payloadType: byte,
    frameTime: int32,
    frameRate: int32)

  datatype Chunk = Chunk(header: Header, payloadHeader: PayloadHeader, payload: seq<byte>)

  const HeaderLen: nat := 8
  const PayloadHeaderLen: nat := 24

  const ZeroId: Id := [0, 0, 0, 0]

  /** Go's == on two [4]byte tags: byte by byte. */
  predicate SameId(a: Id, b: Id) {
    a[0] == b[0] && a[1] == b[1] && a[2] == b[2] && a[3] == b[3]
  }

  lemma SameIdIsEqual(a: Id, b: Id)
    ensures SameId(a, b) <==> a == b
  {
    if SameId(a, b) {
      assert forall i | 0 <= i < 4 :: a[i] == b[i];
    }
  }
  const ZeroPayloadHeader := PayloadHeader(0, 0, 0, 0, 0, 0)
  /** The zero value of Go's Chunk struct, what a missing map key yields. */
  const ZeroChunk := Chunk(Header(ZeroId, 0), ZeroPayloadHeader, [])

  /** binary.Write of a Header: ID, then Size big-endian. */
  function EncodeHeader(h: Header): (r: seq<byte>)
    ensures |r| == HeaderLen
    ensures r[..4] == h.id
  {
    h.id + Int32Bytes(h.size)
  }

  /** binary.Read of a Header from exactly eight bytes. */
  function DecodeHeader(b: seq<byte>): (h: Header)
    requires |b| == HeaderLen
  {
    Header(b[..4], I32(BigEndian(b[4..8])))
  }

  lemma HeaderRoundTrip(h: Header)
    ensures DecodeHeader(EncodeHeader(h)) == h
  {
    var b := EncodeHeader(h);
    assert b[4..8] == Int32Bytes(h.size);
  }

  lemma HeaderBytesRoundTrip(b: seq<byte>)
    requires |b| == HeaderLen
    ensures EncodeHeader(DecodeHeader(b)) == b
  {
    var v := BigEndian(b[4..8]);
    Pow256Values();
    assert U32(I32(v)) == v;
    ToBigEndianOfBigEndian(b[4..8]);
    assert b == b[..4] + b[4..8];
  }

  /** IDString: the four ID bytes, exactly as they stand in the chunk header. */
  function IDString(h: Header): (r: seq<byte>)
    ensures |r| == 4 && r == EncodeHeader(h)[..4]
  {
    h.id
  }

  /** SizeUInt: the size bytes of the header read as an unsigned big-endian number. */
  function SizeUInt(h: Header): (r: uint32)
    ensures r == BigEndian(EncodeHeader(h)[4..8])
    ensures h.size >= 0 ==> r == h.size
  {
    assert EncodeHeader(h)[4..8] == Int32Bytes(h.size);
    Pow256Values();
    U32(h.size)
  }

  /** Positions of the payload header that Go's blank (`_`) fields occupy. */
  predicate IsReservedByte(i: int) {
    i == 0 || i == 5 || i == 6 || 16 <= i < 24
  }

  /** binary.Write of a PayloadHeader; blank fields are written as zeros. */
  function EncodePayloadHeader(h: PayloadHeader): (r: seq<byte>)
    ensures |r| == PayloadHeaderLen
    ensures forall i | 0 <= i < PayloadHeaderLen && IsReservedByte(i) :: r[i] == 0
  {
    Pow256Values();
    [0, h.offset] + ToBigEndian(h.paddingSize, 2) + [h.channelNumber] + [0, 0] + [h.payloadType]
      + Int32Bytes(h.frameTime) + Int32Bytes(h.frameRate) + Zeros(8)
  }

  /** binary.Read of a PayloadHeader from exactly 24 bytes; blank fields are skipped. */
  function DecodePayloadHeader(b: seq<byte>): PayloadHeader
    requires |b| == PayloadHeaderLen
  {
    PayloadHeader(b[1], BigEndian(b[2..4]), b[4], b[7], I32(BigEndian(b[8..12])), I32(BigEndian(b[12..16])))
  }

  lemma PayloadHeaderRoundTrip(h: PayloadHeader)
    ensures DecodePayloadHeader(EncodePayloadHeader(h)) == h
  {
    var b := EncodePayloadHeader(h);
    Pow256Values();
    assert b[2..4] == ToBigEndian(h.paddingSize, 2);
    assert b[8..12] == Int32Bytes(h.frameTime);
    assert b[12..16] == Int32Bytes(h.frameRate);
  }

  /**
   * Decoding then re-encoding a payload header keeps every named field's
   * bytes and zeroes the reserved ones.
   */
  lemma PayloadHeaderBytesRoundTrip(b: seq<byte>)
    requires |b| == PayloadHeaderLen
    ensures forall i | 0 <= i < PayloadHeaderLen ::
      EncodePayloadHeader(DecodePayloadHeader(b))[i] == if IsReservedByte(i) then 0 else b[i]
  {
    var h := DecodePayloadHeader(b);
    var r := EncodePayloadHeader(h);
    Pow256Values();
    var pad := ToBigEndian(h.paddingSize, 2);
    var ft := Int32Bytes(h.frameTime);
    var fr := Int32Bytes(h.frameRate);
    ToBigEndianOfBigEndian(b[2..4]);
    Int32BytesOfBigEndian(b[8..12]);
    Int32BytesOfBigEndian(b[12..16]);
    assert pad == b[2..4] && ft == b[8..12] && fr == b[12..16];
    assert r == [0, b[1]] + pad + [b[4]] + [0, 0] + [b[7]] + ft + fr + Zeros(8);
    forall i | 0 <= i < PayloadHeaderLen && !IsReservedByte(i)
      ensures r[i] == b[i]
    {
      if 2 <= i < 4 {
        assert r[i] == pad[i - 2];
      } else if 8 <= i < 12 {
        assert r[i] == ft[i - 8];
      } else if 12 <= i < 16 {
        assert r[i] == fr[i - 12];
      }
    }
  }

  /** PayloadHeader.Len: the encoded payload header is always 24 bytes. */
  function PayloadHeaderLength(h: PayloadHeader): (r: nat)
    ensures r == |EncodePayloadHeader(h)|
  {
    24
  }

  /** GetPaddingSize: bytes 2..3 of the payload header read big-endian. */
  function GetPaddingSize(h: PayloadHeader): (r: uint16)
    ensures r == BigEndian(EncodePayloadHeader(h)[2..4])
  {
    Pow256Values();
    assert EncodePayloadHeader(h)[2..4] == ToBigEndian(h.paddingSize, 2);
    h.paddingSize
  }

  /** GetPayloadType: byte 7 of the payload header, unchanged. */
  function GetPayloadType(h: PayloadHeader): (r: byte)
    ensures r == EncodePayloadHeader(h)[7]
  {
    h.payloadType
  }

  /** The number of payload bytes a chunk declares: Size minus the payload header and the padding. */
  function DeclaredPayloadSize(c: Chunk): int {
    c.header.size - PayloadHeaderLen - c.payloadHeader.paddingSize
  }
}
