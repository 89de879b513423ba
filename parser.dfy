/**
 * main.go: reading chunks from a stream, splitting a table payload into its
 * fixed part and four regions, resolving null-terminated strings, and
 * turning a table back into rows of entries (BuildDict).
 */
module Parser {
  import opened Bytes
  import opened GoIo
  import opened ChunkLayout
  import opened TableTypes
  import opened UsmValue
  import opened Builder

  /** A decoded value, the cursor after it, and the error reported. */
  datatype Step<T> = Step(value: T, pos: nat, err: Option<Error>)

  /** binary.Read of a chunk header: the value stays zero when the full 8 bytes are not there. */
  function HeaderAt(data: seq<byte>, pos: nat): (r: Step<Header>)
    ensures r.err.None? <==> pos + HeaderLen <= |data|
    ensures r.err.None? ==> r.pos == pos + HeaderLen
  {
    var rd := ReadFullSpec(data, pos, HeaderLen);
    Step(if rd.err.None? then DecodeHeader(rd.buf) else Header(ZeroId, 0), rd.pos, rd.err)
  }

  /** binary.Read of a payload header, zero on failure. */
  function PayloadHeaderAt(data: seq<byte>, pos: nat): (r: Step<PayloadHeader>)
    ensures r.err.None? <==> pos + PayloadHeaderLen <= |data|
    ensures r.pos <= Max(pos, |data|)
  {
    var rd := ReadFullSpec(data, pos, PayloadHeaderLen);
    Step(if rd.err.None? then DecodePayloadHeader(rd.buf) else ZeroPayloadHeader, rd.pos, rd.err)
  }

  /** safeRead's verdict on a read of `n` bytes: a short read is not an error, a full one reports what Read reported. */
  function SafeReadErr(r: ReadResult, n: nat): Option<Error> {
    if r.count != n then None else r.err
  }

  /** safeRead only ever fails on an empty read at the end of a bytes.Reader. */
  lemma SafeReadFailsOnlyWhenEmpty(data: seq<byte>, pos: nat, n: nat, isFile: bool)
    ensures SafeReadErr(ReadSpec(data, pos, n, isFile), n).Some? <==> n == 0 && pos >= |data| && !isFile
  {
  }

  /** safeRead: one Read into an `n`-byte buffer; the unread tail stays zero. */
  method SafeRead(src: Reader, n: nat) returns (buf: seq<byte>, err: Option<Error>)
    modifies src
    ensures var r := ReadSpec(src.data, old(src.pos), n, src.isFile);
      buf == r.buf && src.pos == r.pos && err == SafeReadErr(r, n)
  {
    var count: nat;
    var readErr: Option<Error>;
    buf, count, readErr := src.Read(n);
    if count != n {
      err := None;
      return;
    }
    err := readErr;
  }

  method ReadHeader(src: Reader) returns (h: Header, err: Option<Error>)
    modifies src
    ensures var r := HeaderAt(src.data, old(src.pos)); h == r.value && src.pos == r.pos && err == r.err
  {
    var buf;
    buf, err := src.ReadFull(HeaderLen);
    h := if err.None? then DecodeHeader(buf) else Header(ZeroId, 0);
  }

  method ReadPayloadHeader(src: Reader) returns (h: PayloadHeader, err: Option<Error>)
    modifies src
    ensures var r := PayloadHeaderAt(src.data, old(src.pos)); h == r.value && src.pos == r.pos && err == r.err
  {
    var buf;
    buf, err := src.ReadFull(PayloadHeaderLen);
    h := if err.None? then DecodePayloadHeader(buf) else ZeroPayloadHeader;
  }

  datatype ChunkRead = ChunkRead(chunk: Chunk, pos: nat, err: Option<Error>)

  /**
   * ReadChunkData after a header of size `size`: the payload header (its
   * error is dropped), Size - PaddingSize - 24 payload bytes, then the
   * padding skipped. A negative payload length makes Go's make() panic.
   */
  function ReadChunkDataSpec(data: seq<byte>, pos: nat, isFile: bool, h: Header): (r: ChunkRead)
    ensures r.err.None? ==> |r.chunk.payload| == DeclaredPayloadSize(r.chunk)
    ensures r.pos <= Max(pos, |data|)
  {
    var ph := PayloadHeaderAt(data, pos);
    ChunkBody(data, ph.pos, isFile, h, ph.value)
  }

  /** The payload and the skipped padding after a payload header `ph`. */
  function ChunkBody(data: seq<byte>, pos: nat, isFile: bool, h: Header, ph: PayloadHeader): (r: ChunkRead)
    ensures r.err.None? ==> |r.chunk.payload| == DeclaredPayloadSize(r.chunk)
    ensures r.pos <= Max(pos, |data|)
  {
    var n := h.size - ph.paddingSize - PayloadHeaderLen;
    if n < 0 then ChunkRead(Chunk(h, ph, []), pos, Some(Panic))
    else
      var body := ReadSpec(data, pos, n, isFile);
      var pad := ReadSpec(data, body.pos, ph.paddingSize, isFile);
      ChunkRead(Chunk(h, ph, body.buf), pad.pos, SafeReadErr(body, n))
  }

  /** ReadChunk: a header, then, if it was read in full, the rest of the chunk. */
  function ReadChunkSpec(data: seq<byte>, pos: nat, isFile: bool): (r: ChunkRead)
    ensures r.err.None? ==> pos + HeaderLen <= r.pos <= |data|
  {
    var hd := HeaderAt(data, pos);
    if hd.err.Some? then ChunkRead(Chunk(hd.value, ZeroPayloadHeader, []), hd.pos, hd.err)
    else ReadChunkDataSpec(data, hd.pos, isFile, hd.value)
  }

  /**
   * Eight zero bytes where a chunk header is expected: the header reads as
   * Size 0, so ReadChunkData asks make() for -PaddingSize - 24 payload
   * bytes and panics, whatever follows.
   */
  lemma ZeroHeaderPanics(data: seq<byte>, pos: nat, isFile: bool)
    requires pos + HeaderLen <= |data| && data[pos..pos + HeaderLen] == Zeros(HeaderLen)
    ensures ReadChunkSpec(data, pos, isFile).err == Some(Panic)
  {
    var b := data[pos..pos + HeaderLen];
    assert ReadFullSpec(data, pos, HeaderLen).buf == b;
    var z: seq<byte> := [0, 0, 0, 0];
    assert b[4..8] == z;
    var z1: seq<byte>, z2: seq<byte>, z3: seq<byte> := [0], [0, 0], [0, 0, 0];
    assert z1[..0] == [] && z2[..1] == z1 && z3[..2] == z2 && z[..3] == z3;
    assert BigEndian(z1) == 0;
    assert BigEndian(z2) == 0;
    assert BigEndian(z3) == 0;
    assert BigEndian(z) == 0;
    assert HeaderAt(data, pos).value.size == 0;
  }

  method ReadChunkData(src: Reader, h: Header) returns (c: Chunk, err: Option<Error>)
    modifies src
    ensures ChunkRead(c, src.pos, err) == ReadChunkDataSpec(src.data, old(src.pos), src.isFile, h)
  {
    var ph;
    ph, err := ReadPayloadHeader(src);
    c, err := ReadChunkBody(src, h, ph);
  }

  /** The part of ReadChunkData after the payload header; the header's read error is overwritten. */
  method ReadChunkBody(src: Reader, h: Header, ph: PayloadHeader) returns (c: Chunk, err: Option<Error>)
    modifies src
    ensures ChunkRead(c, src.pos, err) == ChunkBody(src.data, old(src.pos), src.isFile, h, ph)
  {
    var n := h.size - ph.paddingSize - PayloadHeaderLen;
    if n < 0 {
      c, err := Chunk(h, ph, []), Some(Panic);
      return;
    }
    var payload;
    payload, err := SafeRead(src, n);
    var _, _ := SafeRead(src, ph.paddingSize);
    c := Chunk(h, ph, payload);
  }

  method ReadChunk(src: Reader) returns (c: Chunk, err: Option<Error>)
    modifies src
    ensures ChunkRead(c, src.pos, err) == ReadChunkSpec(src.data, old(src.pos), src.isFile)
  {
    var h;
    h, err := ReadHeader(src);
    if err.Some? {
      c := Chunk(h, ZeroPayloadHeader, []);
      return;
    }
    c, err := ReadChunkData(src, h);
  }

  /** A header that is there in full is decoded. */
  lemma HeaderAtEncoded(data: seq<byte>, p: nat, h: Header)
    requires p + HeaderLen <= |data| && data[p..p + HeaderLen] == EncodeHeader(h)
    ensures HeaderAt(data, p) == Step(h, p + HeaderLen, None)
  {
    ReadFullPresent(data, p, EncodeHeader(h));
    HeaderRoundTrip(h);
  }

  lemma PayloadHeaderAtEncoded(data: seq<byte>, p: nat, h: PayloadHeader)
    requires p + PayloadHeaderLen <= |data| && data[p..p + PayloadHeaderLen] == EncodePayloadHeader(h)
    ensures PayloadHeaderAt(data, p) == Step(h, p + PayloadHeaderLen, None)
  {
    ReadFullPresent(data, p, EncodePayloadHeader(h));
    PayloadHeaderRoundTrip(h);
  }

  /**
   * Reading back what WriteChunk wrote gives the chunk with its payload cut
   * to the declared size, and consumes exactly Size + 8 bytes. At the very
   * end of a bytes.Reader an empty payload read reports EOF, hence the
   * second precondition.
   */
  lemma ReadChunkRoundTrip(pre: seq<byte>, c: Chunk, rest: seq<byte>, isFile: bool)
    requires Writable(c)
    requires isFile || DeclaredPayloadSize(c) + c.payloadHeader.paddingSize + |rest| > 0
    ensures ReadChunkSpec(pre + EncodeChunk(c) + rest, |pre|, isFile)
      == ChunkRead(c.(payload := c.payload[..DeclaredPayloadSize(c)]), |pre| + c.header.size + HeaderLen, None)
  {
    EncodedChunkSlices(pre, c, rest);
    EncodedChunkAt(pre + EncodeChunk(c) + rest, |pre|, c, isFile);
  }

  /** Where the parts of an encoded chunk sit once it is embedded in a stream. */
  lemma EncodedChunkSlices(pre: seq<byte>, c: Chunk, rest: seq<byte>)
    requires Writable(c)
    ensures var data := pre + EncodeChunk(c) + rest;
      var p := |pre|;
      var k := DeclaredPayloadSize(c);
      var pad := c.payloadHeader.paddingSize;
      |data| == p + 32 + k + pad + |rest|
      && data[p..p + 8] == EncodeHeader(c.header)
      && data[p + 8..p + 32] == EncodePayloadHeader(c.payloadHeader)
      && data[p + 32..p + 32 + k] == c.payload[..k]
      && data[p + 32 + k..p + 32 + k + pad] == Zeros(pad)
  {
    var e := EncodeChunk(c);
    EncodeChunkParts(c);
    var data := pre + e + rest;
    var p := |pre|;
    var k := DeclaredPayloadSize(c);
    assert data[p..p + |e|] == e;
    SubSlice(data, p, e, 0, 8);
    SubSlice(data, p, e, 8, 32);
    SubSlice(data, p, e, 32, 32 + k);
    SubSlice(data, p, e, 32 + k, |e|);
  }

  /** An encoded chunk at `p` is read back whole. */
  lemma EncodedChunkAt(data: seq<byte>, p: nat, c: Chunk, isFile: bool)
    requires Writable(c)
    requires var k := DeclaredPayloadSize(c);
      var pad := c.payloadHeader.paddingSize;
      p + 32 + k + pad <= |data|
      && data[p..p + 8] == EncodeHeader(c.header)
      && data[p + 8..p + 32] == EncodePayloadHeader(c.payloadHeader)
      && data[p + 32..p + 32 + k] == c.payload[..k]
      && data[p + 32 + k..p + 32 + k + pad] == Zeros(pad)
    requires isFile || DeclaredPayloadSize(c) > 0 || p + 32 < |data|
    ensures ReadChunkSpec(data, p, isFile)
      == ChunkRead(c.(payload := c.payload[..DeclaredPayloadSize(c)]), p + c.header.size + HeaderLen, None)
  {
    HeaderAtEncoded(data, p, c.header);
    PayloadHeaderAtEncoded(data, p + 8, c.payloadHeader);
    ChunkBodyOfEncoded(data, p + 32, c, isFile);
  }

  /** The payload and padding WriteChunk wrote, read back after the payload header. */
  lemma ChunkBodyOfEncoded(data: seq<byte>, q: nat, c: Chunk, isFile: bool)
    requires Writable(c)
    requires var k := DeclaredPayloadSize(c);
      q + k + c.payloadHeader.paddingSize <= |data|
      && data[q..q + k] == c.payload[..k]
      && data[q + k..q + k + c.payloadHeader.paddingSize] == Zeros(c.payloadHeader.paddingSize)
    requires isFile || DeclaredPayloadSize(c) > 0 || q < |data|
    ensures ChunkBody(data, q, isFile, c.header, c.payloadHeader)
      == ChunkRead(c.(payload := c.payload[..DeclaredPayloadSize(c)]), q + DeclaredPayloadSize(c) + c.payloadHeader.paddingSize, None)
  {
    var k := DeclaredPayloadSize(c);
    var pad := c.payloadHeader.paddingSize;
    ReadPresent(data, q, c.payload[..k], isFile);
    ReadPresent(data, q + k, Zeros(pad), isFile);
    var body := ReadSpec(data, q, k, isFile);
    var skip := ReadSpec(data, body.pos, pad, isFile);
    assert body.buf == c.payload[..k] && body.pos == q + k && SafeReadErr(body, k).None?;
    var cb := ChunkBody(data, q, isFile, c.header, c.payloadHeader);
    assert cb.chunk == Chunk(c.header, c.payloadHeader, body.buf);
    assert cb.pos == skip.pos;
    assert cb.err == SafeReadErr(body, k);
  }

  /** At the end of the input ReadChunk reports io.EOF; a cut-off header reports io.ErrUnexpectedEOF. */
  lemma ReadChunkAtEnd(data: seq<byte>, pos: nat, isFile: bool)
    requires pos < |data| + HeaderLen
    ensures pos >= |data| ==> ReadChunkSpec(data, pos, isFile).err == Some(EOF)
    ensures pos < |data| < pos + HeaderLen ==> ReadChunkSpec(data, pos, isFile).err == Some(UnexpectedEOF)
  {
  }

  /** A file never makes ReadChunk fail once the header is there, short of a negative payload length. */
  lemma ReadChunkFromFile(data: seq<byte>, pos: nat)
    requires pos + HeaderLen <= |data|
    ensures ReadChunkSpec(data, pos, true).err in {None, Some(Panic)}
  {
  }

  // ---------------------------------------------------------------------
  // ReadStringAt

  /** The bytes from `off` up to the first zero or the end of `data`. */
  function CStringAt(data: seq<byte>, off: nat): (r: seq<byte>)
    ensures |r| <= |data| - off || r == []
    decreases |data| - off
  {
    if off >= |data| || data[off] == 0 then []
    else [data[off]] + CStringAt(data, off + 1)
  }

  /** CStringAt is the zero-free run at `off`, cut by the first zero or the end. */
  lemma {:induction false} CStringAtIsRun(data: seq<byte>, off: nat)
    ensures var r := CStringAt(data, off);
      (r != [] ==> off + |r| <= |data| && r == data[off..off + |r|])
      && (forall i | 0 <= i < |r| :: r[i] != 0)
      && (off + |r| < |data| ==> data[off + |r|] == 0)
    decreases |data| - off
  {
    if off < |data| && data[off] != 0 {
      CStringAtIsRun(data, off + 1);
      var t := CStringAt(data, off + 1);
      if t != [] {
        assert data[off..off + 1 + |t|] == [data[off]] + data[off + 1..off + 1 + |t|];
      }
    }
  }

  /** A string written with stringToC reads back at its offset when it holds no zero byte. */
  lemma {:induction false} CStringAtOfStringToC(pre: seq<byte>, s: seq<byte>, rest: seq<byte>)
    requires forall i | 0 <= i < |s| :: s[i] != 0
    ensures CStringAt(pre + StringToC(s) + rest, |pre|) == s
    decreases |s|
  {
    if s != [] {
      var data := pre + StringToC(s) + rest;
      assert data == (pre + [s[0]]) + StringToC(s[1..]) + rest;
      CStringAtOfStringToC(pre + [s[0]], s[1..], rest);
      assert s == [s[0]] + s[1..];
    } else {
      assert (pre + StringToC(s) + rest)[|pre|] == 0;
    }
  }

  /** ReadStringAt: seek to `offset`, then collect bytes until a zero or the end. Seeking to a non-negative offset never fails, so no error is ever reported. */
  method ReadStringAt(src: Reader, offset: nat) returns (s: seq<byte>)
    requires !src.isFile
    modifies src
    ensures s == CStringAt(src.data, offset)
  {
    src.Seek(offset);
    s := [];
    while true
      invariant src.pos == offset + |s|
      invariant CStringAt(src.data, offset) == s + CStringAt(src.data, src.pos)
      decreases |src.data| - src.pos
    {
      var b, err := src.ReadByte();
      if err.Some? {
        break;
      }
      if b == 0 {
        break;
      }
      ghost var tail := CStringAt(src.data, src.pos);
      assert CStringAt(src.data, src.pos - 1) == [b] + tail;
      assert s + ([b] + tail) == (s + [b]) + tail;
      s := s + [b];
    }
  }

  /** ParsePayloadEnd: the marker text of an end chunk's payload. */
  method ParsePayloadEnd(raw: seq<byte>) returns (s: seq<byte>)
    ensures s == CStringAt(raw, 0)
  {
    var src := new Reader(raw, false);
    s := ReadStringAt(src, 0);
  }

  // ---------------------------------------------------------------------
  // ParsePayload

  datatype PayloadRead = PayloadRead(payload: Payload, err: Option<Error>)

  const ZeroFixedData := FixedData(0, 0, 0, 0, 0, 0, 0)
  const ZeroPayloadData := PayloadData(ZeroFixedData, FlexData([], [], [], []))

  /**
   * ParsePayload: the "@UTF" header, the fixed part, then four regions
   * whose lengths are differences of the offsets in uint32 arithmetic; the
   * last one is Size - ByteArrayOffset in int32 arithmetic and makes Go's
   * make() panic when negative. Short region reads are not errors.
   */
  function ParsePayloadSpec(raw: seq<byte>): (r: PayloadRead)
    ensures r.err.None? ==> FixedDataLen + HeaderLen <= |raw|
  {
    var hd := HeaderAt(raw, 0);
    if hd.err.Some? then PayloadRead(Payload(hd.value, ZeroPayloadData), hd.err)
    else
      var fx := ReadFullSpec(raw, hd.pos, FixedDataLen);
      if fx.err.Some? then PayloadRead(Payload(hd.value, ZeroPayloadData), fx.err)
      else TableBody(raw, hd.value, DecodeFixedData(fx.buf), fx.pos)
  }

  /** What ParsePayload returns once the header and the fixed part are read. */
  function TableBody(raw: seq<byte>, h: Header, f: FixedData, pos: nat): PayloadRead {
    var byteLen := I32(h.size - I32(f.byteArrayOffset));
    if byteLen < 0 then PayloadRead(Payload(h, ZeroPayloadData), Some(Panic))
    else PayloadRead(Payload(h, PayloadData(f, RegionsAt(raw, pos, RegionLengths(f, byteLen)))), None)
  }

  /** The region lengths ParsePayload allocates: offset differences in uint32 arithmetic, then the byte region's. */
  function RegionLengths(f: FixedData, byteLen: nat): (r: seq<nat>)
    ensures |r| == 4
  {
    [U32(f.uniqueArrayOffset - FixedDataLen), U32(f.stringArrayOffset - f.uniqueArrayOffset),
     U32(f.byteArrayOffset - f.stringArrayOffset), byteLen]
  }

  /** Two consecutive safeReads of the given lengths from `pos`, their errors ignored. */
  function TwoReads(raw: seq<byte>, pos: nat, a: nat, b: nat): (r: ReadPair)
    ensures |r.first| == a && |r.second| == b
  {
    var s := ReadSpec(raw, pos, a, false);
    var u := ReadSpec(raw, s.pos, b, false);
    ReadPair(s.buf, u.buf, u.pos)
  }

  datatype ReadPair = ReadPair(first: seq<byte>, second: seq<byte>, pos: nat)

  /** Four consecutive safeReads of the given lengths from `pos`, their errors ignored. */
  function RegionsAt(raw: seq<byte>, pos: nat, lens: seq<nat>): (r: FlexData)
    requires |lens| == 4
    ensures [|r.shared|, |r.unique|, |r.strings|, |r.bytes|] == lens
  {
    var su := TwoReads(raw, pos, lens[0], lens[1]);
    var tb := TwoReads(raw, su.pos, lens[2], lens[3]);
    FlexData(su.first, su.second, tb.first, tb.second)
  }

  method ReadRegions(src: Reader, lens: seq<nat>) returns (x: FlexData)
    requires |lens| == 4 && !src.isFile
    modifies src
    ensures x == RegionsAt(src.data, old(src.pos), lens)
  {
    ghost var su := TwoReads(src.data, src.pos, lens[0], lens[1]);
    var shared, _ := SafeRead(src, lens[0]);
    var unique, _ := SafeRead(src, lens[1]);
    assert ReadPair(shared, unique, src.pos) == su;
    ghost var tb := TwoReads(src.data, src.pos, lens[2], lens[3]);
    var strings, _ := SafeRead(src, lens[2]);
    var bytes, _ := SafeRead(src, lens[3]);
    assert ReadPair(strings, bytes, src.pos) == tb;
    x := FlexData(shared, unique, strings, bytes);
  }

  method ParsePayload(raw: seq<byte>) returns (p: Payload, err: Option<Error>)
    ensures PayloadRead(p, err) == ParsePayloadSpec(raw)
  {
    var src := new Reader(raw, false);
    var h;
    h, err := ReadHeader(src);
    ghost var hd := HeaderAt(raw, 0);
    assert h == hd.value && err == hd.err && src.pos == hd.pos;
    if err.Some? {
      p := Payload(h, ZeroPayloadData);
      return;
    }
    var buf;
    buf, err := src.ReadFull(FixedDataLen);
    ghost var fx := ReadFullSpec(raw, hd.pos, FixedDataLen);
    assert buf == fx.buf && err == fx.err && src.pos == fx.pos;
    if err.Some? {
      p := Payload(h, ZeroPayloadData);
      return;
    }
    var f := DecodeFixedData(buf);
    assert ParsePayloadSpec(raw) == TableBody(raw, h, f, src.pos);
    p, err := ReadTableBody(src, h, f);
  }

  /** The rest of ParsePayload: allocate the four regions (or panic) and fill them. */
  method ReadTableBody(src: Reader, h: Header, f: FixedData) returns (p: Payload, err: Option<Error>)
    requires !src.isFile
    modifies src
    ensures PayloadRead(p, err) == TableBody(src.data, h, f, old(src.pos))
  {
    ghost var spec := TableBody(src.data, h, f, src.pos);
    var byteLen := I32(h.size - I32(f.byteArrayOffset));
    if byteLen < 0 {
      p, err := Payload(h, ZeroPayloadData), Some(Panic);
      return;
    }
    assert spec.payload.data.flex == RegionsAt(src.data, src.pos, RegionLengths(f, byteLen));
    var flex := ReadRegions(src, RegionLengths(f, byteLen));
    p, err := Payload(h, PayloadData(f, flex)), None;
  }

  /** The fixed part's offsets agree with the regions it heads, and the header's Size covers them. */
  predicate Consistent(p: Payload) {
    var f := p.data.fixed;
    var x := p.data.flex;
    f.uniqueArrayOffset == FixedDataLen + |x.shared|
    && f.stringArrayOffset == f.uniqueArrayOffset + |x.unique|
    && f.byteArrayOffset == f.stringArrayOffset + |x.strings|
    && p.header.size == PayloadDataSize(p.data)
  }

  /** ParsePayload undoes compressPayload for a payload whose offsets and size agree with its regions. */
  lemma ParsePayloadRoundTrip(p: Payload)
    requires Consistent(p)
    ensures ParsePayloadSpec(CompressPayloadSpec(p)) == PayloadRead(p, None)
  {
    var f := p.data.fixed;
    var x := p.data.flex;
    var pre := EncodeHeader(p.header) + EncodeFixedData(f);
    var raw := pre + x.shared + x.unique + x.strings + x.bytes;
    assert raw == CompressPayloadSpec(p);
    assert raw[0..8] == EncodeHeader(p.header) && raw[8..32] == EncodeFixedData(f);
    HeadAndFixedAt(raw, p.header, f);
    ConsistentLengths(p);
    RegionsAtPresent(pre, x);
  }

  /** An encoded header and fixed part at the start leave ParsePayload to read the regions from byte 32. */
  lemma HeadAndFixedAt(raw: seq<byte>, h: Header, f: FixedData)
    requires 32 <= |raw| && raw[0..8] == EncodeHeader(h) && raw[8..32] == EncodeFixedData(f)
    ensures ParsePayloadSpec(raw) == TableBody(raw, h, f, 32)
  {
    ReadFullPresent(raw, 0, EncodeHeader(h));
    HeaderRoundTrip(h);
    ReadFullPresent(raw, 8, EncodeFixedData(f));
    FixedDataRoundTrip(f);
  }

  /** With consistent offsets none of ParsePayload's length computations wraps. */
  lemma ConsistentLengths(p: Payload)
    requires Consistent(p)
    ensures var x := p.data.flex;
      I32(p.header.size - I32(p.data.fixed.byteArrayOffset)) == |x.bytes|
      && RegionLengths(p.data.fixed, |x.bytes|) == [|x.shared|, |x.unique|, |x.strings|, |x.bytes|]
  {
    var f := p.data.fixed;
    assert I32(f.byteArrayOffset) == f.byteArrayOffset;
  }

  /** The four regions, laid out one after another after `pre`, are read back whole. */
  lemma RegionsAtPresent(pre: seq<byte>, x: FlexData)
    ensures RegionsAt(pre + x.shared + x.unique + x.strings + x.bytes, |pre|, [|x.shared|, |x.unique|, |x.strings|, |x.bytes|]) == x
  {
    RegionSlices(pre, x);
    RegionsRead(pre + x.shared + x.unique + x.strings + x.bytes, |pre|, x);
  }

  lemma RegionSlices(pre: seq<byte>, x: FlexData)
    ensures var raw := pre + x.shared + x.unique + x.strings + x.bytes;
      var p1 := |pre| + |x.shared|;
      var p2 := p1 + |x.unique|;
      var p3 := p2 + |x.strings|;
      raw[|pre|..p1] == x.shared && raw[p1..p2] == x.unique && raw[p2..p3] == x.strings
      && raw[p3..p3 + |x.bytes|] == x.bytes
  {
    var r1 := pre + x.shared;
    var r2 := r1 + x.unique;
    var r3 := r2 + x.strings;
    var raw := r3 + x.bytes;
    assert raw[..|r3|] == r3 && raw[|r3|..|raw|] == x.bytes;
    assert r3[..|r2|] == r2 && r3[|r2|..] == x.strings;
    assert r2[..|r1|] == r1 && r2[|r1|..] == x.unique;
    assert r1[|pre|..] == x.shared;
    assert raw[|pre|..|r1|] == r1[|pre|..];
    assert raw[|r1|..|r2|] == r2[|r1|..];
    assert raw[|r2|..|r3|] == r3[|r2|..];
  }

  lemma RegionsRead(raw: seq<byte>, pos: nat, x: FlexData)
    requires var p1 := pos + |x.shared|;
      var p2 := p1 + |x.unique|;
      var p3 := p2 + |x.strings|;
      p3 + |x.bytes| <= |raw|
      && raw[pos..p1] == x.shared && raw[p1..p2] == x.unique && raw[p2..p3] == x.strings
      && raw[p3..p3 + |x.bytes|] == x.bytes
    ensures RegionsAt(raw, pos, [|x.shared|, |x.unique|, |x.strings|, |x.bytes|]) == x
  {
    TwoReadsPresent(raw, pos, x.shared, x.unique);
    TwoReadsPresent(raw, pos + |x.shared| + |x.unique|, x.strings, x.bytes);
  }

  lemma TwoReadsPresent(raw: seq<byte>, pos: nat, v: seq<byte>, w: seq<byte>)
    requires pos + |v| + |w| <= |raw| && raw[pos..pos + |v|] == v && raw[pos + |v|..pos + |v| + |w|] == w
    ensures TwoReads(raw, pos, |v|, |w|) == ReadPair(v, w, pos + |v| + |w|)
  {
    ReadPresent(raw, pos, v, false);
    ReadPresent(raw, pos + |v|, w, false);
  }

  // ---------------------------------------------------------------------
  // ReadSubtitleData

  datatype SubtitleRead = SubtitleRead(subtitle: Subtitle, err: Option<Error>)

  const ZeroSubtitleHeader := SubtitleHeader(0, 0, 0, 0, 0)

  /** ReadSubtitleData: a 20-byte little-endian header, then StringSize bytes of text. */
  function ReadSubtitleSpec(raw: seq<byte>): (r: SubtitleRead)
    ensures r.err.None? ==> |r.subtitle.text| == r.subtitle.header.stringSize
  {
    var hd := ReadFullSpec(raw, 0, SubtitleHeaderLen);
    if hd.err.Some? then SubtitleRead(Subtitle(ZeroSubtitleHeader, []), hd.err)
    else
      var h := DecodeSubtitleHeader(hd.buf);
      var t := ReadSpec(raw, hd.pos, h.stringSize, false);
      var err := SafeReadErr(t, h.stringSize);
      if err.Some? then SubtitleRead(Subtitle(ZeroSubtitleHeader, []), err)
      else SubtitleRead(Subtitle(h, t.buf), None)
  }

  method ReadSubtitleData(raw: seq<byte>) returns (sub: Subtitle, err: Option<Error>)
    ensures SubtitleRead(sub, err) == ReadSubtitleSpec(raw)
  {
    var src := new Reader(raw, false);
    var buf;
    buf, err := src.ReadFull(SubtitleHeaderLen);
    if err.Some? {
      sub := Subtitle(ZeroSubtitleHeader, []);
      return;
    }
    var h := DecodeSubtitleHeader(buf);
    var text;
    text, err := SafeRead(src, h.stringSize);
    if err.Some? {
      sub := Subtitle(ZeroSubtitleHeader, []);
      return;
    }
    sub := Subtitle(h, text);
  }

  /** A record of header and text reads back as written; an empty text at the end reports EOF, as bytes.Reader does. */
  lemma ReadSubtitleRoundTrip(s: Subtitle, rest: seq<byte>)
    requires |s.text| == s.header.stringSize
    ensures ReadSubtitleSpec(EncodeSubtitleHeader(s.header) + s.text + rest)
      == if |s.text| == 0 && rest == [] then SubtitleRead(Subtitle(ZeroSubtitleHeader, []), Some(EOF))
         else SubtitleRead(s, None)
  {
    var raw := EncodeSubtitleHeader(s.header) + s.text + rest;
    assert raw[0..20] == EncodeSubtitleHeader(s.header);
    ReadFullPresent(raw, 0, EncodeSubtitleHeader(s.header));
    SubtitleHeaderRoundTrip(s.header);
    assert raw[20..20 + |s.text|] == s.text;
    ReadPresent(raw, 20, s.text, false);
  }
}
