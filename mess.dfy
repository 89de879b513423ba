/**
 * mess.go, the pure pieces of the remux engine: the chunk tags, the three
 * 32-byte end markers and the chunks that carry them, the frame time in
 * milliseconds that orders the interleaved streams, the sort keys of
 * PrepareStreams, and the contents-end chunk closing each stream.
 */
module Remux {
  import opened Bytes
  import opened ChunkLayout
  import opened TableTypes
  import opened Builder
  import opened StableSort
  import opened Parser

  /** The chunk tags the engine looks for. */
  const CRID: Id := [0x43, 0x52, 0x49, 0x44]
  const SFV: Id := [0x40, 0x53, 0x46, 0x56]
  const SFA: Id := [0x40, 0x53, 0x46, 0x41]
  const SBT: Id := [0x40, 0x53, 0x42, 0x54]
  const UTF: Id := [0x40, 0x55, 0x54, 0x46]
  /** "HCA\0", the start of the audio header payload. */
  const HCA: seq<byte> := [0x48, 0x43, 0x41, 0x00]

  /** "#HEADER END     ===============\0" */
  const HeaderEnd: seq<byte> := [
    0x23, 0x48, 0x45, 0x41, 0x44, 0x45, 0x52, 0x20, 0x45, 0x4E, 0x44, 0x20,
    0x20, 0x20, 0x20, 0x20, 0x3D, 0x3D, 0x3D, 0x3D, 0x3D, 0x3D, 0x3D, 0x3D,
    0x3D, 0x3D, 0x3D, 0x3D, 0x3D, 0x3D, 0x3D, 0x00]
  /** "#METADATA END   ===============\0" */
  const MetadataEnd: seq<byte> := [
    0x23, 0x4D, 0x45, 0x54, 0x41, 0x44, 0x41, 0x54, 0x41, 0x20, 0x45, 0x4E,
    0x44, 0x20, 0x20, 0x20, 0x3D, 0x3D, 0x3D, 0x3D, 0x3D, 0x3D, 0x3D, 0x3D,
    0x3D, 0x3D, 0x3D, 0x3D, 0x3D, 0x3D, 0x3D, 0x00]
  /** "#CONTENTS END   ===============\0" */
  const ContentsEnd: seq<byte> := [
    0x23, 0x43, 0x4F, 0x4E, 0x54, 0x45, 0x4E, 0x54, 0x53, 0x20, 0x45, 0x4E,
    0x44, 0x20, 0x20, 0x20, 0x3D, 0x3D, 0x3D, 0x3D, 0x3D, 0x3D, 0x3D, 0x3D,
    0x3D, 0x3D, 0x3D, 0x3D, 0x3D, 0x3D, 0x3D, 0x00]

  /** customOrder: video, audio, subtitles; any other index misses the map and reads as the zero tag. */
  function CustomOrder(i: int): (r: Id)
    ensures 0 <= i < 3 <==> r != ZeroId
    ensures r == SFV <==> i == 0
  {
    if i == 0 then SFV else if i == 1 then SFA else if i == 2 then SBT else ZeroId
  }

  // ---------------------------------------------------------------------
  // End markers

  /** makeEndChunk: a 0x38-byte End chunk at frame 0, 30 frames per second, no padding. */
  function MakeEndChunk(id: Id, content: seq<byte>): (c: Chunk)
    ensures c.header == Header(id, 0x38) && c.payload == content
    ensures c.payloadHeader.payloadType == PayloadTypeEnd && c.payloadHeader.paddingSize == 0
    ensures c.payloadHeader.frameTime == 0 && c.payloadHeader.frameRate == 0x1e
  {
    Chunk(Header(id, 0x38), PayloadHeader(0x18, 0, 0, PayloadTypeEnd, 0, 0x1e), content)
  }

  /**
   * A marker chunk is exactly consistent: Size is the payload header plus
   * the 32 marker bytes, so WriteChunk emits all of them in 64 bytes, and
   * reading those bytes back gives the same chunk.
   */
  lemma EndChunkConsistent(id: Id, content: seq<byte>, rest: seq<byte>)
    requires |content| == 32
    ensures var c := MakeEndChunk(id, content);
      && c.header.size == PayloadHeaderLen + |content| + c.payloadHeader.paddingSize
      && Writable(c) && |EncodeChunk(c)| == 64
      && ReadChunkSpec(EncodeChunk(c) + rest, 0, false) == ChunkRead(c, 64, None)
  {
    var c := MakeEndChunk(id, content);
    ReadChunkRoundTrip([], c, rest, false);
    assert [] + EncodeChunk(c) + rest == EncodeChunk(c) + rest;
    assert c.payload[..32] == c.payload;
  }

  /** The end-marker chunks; EndChunkConsistent gives what writing one produces. */
  function ContentsEndChunk(id: Id): (c: Chunk)
    ensures c.header == Header(id, 0x38) && c.payload == ContentsEnd
  {
    MakeEndChunk(id, ContentsEnd)
  }

  function HeaderEndChunk(id: Id): (c: Chunk)
    ensures c.header == Header(id, 0x38) && c.payload == HeaderEnd
  {
    MakeEndChunk(id, HeaderEnd)
  }

  function MetadataEndChunk(id: Id): (c: Chunk)
    ensures c.header == Header(id, 0x38) && c.payload == MetadataEnd
  {
    MakeEndChunk(id, MetadataEnd)
  }

  /** Each end marker is written whole, in 64 bytes, whatever its tag and frame time. */
  lemma EndChunksWritable(id: Id, frameTime: int32)
    ensures Writable(HeaderEndChunk(id)) && |EncodeChunk(HeaderEndChunk(id))| == 64
    ensures Writable(MetadataEndChunk(id)) && |EncodeChunk(MetadataEndChunk(id))| == 64
    ensures var c := ContentsEndChunk(id);
      Writable(c.(payloadHeader := c.payloadHeader.(frameTime := frameTime)))
  {
    EndChunkConsistent(id, HeaderEnd, []);
    EndChunkConsistent(id, MetadataEnd, []);
  }

  // ---------------------------------------------------------------------
  // Frame times

  /** getFrameSeconds: FrameTime * 1000 / FrameRate in int32 arithmetic (wrapping product, truncating quotient). */
  function GetFrameSeconds(h: PayloadHeader): (r: int32)
    requires h.frameRate != 0
    ensures 0 <= h.frameTime * 1000 < TwoTo31 && h.frameRate > 0 ==> r == h.frameTime * 1000 / h.frameRate
  {
    GoDivExact(h.frameTime * 1000, h.frameRate);
    I32(GoDiv(I32(h.frameTime * 1000), h.frameRate))
  }

  /** Without overflow or a negative rate, the int32 quotient is the exact one. */
  lemma GoDivExact(x: int, d: int)
    requires d != 0
    ensures 0 <= x < TwoTo31 && d > 0 ==> I32(GoDiv(I32(x), d)) == x / d
  {
    if 0 <= x < TwoTo31 && d > 0 {
      hide *;
      DivAtMost(x, d);
      DivNonNegative(x, d);
      assert I32(x) == x && GoDiv(x, d) == x / d;
      assert -TwoTo31 <= x / d < TwoTo31;
    }
  }

  lemma DivNonNegative(x: nat, d: int)
    requires d > 0
    ensures x / d >= 0
  {
  }

  /** Without overflow, a later frame of the same rate never gets an earlier time. */
  lemma GetFrameSecondsMonotone(a: PayloadHeader, b: PayloadHeader)
    requires a.frameRate == b.frameRate > 0
    requires 0 <= a.frameTime <= b.frameTime && b.frameTime * 1000 < TwoTo31
    ensures GetFrameSeconds(a) <= GetFrameSeconds(b)
  {
    var ra := a.frameRate;
    var x := a.frameTime * 1000;
    var y := b.frameTime * 1000;
    assert x <= y;
    DivMonotone(x, y, ra);
  }

  lemma DivMonotone(x: nat, y: nat, d: int)
    requires x <= y && d > 0
    ensures x / d <= y / d
  {
    var qx, qy := x / d, y / d;
    if qx > qy {
      MulMonotone(qy + 1, qx, d);
      assert false;
    }
  }

  lemma MulMonotone(a: int, b: int, d: int)
    requires a <= b && d > 0
    ensures a * d <= b * d
  {
    var k := b - a;
    assert b * d == a * d + k * d;
  }

  lemma DivAtMost(x: nat, d: int)
    requires d > 0
    ensures x / d <= x
  {
    var q := x / d;
    if q > x {
      MulMonotone(1, d, q);
      assert false;
    }
  }

  /**
   * The key WriteTo interleaves by. A zero frame rate makes getFrameSeconds
   * divide by zero; WriteTo's callers rule that out, and the key is then
   * GetFrameSeconds exactly.
   */
  function FrameKey(c: Chunk): (r: int)
    ensures c.payloadHeader.frameRate != 0 ==> r == GetFrameSeconds(c.payloadHeader)
  {
    if c.payloadHeader.frameRate == 0 then 0 else GetFrameSeconds(c.payloadHeader)
  }

  // ---------------------------------------------------------------------
  // PrepareStreams: sort keys and the closing marker

  function VideoKey(c: Chunk): int {
    c.payloadHeader.frameTime
  }

  /**
   * The audio order the model uses: HCA headers first, then by frame time.
   * The comparator in mess.go is not a strict weak order, so this is one
   * consistent reading of it, not the only possible result.
   */
  function AudioKey(c: Chunk): int {
    if |c.payload| >= 4 && c.payload[..4] == HCA then c.payloadHeader.frameTime - TwoTo32
    else c.payloadHeader.frameTime
  }

  /** The subtitle comparator: by frame time, ties broken by the first payload byte. */
  predicate SubtitleLess(a: Chunk, b: Chunk)
    requires a.payloadHeader.frameTime == b.payloadHeader.frameTime ==> |a.payload| >= 1 && |b.payload| >= 1
  {
    if a.payloadHeader.frameTime == b.payloadHeader.frameTime then a.payload[0] < b.payload[0]
    else a.payloadHeader.frameTime < b.payloadHeader.frameTime
  }

  function SubtitleKey(c: Chunk): int {
    c.payloadHeader.frameTime * 256 + if |c.payload| >= 1 then c.payload[0] else 0
  }

  /** Sorting by SubtitleKey is sorting by the subtitle comparator. */
  lemma SubtitleKeyOrder(a: Chunk, b: Chunk)
    requires a.payloadHeader.frameTime == b.payloadHeader.frameTime ==> |a.payload| >= 1 && |b.payload| >= 1
    ensures SubtitleLess(a, b) <==> SubtitleKey(a) < SubtitleKey(b)
  {
  }

  /**
   * addContentsEnd: the stream, then one contents-end marker with the last
   * chunk's tag and a frame time one past the last chunk's (int32 addition).
   * On an empty stream `src[len(src)-1]` is out of range and Go panics:
   * the result is None.
   */
  function AddContentsEnd(src: seq<Chunk>): (r: Option<seq<Chunk>>)
    ensures r.None? <==> src == []
    ensures r.Some? ==> |r.value| == |src| + 1 && r.value[..|src|] == src
    ensures r.Some? ==> var last := src[|src| - 1];
      r.value[|src|] == ContentsEndChunk(last.header.id).(payloadHeader :=
        ContentsEndChunk(last.header.id).payloadHeader.(frameTime := I32(last.payloadHeader.frameTime + 1)))
  {
    if |src| == 0 then None
    else
      var last := src[|src| - 1];
      var end := ContentsEndChunk(last.header.id);
      var end := end.(payloadHeader := end.payloadHeader.(frameTime := I32(last.payloadHeader.frameTime + 1)));
      assert (src + [end])[..|src|] == src;
      Some(src + [end])
  }

  /** The marker goes after the last chunk: a stream sorted by frame time stays sorted, unless the time wraps. */
  lemma AddContentsEndSorted(src: seq<Chunk>)
    requires |src| >= 1 && SortedBy(src, VideoKey)
    requires src[|src| - 1].payloadHeader.frameTime < TwoTo31 - 1
    ensures AddContentsEnd(src).Some? && SortedBy(AddContentsEnd(src).value, VideoKey)
    ensures AddContentsEnd(src).value[|src|].payloadHeader.frameTime > src[|src| - 1].payloadHeader.frameTime
  {
    var r := AddContentsEnd(src).value;
    forall i, j | 0 <= i < j < |r|
      ensures VideoKey(r[i]) <= VideoKey(r[j])
    {
      if j == |src| {
        assert r[i] == src[i];
        if i < |src| - 1 {
          assert VideoKey(src[i]) <= VideoKey(src[|src| - 1]);
        }
      } else {
        assert r[i] == src[i] && r[j] == src[j];
      }
    }
  }

  /** pop: the first chunk and the rest. */
  function Pop(src: seq<Chunk>): (r: (Chunk, seq<Chunk>))
    requires |src| >= 1
    ensures [r.0] + r.1 == src
    ensures r.0 == src[0] && r.1 == src[1..]
  {
    (src[0], src[1..])
  }
}
