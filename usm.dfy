/**
 * USMInfo (mess.go) as an object whose fields the remux operations update:
 * ParseFile builds one from a file, PrepareStreams sorts its streams in
 * place, WriteTo writes it out (popping its first video and audio chunks
 * on the way), and ReplaceAudio gives one the audio of another. Each is
 * specified by the functions of UsmInfo and FileLayout.
 */
module Usm {
  import opened Bytes
  import opened GoIo
  import opened ChunkLayout
  import opened TableTypes
  import opened Builder
  import opened Parser
  import opened ChunkStream
  import opened StableSort
  import opened Remux
  import opened VideoSeek
  import opened UsmInfo
  import opened FileLayout

  class USMInfo {
    var crid: Chunk
    var hdrInfo: map<Id, Chunk>
    var metadata: map<Id, Chunk>
    var audioStreams: seq<Chunk>
    var videoStreams: seq<Chunk>
    var subtitleStreams: seq<Chunk>

    function Value(): Info
      reads this
    {
      Info(crid, hdrInfo, metadata, audioStreams, videoStreams, subtitleStreams)
    }

    constructor (info: Info)
      ensures Value() == info
    {
      crid := info.crid;
      hdrInfo := info.hdrInfo;
      metadata := info.metadata;
      audioStreams := info.audio;
      videoStreams := info.video;
      subtitleStreams := info.subtitles;
    }

    /**
     * PrepareStreams: sorts video, audio and subtitles in place in turn and
     * closes each with a contents-end marker; an empty stream makes
     * addContentsEnd panic, and the panic is returned as the error.
     */
    method PrepareStreams() returns (self: USMInfo, err: Option<Error>)
      modifies this
      ensures self == this && Prepared(old(Value())) == PrepareResult(Value(), err)
    {
      hide SortByKey, AddContentsEnd;
      self := this;
      videoStreams := SortByKey(videoStreams, VideoKey);
      var video := AddContentsEnd(videoStreams);
      if video.None? {
        return self, Some(Panic);
      }
      videoStreams := video.value;
      audioStreams := SortByKey(audioStreams, AudioKey);
      var audio := AddContentsEnd(audioStreams);
      if audio.None? {
        return self, Some(Panic);
      }
      audioStreams := audio.value;
      subtitleStreams := SortByKey(subtitleStreams, SubtitleKey);
      var subtitles := AddContentsEnd(subtitleStreams);
      if subtitles.None? {
        return self, Some(Panic);
      }
      subtitleStreams := subtitles.value;
      err := None;
    }

    /** WriteTo's three pops: the first video chunk, then the first two audio chunks. */
    method PopFirst() returns (video: Chunk, audio0: Chunk, audio1: Chunk)
      requires |videoStreams| >= 1 && |audioStreams| >= 2
      modifies this
      ensures Value() == Popped(old(Value()))
      ensures [video, audio0, audio1] == First(old(Value()))
    {
      var popped := Pop(videoStreams);
      video := popped.0;
      var videoRest := popped.1;
      popped := Pop(audioStreams);
      audio0 := popped.0;
      popped := Pop(popped.1);
      audio1 := popped.0;
      videoStreams, audioStreams := videoRest, popped.1;
    }
  }

  // ---------------------------------------------------------------------
  // WriteTo, loop by loop. Until the seek chunk, every write lands at the
  // end of what is written (or of the hole left for the slot).

  /** WriteChunk where the cursor is at or past the end of what has been written. */
  method Append(c: Chunk, out: Sink) returns (n: nat)
    requires Writable(c) && |out.data| <= out.pos
    modifies out
    ensures |out.data| == out.pos == old(out.pos) + n
    ensures out.data == old(out.Contents()) + EncodeChunk(c)
    ensures old(|out.data|) == old(out.pos) ==> out.data == old(out.data) + EncodeChunk(c)
  {
    ghost var d, p := out.data, out.pos;
    n := WriteChunk(c, out);
    AppendAtEnd(d, p, EncodeChunk(c));
  }

  /** WriteTo's first loop: the header chunk of each stream, in customOrder. */
  method WriteHeaderChunks(info: Info, out: Sink) returns (n: nat)
    requires AllWritable(HeaderChunks(info)) && |out.data| == out.pos
    modifies out
    ensures |out.data| == out.pos == old(out.pos) + n
    ensures out.data == old(out.data) + ChunksBytes(HeaderChunks(info))
  {
    ghost var cs := HeaderChunks(info);
    ghost var d0 := out.data;
    hide EncodeChunk;
    n := 0;
    for i := 0 to |info.hdrInfo|
      invariant AllWritable(cs[..i])
      invariant |out.data| == out.pos == old(out.pos) + n
      invariant out.data == d0 + ChunksBytes(cs[..i])
    {
      assert cs[i] == Get(info.hdrInfo, CustomOrder(i)) && Writable(cs[i]);
      var w := Append(Get(info.hdrInfo, CustomOrder(i)), out);
      ChunksBytesStep(cs, i);
      Assoc(d0, ChunksBytes(cs[..i]), EncodeChunk(cs[i]));
      n := n + w;
    }
    assert cs[..|info.hdrInfo|] == cs;
  }

  /** WriteTo's second loop: a header-end marker for each of the `count` header chunks. */
  method WriteHeaderEnds(count: nat, out: Sink) returns (n: nat)
    requires |out.data| == out.pos
    modifies out
    ensures |out.data| == out.pos == old(out.pos) + n
    ensures out.data == old(out.data) + ChunksBytes(HeaderEnds(count))
  {
    ghost var cs := HeaderEnds(count);
    ghost var d0 := out.data;
    hide EncodeChunk;
    n := 0;
    for i := 0 to count
      invariant AllWritable(cs[..i])
      invariant |out.data| == out.pos == old(out.pos) + n
      invariant out.data == d0 + ChunksBytes(cs[..i])
    {
      assert cs[i] == HeaderEndChunk(CustomOrder(i));
      var w := Append(HeaderEndChunk(CustomOrder(i)), out);
      ChunksBytesStep(cs, i);
      Assoc(d0, ChunksBytes(cs[..i]), EncodeChunk(cs[i]));
      n := n + w;
    }
    assert cs[..count] == cs;
  }

  /**
   * WriteTo's third loop: the seek table of each stream in customOrder,
   * except that the video one is skipped, leaving a hole of the slot's
   * size whose position is returned.
   */
  method WriteMetadata(info: Info, out: Sink) returns (pos: nat, videoSeekPos: nat)
    requires AllWritable(MetadataChunks(info)) && |out.data| == out.pos
    modifies out
    ensures |out.data| <= out.pos == pos
    ensures |info.metadata| == 0 ==> |out.data| == out.pos
    ensures out.Contents() == old(out.data) + MetadataRun(info)
    ensures videoSeekPos == if |info.metadata| == 0 then 0 else old(out.pos)
  {
    ghost var cs := MetadataChunks(info);
    ghost var c0 := out.Contents();
    hide EncodeChunk, ChunksBytes, MetadataRun, MetadataChunks, ReserveSize, Zeros;
    pos := out.pos;
    var start := pos;
    videoSeekPos := 0;
    for i := 0 to |info.metadata|
      invariant |out.data| <= out.pos == pos
      invariant i == 0 ==> |out.data| == out.pos
      invariant out.Contents() == c0 + MetadataRunPrefix(info, i)
      invariant videoSeekPos == if i == 0 then 0 else start
    {
      var id := CustomOrder(i);
      if id == SFV {
        assert i == 0;
        MetadataRunSlot(info);
        videoSeekPos := pos;
        pos := out.SeekCurrent(ReserveSize(|info.video|));
        continue;
      }
      assert i != 0;
      MetadataRunStep(info, i);
      var w := Append(Get(info.metadata, id), out);
      Assoc(c0, MetadataRunPrefix(info, i), EncodeChunk(cs[i - 1]));
      pos := pos + w;
    }
    MetadataRunDone(info);
  }

  /**
   * WriteTo's fourth loop: a metadata-end marker for each of the `count`
   * seek tables. Only the first write can land past the end (after the
   * slot's hole), so it is taken before the rest of the loop.
   */
  method WriteMetadataEnds(count: nat, out: Sink) returns (n: nat)
    requires |out.data| <= out.pos
    requires count == 0 ==> |out.data| == out.pos
    modifies out
    ensures |out.data| == out.pos == old(out.pos) + n
    ensures out.data == old(out.Contents()) + ChunksBytes(MetadataEnds(count))
  {
    ghost var cs := MetadataEnds(count);
    ghost var c0 := out.Contents();
    if count == 0 {
      assert c0 == out.data;
      return 0;
    }
    assert cs[0] == MetadataEndChunk(CustomOrder(0)) && Writable(cs[0]);
    assert cs[..0] == [] && ChunksBytes(cs[..0]) == [];
    hide *;
    n := Append(MetadataEndChunk(CustomOrder(0)), out);
    assert out.data == c0 + EncodeChunk(cs[0]);
    ChunksBytesStep(cs, 0);
    assert ChunksBytes(cs[..1]) == EncodeChunk(cs[0]);
    var m := AppendMetadataEnds(count, c0, out);
    n := n + m;
  }

  /** The rest of WriteTo's fourth loop: markers 1 to `count` - 1, each at the end of what is written. */
  method AppendMetadataEnds(count: nat, ghost d0: seq<byte>, out: Sink) returns (n: nat)
    requires 1 <= count && |out.data| == out.pos
    requires AllWritable(MetadataEnds(count)[..1])
    requires out.data == d0 + ChunksBytes(MetadataEnds(count)[..1])
    modifies out
    ensures |out.data| == out.pos == old(out.pos) + n
    ensures out.data == d0 + ChunksBytes(MetadataEnds(count))
  {
    ghost var cs := MetadataEnds(count);
    hide EncodeChunk;
    n := 0;
    for i := 1 to count
      invariant AllWritable(cs[..i])
      invariant |out.data| == out.pos == old(out.pos) + n
      invariant out.data == d0 + ChunksBytes(cs[..i])
    {
      assert cs[i] == MetadataEndChunk(CustomOrder(i));
      var w := Append(MetadataEndChunk(CustomOrder(i)), out);
      ChunksBytesStep(cs, i);
      Assoc(d0, ChunksBytes(cs[..i]), EncodeChunk(cs[i]));
      n := n + w;
    }
    assert cs[..count] == cs;
  }

  /** WriteTo's header run: the root chunk, then the first two loops. */
  method WriteHead(info: Info, out: Sink) returns (pos: nat)
    requires Writable(info.crid) && AllWritable(HeaderChunks(info))
    requires out.data == [] && out.pos == 0
    modifies out
    ensures |out.data| == out.pos == pos
    ensures out.data == Head(info)
  {
    hide ChunksBytes, HeaderChunks, HeaderEnds, AllWritable;
    pos := Append(info.crid, out);
    assert out.data == EncodeChunk(info.crid);
    var n := WriteHeaderChunks(info, out);
    pos := pos + n;
    n := WriteHeaderEnds(|info.hdrInfo|, out);
    pos := pos + n;
  }

  /** The third and fourth loops of WriteTo. */
  method WriteSeekTables(info: Info, out: Sink) returns (pos: nat, videoSeekPos: nat)
    requires AllWritable(MetadataChunks(info)) && |out.data| == out.pos
    modifies out
    ensures |out.data| == out.pos == pos
    ensures out.data == old(out.data) + MetadataRun(info) + ChunksBytes(MetadataEnds(|info.metadata|))
    ensures videoSeekPos == if |info.metadata| == 0 then 0 else old(out.pos)
  {
    hide MetadataRun, ChunksBytes, EncodeChunk, MetadataEnds, MetadataChunks, Writable, AllWritable;
    pos, videoSeekPos := WriteMetadata(info, out);
    var n := WriteMetadataEnds(|info.metadata|, out);
    pos := pos + n;
  }

  /** WriteTo up to the streams: the header run, then the seek tables with the slot and their end markers. */
  method WriteOpening(info: Info, out: Sink) returns (pos: nat, videoSeekPos: nat)
    requires Writable(info.crid) && AllWritable(HeaderChunks(info)) && AllWritable(MetadataChunks(info))
    requires out.data == [] && out.pos == 0
    modifies out
    ensures |out.data| == out.pos == pos
    ensures out.data == Opening(info)
    ensures videoSeekPos == SeekPos(info)
  {
    hide Head, MetadataRun, ChunksBytes, EncodeChunk, MetadataEnds, HeaderChunks, MetadataChunks, HeaderEnds, Writable, AllWritable;
    pos := WriteHead(info, out);
    pos, videoSeekPos := WriteSeekTables(info, out);
  }

  /** The three chunks written one after the other, the offset of the first recorded. */
  method WriteFirstChunks(video: Chunk, audio0: Chunk, audio1: Chunk, out: Sink) returns (pos: nat, offsets: seq<nat>)
    requires Writable(video) && Writable(audio0) && Writable(audio1)
    requires |out.data| == out.pos
    modifies out
    ensures |out.data| == out.pos == pos
    ensures out.data == old(out.data) + ChunksBytes([video, audio0, audio1])
    ensures offsets == [old(out.pos)]
  {
    ghost var d0 := out.data;
    pos := out.pos;
    var n := Append(video, out);
    offsets := [pos];
    pos := pos + n;
    n := Append(audio0, out);
    pos := pos + n;
    n := Append(audio1, out);
    pos := pos + n;
    ChunksBytesThree(video, audio0, audio1);
    Assoc(d0, EncodeChunk(video), EncodeChunk(audio0));
    Assoc(d0, EncodeChunk(video) + EncodeChunk(audio0), EncodeChunk(audio1));
  }

  /**
   * One turn of WriteTo's last loop: an End marker gets frame time 0, the
   * position of an "@SFV" chunk is added to the offsets, then the chunk is
   * written.
   */
  method WriteEmit(c: Chunk, out: Sink, offsets: seq<nat>) returns (n: nat, offsets': seq<nat>)
    requires Writable(c) && |out.data| == out.pos
    modifies out
    ensures |out.data| == out.pos == old(out.pos) + n
    ensures out.data == old(out.data) + EncodeChunk(Emit(c))
    ensures offsets' == offsets + if SameId(c.header.id, SFV) then [old(out.pos)] else []
  {
    var e := c;
    if e.payloadHeader.payloadType == PayloadTypeEnd {
      e := e.(payloadHeader := e.payloadHeader.(frameTime := 0));
    }
    assert e == Emit(c) && Writable(e);
    offsets' := offsets;
    if SameId(e.header.id, SFV) {
      offsets' := offsets + [out.pos];
    }
    n := Append(e, out);
  }

  /** WriteTo's last loop: every chunk in turn, as WriteEmit writes it. */
  method WriteStreams(chunks: seq<Chunk>, out: Sink, pos0: nat, offsets0: seq<nat>) returns (pos: nat, offsets: seq<nat>)
    requires AllWritable(chunks) && |out.data| == out.pos == pos0
    modifies out
    ensures AllWritable(Emitted(chunks))
    ensures |out.data| == out.pos == pos
    ensures out.data == old(out.data) + ChunksBytes(Emitted(chunks))
    ensures offsets == offsets0 + SfvOffsets(Emitted(chunks), pos0)
  {
    ghost var d0 := out.data;
    ghost var written: seq<Chunk> := [];
    hide EncodeChunk;
    pos, offsets := pos0, offsets0;
    for k := 0 to |chunks|
      invariant written == Emitted(chunks[..k]) && AllWritable(written)
      invariant |out.data| == out.pos == pos
      invariant out.data == d0 + ChunksBytes(written)
      invariant offsets == offsets0 + SfvOffsets(written, pos0)
    {
      EmitStep(chunks, k);
      ghost var e := Emit(chunks[k]);
      SfvOffsetsAppend(written, e, pos0);
      ChunksBytesAppend(written, e);
      Assoc(offsets0, SfvOffsets(written, pos0), if SameId(e.header.id, SFV) then [pos] else []);
      Assoc(d0, ChunksBytes(written), EncodeChunk(e));
      var n;
      n, offsets := WriteEmit(chunks[k], out, offsets);
      written := written + [e];
      pos := pos + n;
    }
    assert chunks[..|chunks|] == chunks;
  }

  /**
   * WriteTo's writes, from the info as it was before the pops: the opening,
   * the popped video and audio chunks, then the interleaved rest.
   */
  method WriteBody(info: Info, video: Chunk, audio0: Chunk, audio1: Chunk, rest: seq<Chunk>, out: Sink)
    returns (videoSeekPos: nat, videoOffsets: seq<nat>)
    requires Ready(info) && [video, audio0, audio1] == First(info) && rest == Rest(info)
    requires out.data == [] && out.pos == 0
    modifies out
    ensures out.data == LayoutOf(info).bytes
    ensures videoSeekPos == LayoutOf(info).seekPos && videoOffsets == LayoutOf(info).offsets
  {
    FirstWritable(info);
    RestWritable(info);
    var pos;
    pos, videoSeekPos := WriteOpening(info, out);
    pos, videoOffsets := WriteFirstChunks(video, audio0, audio1, out);
    pos, videoOffsets := WriteStreams(rest, out, pos, videoOffsets);
  }

  /** WriteTo's last step: the seek chunk of the offsets, written at the slot's position. */
  method WriteSeekChunk(videoOffsets: seq<nat>, videoSeekPos: nat, out: Sink)
    requires 1 <= |videoOffsets| < 0x1000_0000
    modifies out
    ensures out.data == Overwrite(old(out.data), videoSeekPos, SeekChunkBytes(videoOffsets))
  {
    var c := GenerateVideoSeek(videoOffsets);
    var _ := out.Seek(videoSeekPos);
    SeekChunkFits(videoOffsets);
    var _ := WriteChunk(c, out);
  }

  /**
   * WriteTo into a fresh file: the layout of FileLayout, then the seek
   * chunk of the recorded video offsets written at the slot. The first
   * video chunk and the first two audio chunks are popped off the streams;
   * the rest of the streams, interleaved, are read after the pops.
   */
  method WriteTo(s: USMInfo, out: Sink)
    requires Ready(s.Value()) && out.data == [] && out.pos == 0
    modifies s, out
    ensures s.Value() == Popped(old(s.Value()))
    ensures out.data == Output(old(s.Value()))
  {
    hide EncodeChunk, ChunksBytes, Opening, Head, MetadataRun, Emitted, SfvOffsets, SeekChunkBytes, First;
    var info := s.Value();
    var video, audio0, audio1 := s.PopFirst();
    assert s.videoStreams + s.audioStreams + s.subtitleStreams == Interleaved(info);
    var chunks := SortByKey(s.videoStreams + s.audioStreams + s.subtitleStreams, FrameKey);
    var videoSeekPos, videoOffsets := WriteBody(info, video, audio0, audio1, chunks, out);
    WriteSeekChunk(videoOffsets, videoSeekPos, out);
  }

  /**
   * ParseFile: reads chunks until the reader runs out, classifying each;
   * any read error other than io.EOF is returned instead of a result.
   */
  method ParseFile(src: Reader) returns (result: USMInfo?, err: Option<Error>)
    modifies src
    ensures err == ParseFrom(src.data, old(src.pos), src.isFile, EmptyInfo).err
    ensures err.None? <==> result != null
    ensures result != null ==> fresh(result) && result.Value() == ParseFrom(src.data, old(src.pos), src.isFile, EmptyInfo).info
  {
    var crid := ZeroChunk;
    var hdrInfo: map<Id, Chunk> := map[];
    var metadata: map<Id, Chunk> := map[];
    var audio: seq<Chunk> := [];
    var video: seq<Chunk> := [];
    var subtitles: seq<Chunk> := [];
    while true
      invariant ParseFrom(src.data, src.pos, src.isFile, Info(crid, hdrInfo, metadata, audio, video, subtitles))
        == ParseFrom(src.data, old(src.pos), src.isFile, EmptyInfo)
      decreases |src.data| - src.pos
    {
      ghost var p := src.pos;
      var c;
      c, err := ReadChunk(src);
      if err.Some? {
        if err == Some(EOF) {
          break;
        }
        return null, err;
      }
      ChunksFromStep(src.data, p, src.isFile);
      ghost var tail := ChunksFrom(src.data, src.pos, src.isFile).chunks;
      assert ([c] + tail)[1..] == tail;
      if c.header.id == CRID {
        crid := c;
        continue;
      }
      if c.payloadHeader.payloadType == PayloadTypeHeader {
        hdrInfo := hdrInfo[c.header.id := c];
        continue;
      }
      if c.payloadHeader.payloadType == PayloadTypeSeek {
        metadata := metadata[c.header.id := c];
        continue;
      }
      if c.payloadHeader.payloadType == PayloadTypeStream {
        if c.header.id == SFV {
          video := video + [c];
        } else if c.header.id == SFA {
          audio := audio + [c];
        } else if c.header.id == SBT {
          subtitles := subtitles + [c];
        }
        continue;
      }
    }
    result := new USMInfo(Info(crid, hdrInfo, metadata, audio, video, subtitles));
    err := None;
  }

  /** ReplaceAudio: in1 takes in2's "@SFA" header and seek entries and its audio stream; in1 is returned. */
  method ReplaceAudio(in1: USMInfo, in2: USMInfo) returns (r: USMInfo)
    modifies in1
    ensures r == in1 && in1.Value() == ReplacedAudio(old(in1.Value()), old(in2.Value()))
  {
    in1.hdrInfo := in1.hdrInfo[SFA := Get(in2.hdrInfo, SFA)];
    in1.metadata := in1.metadata[SFA := Get(in2.metadata, SFA)];
    in1.audioStreams := in2.audioStreams;
    r := in1;
  }
}
