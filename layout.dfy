/**
 * The file WriteTo (mess.go) lays out: the root chunk, the header run, the
 * metadata with a hole left for the video seek table, the first video
 * chunk and two audio chunks, then the rest of the three streams
 * interleaved by frame time; and, once every video offset is known, the
 * seek chunk written into the hole.
 */
module FileLayout {
  import opened Bytes
  import opened GoIo
  import opened ChunkLayout
  import opened TableTypes
  import opened Builder
  import opened StableSort
  import opened Remux
  import opened VideoSeek
  import opened UsmInfo

  predicate AllWritable(cs: seq<Chunk>) {
    forall i | 0 <= i < |cs| :: Writable(cs[i])
  }

  lemma AllWritableConcat(a: seq<Chunk>, b: seq<Chunk>)
    requires AllWritable(a) && AllWritable(b)
    ensures AllWritable(a + b)
  {
    forall i | 0 <= i < |a + b|
      ensures Writable((a + b)[i])
    {
      if i >= |a| {
        assert (a + b)[i] == b[i - |a|];
      }
    }
  }

  /** The bytes of `cs` written one after another; every chunk takes at least its two headers. */
  function ChunksBytes(cs: seq<Chunk>): (r: seq<byte>)
    requires AllWritable(cs)
    ensures |r| >= 32 * |cs|
    decreases |cs|
  {
    if |cs| == 0 then []
    else ChunksBytes(cs[..|cs| - 1]) + EncodeChunk(cs[|cs| - 1])
  }

  lemma AllWritablePrefix(cs: seq<Chunk>, k: nat)
    requires AllWritable(cs) && k <= |cs|
    ensures AllWritable(cs[..k])
  {
    forall i | 0 <= i < k
      ensures Writable(cs[..k][i])
    {
      assert cs[..k][i] == cs[i];
    }
  }

  lemma ChunksBytesThree(a: Chunk, b: Chunk, c: Chunk)
    requires Writable(a) && Writable(b) && Writable(c)
    ensures AllWritable([a, b, c])
    ensures ChunksBytes([a, b, c]) == EncodeChunk(a) + EncodeChunk(b) + EncodeChunk(c)
  {
    assert [a][..0] == [] && [a, b][..1] == [a] && [a, b, c][..2] == [a, b];
    assert ChunksBytes([a]) == EncodeChunk(a);
    assert ChunksBytes([a, b]) == EncodeChunk(a) + EncodeChunk(b);
  }

  lemma ChunksBytesAppend(cs: seq<Chunk>, c: Chunk)
    requires AllWritable(cs) && Writable(c)
    ensures AllWritable(cs + [c])
    ensures ChunksBytes(cs + [c]) == ChunksBytes(cs) + EncodeChunk(c)
  {
    assert (cs + [c])[..|cs|] == cs;
  }

  /** One more chunk of `cs` written. */
  lemma ChunksBytesStep(cs: seq<Chunk>, i: nat)
    requires i < |cs| && AllWritable(cs[..i]) && Writable(cs[i])
    ensures AllWritable(cs[..i + 1])
    ensures ChunksBytes(cs[..i + 1]) == ChunksBytes(cs[..i]) + EncodeChunk(cs[i])
  {
    assert cs[..i + 1] == cs[..i] + [cs[i]];
    ChunksBytesAppend(cs[..i], cs[i]);
  }

  // ---------------------------------------------------------------------
  // The opening run

  /** HDRInfo[customOrder[i]] for each i below the size of the header table. */
  function HeaderChunks(info: Info): (r: seq<Chunk>)
    ensures |r| == |info.hdrInfo|
  {
    seq(|info.hdrInfo|, i => Get(info.hdrInfo, CustomOrder(i)))
  }

  function HeaderEnds(n: nat): (r: seq<Chunk>)
    ensures |r| == n && AllWritable(r)
  {
    var r := seq(n, i => HeaderEndChunk(CustomOrder(i)));
    assert AllWritable(r) by {
      forall i | 0 <= i < n
        ensures Writable(r[i])
      {
        EndChunksWritable(CustomOrder(i), 0);
      }
    }
    r
  }

  /** Metadata[customOrder[i]] for each i after the first, the video slot, below the size of the seek table. */
  function MetadataChunks(info: Info): (r: seq<Chunk>)
    ensures |r| == Max(|info.metadata| - 1, 0)
  {
    seq(Max(|info.metadata| - 1, 0), i => Get(info.metadata, CustomOrder(i + 1)))
  }

  function MetadataEnds(n: nat): (r: seq<Chunk>)
    ensures |r| == n && AllWritable(r)
  {
    var r := seq(n, i => MetadataEndChunk(CustomOrder(i)));
    assert AllWritable(r) by {
      forall i | 0 <= i < n
        ensures Writable(r[i])
      {
        EndChunksWritable(CustomOrder(i), 0);
      }
    }
    r
  }

  /** The chunks interleaved after the first video and the first two audio chunks. */
  function Interleaved(info: Info): seq<Chunk>
    requires |info.video| >= 1 && |info.audio| >= 2
  {
    info.video[1..] + info.audio[2..] + info.subtitles
  }

  /**
   * What WriteTo needs not to panic: every chunk it writes has its declared
   * payload, there is a video chunk and two audio chunks to pop, and the
   * sort's comparator never divides by a zero frame rate. The bound on the
   * number of chunks keeps the seek chunk's int32 size from wrapping.
   */
  predicate Ready(info: Info) {
    && Writable(info.crid)
    && AllWritable(HeaderChunks(info))
    && AllWritable(MetadataChunks(info))
    && |info.video| >= 1 && |info.audio| >= 2
    && AllWritable(info.video) && AllWritable(info.audio) && AllWritable(info.subtitles)
    && |info.video| + |info.audio| + |info.subtitles| < 0x1000_0000
    && (|Interleaved(info)| >= 2 ==>
          forall i | 0 <= i < |Interleaved(info)| :: Interleaved(info)[i].payloadHeader.frameRate != 0)
  }

  /** The slot reserved for the seek chunk: 12 bytes per 30 video chunks plus 144, rounded up to 16. */
  function Slot(info: Info): nat {
    ReserveSize(|info.video|)
  }

  /** The root chunk, the header chunk of each stream, and a header-end marker for each. */
  function Head(info: Info): (r: seq<byte>)
    requires Writable(info.crid) && AllWritable(HeaderChunks(info))
  {
    EncodeChunk(info.crid) + ChunksBytes(HeaderChunks(info)) + ChunksBytes(HeaderEnds(|info.hdrInfo|))
  }

  /** The seek tables: the video slot left as a hole, then the other streams' tables. */
  function MetadataRun(info: Info): (r: seq<byte>)
    requires AllWritable(MetadataChunks(info))
  {
    if |info.metadata| == 0 then [] else Zeros(Slot(info)) + ChunksBytes(MetadataChunks(info))
  }

  /** The seek tables after the first `i` entries of customOrder. */
  function MetadataRunPrefix(info: Info, i: nat): (r: seq<byte>)
    requires AllWritable(MetadataChunks(info)) && i <= |info.metadata|
  {
    AllWritablePrefix(MetadataChunks(info), Max(i - 1, 0));
    if i == 0 then [] else Zeros(Slot(info)) + ChunksBytes(MetadataChunks(info)[..i - 1])
  }

  /** The seek tables start with the slot... */
  lemma MetadataRunSlot(info: Info)
    requires AllWritable(MetadataChunks(info)) && 1 <= |info.metadata|
    ensures MetadataRunPrefix(info, 1) == Zeros(Slot(info))
  {
    var cs := MetadataChunks(info);
    assert ChunksBytes(cs[..0]) == [];
  }

  /** ...and grow by one table at each later entry of customOrder. */
  lemma MetadataRunStep(info: Info, i: nat)
    requires AllWritable(MetadataChunks(info)) && 1 <= i < |info.metadata|
    ensures MetadataChunks(info)[i - 1] == Get(info.metadata, CustomOrder(i))
    ensures Writable(MetadataChunks(info)[i - 1])
    ensures MetadataRunPrefix(info, i + 1) == MetadataRunPrefix(info, i) + EncodeChunk(MetadataChunks(info)[i - 1])
  {
    hide EncodeChunk, Zeros, ReserveSize;
    var cs := MetadataChunks(info);
    AllWritablePrefix(cs, i - 1);
    ChunksBytesStep(cs, i - 1);
    Assoc(Zeros(Slot(info)), ChunksBytes(cs[..i - 1]), EncodeChunk(cs[i - 1]));
  }

  lemma MetadataRunDone(info: Info)
    requires AllWritable(MetadataChunks(info))
    ensures MetadataRunPrefix(info, |info.metadata|) == MetadataRun(info)
  {
    var cs := MetadataChunks(info);
    assert cs[..|cs|] == cs;
  }

  function Opening(info: Info): (r: seq<byte>)
    requires Writable(info.crid) && AllWritable(HeaderChunks(info)) && AllWritable(MetadataChunks(info))
  {
    Head(info) + MetadataRun(info) + ChunksBytes(MetadataEnds(|info.metadata|))
  }

  /** Where the seek chunk goes: the slot, or offset 0 when there is no seek table to hold the slot. */
  function SeekPos(info: Info): nat
    requires Writable(info.crid) && AllWritable(HeaderChunks(info))
  {
    if |info.metadata| == 0 then 0 else |Head(info)|
  }

  /** The info once WriteTo has popped the first video chunk and the first two audio chunks. */
  function Popped(info: Info): Info
    requires |info.video| >= 1 && |info.audio| >= 2
  {
    info.(video := info.video[1..], audio := info.audio[2..])
  }

  function First(info: Info): (r: seq<Chunk>)
    requires |info.video| >= 1 && |info.audio| >= 2
  {
    [info.video[0], info.audio[0], info.audio[1]]
  }

  lemma FirstWritable(info: Info)
    requires |info.video| >= 1 && |info.audio| >= 2
    requires AllWritable(info.video) && AllWritable(info.audio)
    ensures AllWritable(First(info))
  {
    assert Writable(info.video[0]) && Writable(info.audio[0]) && Writable(info.audio[1]);
  }

  // ---------------------------------------------------------------------
  // The interleaved run

  /** The rest of the streams in the order WriteTo writes them: stable-sorted by getFrameSeconds. */
  function Rest(info: Info): (r: seq<Chunk>)
    requires |info.video| >= 1 && |info.audio| >= 2
    ensures |r| == |Interleaved(info)|
  {
    SortByKey(Interleaved(info), FrameKey)
  }

  /** A chunk as the interleaving loop writes it: an End marker with frame time 0, any other as it is. */
  function Emit(c: Chunk): (r: Chunk)
    ensures r.header == c.header && r.payload == c.payload
    ensures r.payloadHeader.paddingSize == c.payloadHeader.paddingSize
    ensures r.payloadHeader.payloadType == c.payloadHeader.payloadType
    ensures r.payloadHeader.frameTime == if c.payloadHeader.payloadType == PayloadTypeEnd then 0 else c.payloadHeader.frameTime
  {
    if c.payloadHeader.payloadType == PayloadTypeEnd then c.(payloadHeader := c.payloadHeader.(frameTime := 0))
    else c
  }

  function Emitted(cs: seq<Chunk>): (r: seq<Chunk>)
    ensures |r| == |cs|
    decreases |cs|
  {
    if |cs| == 0 then [] else Emitted(cs[..|cs| - 1]) + [Emit(cs[|cs| - 1])]
  }

  /** The loop emits each chunk in its place. */
  lemma {:induction false} EmittedAt(cs: seq<Chunk>, i: nat)
    requires i < |cs|
    ensures Emitted(cs)[i] == Emit(cs[i])
    decreases |cs|
  {
    var init := cs[..|cs| - 1];
    if i < |cs| - 1 {
      EmittedAt(init, i);
    }
  }

  lemma EmittedWritable(cs: seq<Chunk>)
    requires AllWritable(cs)
    ensures AllWritable(Emitted(cs))
  {
    forall i | 0 <= i < |cs|
      ensures Writable(Emitted(cs)[i])
    {
      EmittedAt(cs, i);
      assert Writable(cs[i]);
    }
  }

  /** The number of "@SFV" chunks in `cs`. */
  function CountSfv(cs: seq<Chunk>): (r: nat)
    ensures r <= |cs|
    decreases |cs|
  {
    if |cs| == 0 then 0 else CountSfv(cs[..|cs| - 1]) + if SameId(cs[|cs| - 1].header.id, SFV) then 1 else 0
  }

  /** Where each "@SFV" chunk of `cs` starts, when `cs` is written from `base` on. */
  function SfvOffsets(cs: seq<Chunk>, base: nat): (r: seq<nat>)
    requires AllWritable(cs)
    ensures |r| == CountSfv(cs)
    decreases |cs|
  {
    if |cs| == 0 then []
    else
      var init := cs[..|cs| - 1];
      SfvOffsets(init, base) + if SameId(cs[|cs| - 1].header.id, SFV) then [base + |ChunksBytes(init)|] else []
  }

  lemma EmittedAppend(cs: seq<Chunk>, c: Chunk)
    ensures Emitted(cs + [c]) == Emitted(cs) + [Emit(c)]
  {
    assert (cs + [c])[..|cs|] == cs;
  }

  lemma SfvOffsetsAppend(cs: seq<Chunk>, c: Chunk, base: nat)
    requires AllWritable(cs) && Writable(c)
    ensures AllWritable(cs + [c])
    ensures SfvOffsets(cs + [c], base) == SfvOffsets(cs, base) + if SameId(c.header.id, SFV) then [base + |ChunksBytes(cs)|] else []
  {
    hide EncodeChunk;
    assert (cs + [c])[..|cs|] == cs;
  }

  /** One more chunk of `cs` emitted. */
  lemma EmitStep(cs: seq<Chunk>, k: nat)
    requires k < |cs|
    ensures Emitted(cs[..k + 1]) == Emitted(cs[..k]) + [Emit(cs[k])]
  {
    assert cs[..k + 1] == cs[..k] + [cs[k]];
    EmittedAppend(cs[..k], cs[k]);
  }

  lemma RestWritable(info: Info)
    requires |info.video| >= 1 && |info.audio| >= 2
    requires AllWritable(info.video) && AllWritable(info.audio) && AllWritable(info.subtitles)
    ensures AllWritable(Interleaved(info)) && AllWritable(Rest(info)) && AllWritable(Emitted(Rest(info)))
  {
    AllWritableConcat(info.video[1..], info.audio[2..]);
    AllWritableConcat(info.video[1..] + info.audio[2..], info.subtitles);
    var s, r := Interleaved(info), Rest(info);
    forall i | 0 <= i < |r|
      ensures Writable(r[i])
    {
      assert r[i] in multiset(s);
      var j :| 0 <= j < |s| && s[j] == r[i];
    }
    EmittedWritable(r);
  }

  // ---------------------------------------------------------------------
  // The file

  function Prepend(x: nat, s: seq<nat>): (r: seq<nat>)
    ensures |r| == |s| + 1 && r[0] == x && r[1..] == s
  {
    [x] + s
  }

  datatype Layout = Layout(bytes: seq<byte>, seekPos: nat, offsets: seq<nat>)

  /**
   * The file before the seek chunk is written: the opening, the first
   * video and two audio chunks, the interleaved rest; the slot's position;
   * and the offset of every video chunk, the first one included.
   */
  function LayoutOf(info: Info): (l: Layout)
    requires Ready(info)
    ensures 1 <= |l.offsets| < 0x1000_0000
  {
    RestWritable(info);
    FirstWritable(info);
    var start := Opening(info);
    var mid := start + ChunksBytes(First(info));
    var emitted := Emitted(Rest(info));
    Layout(mid + ChunksBytes(emitted), SeekPos(info), Prepend(|start|, SfvOffsets(emitted, |mid|)))
  }

  /** The file WriteTo leaves: the seek chunk generated from the offsets, written at the slot's position. */
  function Output(info: Info): seq<byte>
    requires Ready(info)
  {
    var l := LayoutOf(info);
    Overwrite(l.bytes, l.seekPos, SeekChunkBytes(l.offsets))
  }

  // ---------------------------------------------------------------------
  // The slot and the seek chunk

  lemma {:induction false} CountSfvConcat(a: seq<Chunk>, b: seq<Chunk>)
    ensures CountSfv(a + b) == CountSfv(a) + CountSfv(b)
    decreases |b|
  {
    if |b| > 0 {
      var b' := b[..|b| - 1];
      assert (a + b)[..|a + b| - 1] == a + b';
      CountSfvConcat(a, b');
    } else {
      assert a + b == a;
    }
  }

  /** The count depends only on which chunks there are, not on their order. */
  lemma {:induction false} CountSfvPermutation(s: seq<Chunk>, t: seq<Chunk>)
    requires multiset(s) == multiset(t)
    ensures CountSfv(s) == CountSfv(t)
    decreases |s|
  {
    if |s| > 0 {
      var x := s[|s| - 1];
      var s' := s[..|s| - 1];
      assert s == s' + [x];
      assert x in multiset(t);
      var j :| 0 <= j < |t| && t[j] == x;
      var t' := t[..j] + t[j + 1..];
      assert t == t[..j] + [x] + t[j + 1..];
      assert multiset(t) == multiset(t[..j]) + multiset{x} + multiset(t[j + 1..]);
      assert multiset(s) == multiset(s') + multiset{x};
      assert multiset(t') == multiset(t[..j]) + multiset(t[j + 1..]);
      forall y ensures multiset(s')[y] == multiset(t')[y] {
        assert multiset(s)[y] == multiset(s')[y] + multiset{x}[y];
        assert multiset(t)[y] == multiset(t[..j])[y] + multiset{x}[y] + multiset(t[j + 1..])[y];
      }
      assert multiset(s') == multiset(t');
      CountSfvPermutation(s', t');
      CountSfvConcat(t[..j] + [x], t[j + 1..]);
      CountSfvConcat(t[..j], [x]);
      CountSfvConcat(t[..j], t[j + 1..]);
      assert [x][..0] == [];
    } else {
      assert |t| == |multiset(t)| == 0;
    }
  }

  /** Emitting changes frame times only, so the "@SFV" chunks stay the same. */
  lemma {:induction false} CountSfvEmitted(cs: seq<Chunk>)
    ensures CountSfv(Emitted(cs)) == CountSfv(cs)
    decreases |cs|
  {
    if |cs| > 0 {
      var e := Emitted(cs);
      assert e[..|e| - 1] == Emitted(cs[..|cs| - 1]);
      CountSfvEmitted(cs[..|cs| - 1]);
    }
  }

  /** A run of chunks that all carry `id`: every one counts when `id` is "@SFV", none otherwise. */
  lemma {:induction false} CountSfvTagged(s: seq<Chunk>, id: Id)
    requires forall c | c in s :: c.header.id == id
    ensures CountSfv(s) == if id == SFV then |s| else 0
    decreases |s|
  {
    if |s| > 0 {
      var s' := s[..|s| - 1];
      assert forall c | c in s' :: c in s;
      assert s[|s| - 1] in s;
      SameIdIsEqual(s[|s| - 1].header.id, SFV);
      CountSfvTagged(s', id);
    }
  }

  /** With each stream under its own tag, the interleaved run holds every video chunk but the first. */
  lemma RestSfv(info: Info)
    requires |info.video| >= 1 && |info.audio| >= 2 && StreamTags(info)
    ensures CountSfv(Emitted(Rest(info))) == |info.video| - 1
  {
    var v, a, t := info.video[1..], info.audio[2..], info.subtitles;
    assert forall c | c in v :: c in info.video;
    assert forall c | c in a :: c in info.audio;
    CountSfvTagged(v, SFV);
    CountSfvTagged(a, SFA);
    CountSfvTagged(t, SBT);
    CountSfvConcat(v, a);
    CountSfvConcat(v + a, t);
    CountSfvPermutation(Rest(info), Interleaved(info));
    CountSfvEmitted(Rest(info));
  }

  /** With each stream under its own tag, WriteTo records one offset per video chunk, the first one included. */
  lemma VideoOffsetsCount(info: Info)
    requires Ready(info) && StreamTags(info)
    ensures |LayoutOf(info).offsets| == |info.video|
  {
    RestSfv(info);
    RestWritable(info);
    hide EncodeChunk, ChunksBytes, Opening, First, Rest, Emitted;
  }

  /** What the file holds after the slot: the other seek tables, their end markers, then the streams. */
  function AfterSlot(info: Info): seq<byte>
    requires Ready(info)
  {
    RestWritable(info);
    FirstWritable(info);
    ChunksBytes(MetadataChunks(info)) + ChunksBytes(MetadataEnds(|info.metadata|))
      + ChunksBytes(First(info)) + ChunksBytes(Emitted(Rest(info)))
  }

  /** The file before the seek chunk: the header run, the zero slot, then the rest; the seek chunk goes at the slot. */
  lemma LayoutAroundSlot(info: Info)
    requires Ready(info) && |info.metadata| >= 1
    ensures LayoutOf(info).bytes == Head(info) + Zeros(Slot(info)) + AfterSlot(info)
    ensures LayoutOf(info).seekPos == |Head(info)|
  {
    RestWritable(info);
    FirstWritable(info);
    var h, z := Head(info), Zeros(Slot(info));
    var m, e := ChunksBytes(MetadataChunks(info)), ChunksBytes(MetadataEnds(|info.metadata|));
    var f, r := ChunksBytes(First(info)), ChunksBytes(Emitted(Rest(info)));
    hide EncodeChunk, ChunksBytes, Head, Zeros, First, Rest, Emitted, MetadataChunks, MetadataEnds, ReserveSize;
    assert MetadataRun(info) == z + m;
    assert Opening(info) == h + MetadataRun(info) + e;
    assert LayoutOf(info).bytes == Opening(info) + f + r;
    assert AfterSlot(info) == m + e + f + r;
    Regroup(h, z, m, e, f, r);
  }

  lemma Regroup(h: seq<byte>, z: seq<byte>, m: seq<byte>, e: seq<byte>, f: seq<byte>, r: seq<byte>)
    ensures h + (z + m) + e + f + r == h + z + (m + e + f + r)
  {
  }

  /**
   * The seek chunk WriteTo writes last fills the hole the metadata loop
   * left, exactly: the hole is zeros of the slot's size, and the file
   * around it is unchanged.
   */
  lemma SeekChunkFillsSlot(info: Info)
    requires Ready(info) && StreamTags(info) && |info.metadata| >= 1
    ensures var l := LayoutOf(info);
      && l.seekPos + Slot(info) <= |l.bytes|
      && l.bytes[l.seekPos..l.seekPos + Slot(info)] == Zeros(Slot(info))
      && Output(info) == l.bytes[..l.seekPos] + SeekChunkBytes(l.offsets) + l.bytes[l.seekPos + Slot(info)..]
  {
    VideoOffsetsCount(info);
    LayoutAroundSlot(info);
    var l := LayoutOf(info);
    var x := AfterSlot(info);
    hide *;
    OverwriteHole(Head(info), Zeros(Slot(info)), x, SeekChunkBytes(l.offsets));
  }

  /** Writing `w` over a hole of its own size leaves what is around the hole. */
  lemma OverwriteHole(h: seq<byte>, z: seq<byte>, x: seq<byte>, w: seq<byte>)
    requires |w| == |z|
    ensures var d := h + z + x;
      && d[..|h|] == h && d[|h|..|h| + |z|] == z && d[|h| + |z|..] == x
      && Overwrite(d, |h|, w) == h + w + x
  {
  }
}
