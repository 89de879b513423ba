/**
 * The USMInfo aggregate of mess.go as a value, and what its three
 * reshaping operations do to it: ParseFile files each chunk of a file
 * under the root, a header or seek table, or one of the three streams;
 * PrepareStreams orders the streams and closes each with a contents-end
 * marker; ReplaceAudio takes another file's audio.
 */
module UsmInfo {
  import opened Bytes
  import opened GoIo
  import opened ChunkLayout
  import opened TableTypes
  import opened ChunkStream
  import opened StableSort
  import opened Remux

  /** The fields of USMInfo. */
  datatype Info = Info(
    crid: Chunk,
    hdrInfo: map<Id, Chunk>,
    metadata: map<Id, Chunk>,
    audio: seq<Chunk>,
    video: seq<Chunk>,
    subtitles: seq<Chunk>)

  /** The zero USMInfo with its two maps made: what ParseFile starts from. */
  const EmptyInfo := Info(ZeroChunk, map[], map[], [], [], [])

  /** Go's map index: a missing key reads as the zero chunk. */
  function Get(m: map<Id, Chunk>, id: Id): (c: Chunk)
    ensures id !in m ==> c == ZeroChunk
    ensures id in m ==> c == m[id]
  {
    if id in m then m[id] else ZeroChunk
  }

  // ---------------------------------------------------------------------
  // ParseFile

  /** Where ParseFile puts one chunk, in the order of its tests. */
  function Classify(info: Info, c: Chunk): Info {
    if c.header.id == CRID then info.(crid := c)
    else if c.payloadHeader.payloadType == PayloadTypeHeader then info.(hdrInfo := info.hdrInfo[c.header.id := c])
    else if c.payloadHeader.payloadType == PayloadTypeSeek then info.(metadata := info.metadata[c.header.id := c])
    else if c.payloadHeader.payloadType == PayloadTypeStream then
      if c.header.id == SFV then info.(video := info.video + [c])
      else if c.header.id == SFA then info.(audio := info.audio + [c])
      else if c.header.id == SBT then info.(subtitles := info.subtitles + [c])
      else info
    else info
  }

  /** The chunks `cs`, in order, each classified into `info`. */
  function ClassifyAll(info: Info, cs: seq<Chunk>): Info
    decreases |cs|
  {
    if |cs| == 0 then info else ClassifyAll(Classify(info, cs[0]), cs[1..])
  }

  datatype Parsed = Parsed(info: Info, err: Option<Error>)

  /** ParseFile from cursor `pos` with `info` gathered so far: every chunk read is classified, io.EOF ends cleanly. */
  function ParseFrom(data: seq<byte>, pos: nat, isFile: bool, info: Info): (r: Parsed)
    ensures r.err != Some(EOF)
  {
    var cl := ChunksFrom(data, pos, isFile);
    Parsed(ClassifyAll(info, cl.chunks), cl.err)
  }

  /** The chunks of `cs` ParseFile files under payload type `t` and tag `id`, in file order. */
  function Matching(cs: seq<Chunk>, t: byte, id: Id): (r: seq<Chunk>)
    ensures |r| <= |cs|
    ensures forall c | c in r :: c in cs && c.header.id == id && id != CRID && c.payloadHeader.payloadType == t
  {
    if |cs| == 0 then []
    else
      var head := if cs[0].header.id == id && id != CRID && cs[0].payloadHeader.payloadType == t then [cs[0]] else [];
      head + Matching(cs[1..], t, id)
  }

  /** The chunks of `cs` tagged "CRID", whatever their payload type. */
  function Roots(cs: seq<Chunk>): (r: seq<Chunk>)
    ensures forall c | c in r :: c in cs && c.header.id == CRID
  {
    if |cs| == 0 then []
    else (if cs[0].header.id == CRID then [cs[0]] else []) + Roots(cs[1..])
  }

  /** The last of `s`, or `d` when there is none. */
  function LastOr(s: seq<Chunk>, d: Chunk): Chunk {
    if |s| == 0 then d else s[|s| - 1]
  }

  lemma LastOrAppend(a: seq<Chunk>, b: seq<Chunk>, d: Chunk)
    ensures LastOr(a + b, d) == LastOr(b, LastOr(a, d))
  {
  }

  /** One chunk: the stream it belongs to grows by it, or the root becomes it. */
  lemma ClassifyStreamsStep(info: Info, c: Chunk)
    ensures var r := Classify(info, c);
      && r.video == info.video + Matching([c], PayloadTypeStream, SFV)
      && r.audio == info.audio + Matching([c], PayloadTypeStream, SFA)
      && r.subtitles == info.subtitles + Matching([c], PayloadTypeStream, SBT)
      && r.crid == LastOr(Roots([c]), info.crid)
  {
  }

  /**
   * The three streams are exactly the "@SFV", "@SFA" and "@SBT" chunks of
   * the Stream type, appended in file order, and the root is the last
   * "CRID" chunk; End chunks and chunks of any other tag are dropped.
   */
  lemma {:induction false} ClassifyAllStreams(info: Info, cs: seq<Chunk>)
    ensures var r := ClassifyAll(info, cs);
      && r.video == info.video + Matching(cs, PayloadTypeStream, SFV)
      && r.audio == info.audio + Matching(cs, PayloadTypeStream, SFA)
      && r.subtitles == info.subtitles + Matching(cs, PayloadTypeStream, SBT)
      && r.crid == LastOr(Roots(cs), info.crid)
    decreases |cs|
  {
    if cs != [] {
      var c, rest := cs[0], cs[1..];
      assert cs == [c] + rest;
      ClassifyStreamsStep(info, c);
      ClassifyAllStreams(Classify(info, c), rest);
      MatchingSplit([c], rest, PayloadTypeStream, SFV);
      MatchingSplit([c], rest, PayloadTypeStream, SFA);
      MatchingSplit([c], rest, PayloadTypeStream, SBT);
      RootsSplit([c], rest);
      LastOrAppend(Roots([c]), Roots(rest), info.crid);
      Assoc(info.video, Matching([c], PayloadTypeStream, SFV), Matching(rest, PayloadTypeStream, SFV));
      Assoc(info.audio, Matching([c], PayloadTypeStream, SFA), Matching(rest, PayloadTypeStream, SFA));
      Assoc(info.subtitles, Matching([c], PayloadTypeStream, SBT), Matching(rest, PayloadTypeStream, SBT));
    }
  }

  lemma MatchingSplit(a: seq<Chunk>, b: seq<Chunk>, t: byte, id: Id)
    requires |a| == 1
    ensures Matching(a + b, t, id) == Matching(a, t, id) + Matching(b, t, id)
  {
    assert (a + b)[1..] == b;
    assert Matching(a[1..], t, id) == [];
  }

  lemma RootsSplit(a: seq<Chunk>, b: seq<Chunk>)
    requires |a| == 1
    ensures Roots(a + b) == Roots(a) + Roots(b)
  {
    assert (a + b)[1..] == b;
    assert Roots(a[1..]) == [];
  }

  /** One chunk: the header entry it belongs to becomes it. */
  lemma ClassifyHeaderStep(info: Info, c: Chunk, id: Id)
    ensures var r := Classify(info, c);
      && (id in r.hdrInfo <==> id in info.hdrInfo || Matching([c], PayloadTypeHeader, id) != [])
      && Get(r.hdrInfo, id) == LastOr(Matching([c], PayloadTypeHeader, id), Get(info.hdrInfo, id))
  {
    var r := Classify(info, c);
    assert [c][1..] == [];
    var hs := Matching([c], PayloadTypeHeader, id);
    if c.header.id != CRID && c.payloadHeader.payloadType == PayloadTypeHeader {
      assert r.hdrInfo == info.hdrInfo[c.header.id := c];
      assert hs == if c.header.id == id then [c] else [];
    } else {
      assert r.hdrInfo == info.hdrInfo;
      assert hs == [];
    }
  }

  /** One chunk: the seek entry it belongs to becomes it. */
  lemma ClassifySeekStep(info: Info, c: Chunk, id: Id)
    ensures var r := Classify(info, c);
      && (id in r.metadata <==> id in info.metadata || Matching([c], PayloadTypeSeek, id) != [])
      && Get(r.metadata, id) == LastOr(Matching([c], PayloadTypeSeek, id), Get(info.metadata, id))
  {
    var r := Classify(info, c);
    assert [c][1..] == [];
    var ss := Matching([c], PayloadTypeSeek, id);
    if c.header.id != CRID && c.payloadHeader.payloadType == PayloadTypeSeek {
      assert r.metadata == info.metadata[c.header.id := c];
      assert ss == if c.header.id == id then [c] else [];
    } else {
      assert r.metadata == info.metadata;
      assert ss == [];
    }
  }

  /**
   * The header and seek tables: a tag has an entry when it had one before
   * or some chunk of that type carries it, and the entry is the last such
   * chunk (the last one wins).
   */
  lemma {:induction false} ClassifyAllTables(info: Info, cs: seq<Chunk>, id: Id)
    ensures var r := ClassifyAll(info, cs);
      var hs := Matching(cs, PayloadTypeHeader, id);
      var ss := Matching(cs, PayloadTypeSeek, id);
      && (id in r.hdrInfo <==> id in info.hdrInfo || hs != [])
      && Get(r.hdrInfo, id) == LastOr(hs, Get(info.hdrInfo, id))
      && (id in r.metadata <==> id in info.metadata || ss != [])
      && Get(r.metadata, id) == LastOr(ss, Get(info.metadata, id))
    decreases |cs|
  {
    if cs != [] {
      var c, rest := cs[0], cs[1..];
      assert cs == [c] + rest;
      ClassifyHeaderStep(info, c, id);
      ClassifySeekStep(info, c, id);
      ClassifyAllTables(Classify(info, c), rest, id);
      MatchingSplit([c], rest, PayloadTypeHeader, id);
      MatchingSplit([c], rest, PayloadTypeSeek, id);
      LastOrAppend(Matching([c], PayloadTypeHeader, id), Matching(rest, PayloadTypeHeader, id), Get(info.hdrInfo, id));
      LastOrAppend(Matching([c], PayloadTypeSeek, id), Matching(rest, PayloadTypeSeek, id), Get(info.metadata, id));
    }
  }

  // ---------------------------------------------------------------------
  // PrepareStreams

  /** What PrepareStreams leaves in the fields, and Go's panic if it stops early. */
  datatype PrepareResult = PrepareResult(info: Info, err: Option<Error>)

  /**
   * PrepareStreams: video, audio and subtitles in turn, each sorted (video
   * by frame time, audio HCA first, subtitles by frame time then first
   * byte) and closed by a contents-end marker. The first empty stream makes
   * addContentsEnd panic: the streams before it are closed, it and the ones
   * after it are as they were.
   */
  function Prepared(info: Info): (r: PrepareResult)
    ensures r.err.None? <==> |info.video| >= 1 && |info.audio| >= 1 && |info.subtitles| >= 1
    ensures r.err == None || r.err == Some(Panic)
    ensures r.info.crid == info.crid && r.info.hdrInfo == info.hdrInfo && r.info.metadata == info.metadata
    ensures r.err.None? ==>
      |r.info.video| == |info.video| + 1 && |r.info.audio| == |info.audio| + 1 && |r.info.subtitles| == |info.subtitles| + 1
    ensures r.err.Some? ==> r.info.subtitles == info.subtitles
    ensures info.video == [] ==> r.info == info
  {
    var video := AddContentsEnd(SortByKey(info.video, VideoKey));
    if video.None? then PrepareResult(info, Some(Panic))
    else
      var audio := AddContentsEnd(SortByKey(info.audio, AudioKey));
      if audio.None? then PrepareResult(info.(video := video.value), Some(Panic))
      else
        var subtitles := AddContentsEnd(SortByKey(info.subtitles, SubtitleKey));
        if subtitles.None? then PrepareResult(info.(video := video.value, audio := audio.value), Some(Panic))
        else PrepareResult(info.(video := video.value, audio := audio.value, subtitles := subtitles.value), None)
  }

  /** A contents-end marker closing a stream of `n` chunks: the tag and frame time one past the chunk before it. */
  predicate ClosedBy(s: seq<Chunk>, n: nat)
    requires |s| == n + 1 && n >= 1
  {
    var end := ContentsEndChunk(s[n - 1].header.id);
    s[n] == end.(payloadHeader := end.payloadHeader.(frameTime := I32(s[n - 1].payloadHeader.frameTime + 1)))
  }

  /** One stream sorted by `key` and closed: a permutation, ordered, stable, then the marker. */
  lemma SortedAndClosed(s: seq<Chunk>, key: Key)
    requires |s| >= 1
    ensures var r := AddContentsEnd(SortByKey(s, key));
      && r.Some? && |r.value| == |s| + 1 && r.value[..|s|] == SortByKey(s, key)
      && multiset(r.value[..|s|]) == multiset(s) && ClosedBy(r.value, |s|)
      && SortedBy(r.value[..|s|], key)
      && (forall k :: WithKey(r.value[..|s|], key, k) == WithKey(s, key, k))
  {
    SortByKeySorted(s, key);
    forall k
      ensures WithKey(SortByKey(s, key), key, k) == WithKey(s, key, k)
    {
      SortByKeyStable(s, key, k);
    }
  }

  /**
   * What PrepareStreams promises when it does not panic: each stream is a
   * permutation of what it was, followed by its marker; video is ordered by
   * frame time keeping the file order of equal times, subtitles by frame
   * time and first payload byte; audio, whose comparator is not an
   * ordering, only keeps its chunks.
   */
  lemma PreparedStreams(info: Info)
    ensures var r := Prepared(info);
      var v, a, s := |info.video|, |info.audio|, |info.subtitles|;
      r.err.None? ==>
      && multiset(r.info.video[..v]) == multiset(info.video) && ClosedBy(r.info.video, v)
      && SortedBy(r.info.video[..v], VideoKey)
      && (forall k :: WithKey(r.info.video[..v], VideoKey, k) == WithKey(info.video, VideoKey, k))
      && multiset(r.info.audio[..a]) == multiset(info.audio) && ClosedBy(r.info.audio, a)
      && multiset(r.info.subtitles[..s]) == multiset(info.subtitles) && ClosedBy(r.info.subtitles, s)
      && SortedBy(r.info.subtitles[..s], SubtitleKey)
  {
    if Prepared(info).err.None? {
      SortedAndClosed(info.video, VideoKey);
      SortedAndClosed(info.audio, AudioKey);
      SortedAndClosed(info.subtitles, SubtitleKey);
    }
  }

  /** The tags of a parsed file's streams: video "@SFV", audio "@SFA", subtitles "@SBT". */
  predicate StreamTags(info: Info) {
    && (forall c | c in info.video :: c.header.id == SFV)
    && (forall c | c in info.audio :: c.header.id == SFA)
    && (forall c | c in info.subtitles :: c.header.id == SBT)
  }

  /** Sorting and closing a stream whose chunks all carry `id` gives chunks that all carry `id`. */
  lemma ClosedKeepsTags(s: seq<Chunk>, key: Key, id: Id)
    requires forall c | c in s :: c.header.id == id
    ensures var r := AddContentsEnd(SortByKey(s, key));
      r.Some? ==> forall c | c in r.value :: c.header.id == id
  {
    var t := SortByKey(s, key);
    forall c | c in t
      ensures c.header.id == id
    {
      assert c in multiset(t);
    }
    var r := AddContentsEnd(t);
    if r.Some? {
      assert r.value == t + [r.value[|t|]];
    }
  }

  /** ParseFile gives each stream its own tag. */
  lemma ParsedTags(cs: seq<Chunk>)
    ensures StreamTags(ClassifyAll(EmptyInfo, cs))
  {
    ClassifyAllStreams(EmptyInfo, cs);
  }

  /** PrepareStreams keeps the tags, whether or not it panics: each marker takes the tag of the last chunk of its stream. */
  lemma PreparedTags(info: Info)
    requires StreamTags(info)
    ensures StreamTags(Prepared(info).info)
  {
    ClosedKeepsTags(info.video, VideoKey, SFV);
    ClosedKeepsTags(info.audio, AudioKey, SFA);
    ClosedKeepsTags(info.subtitles, SubtitleKey, SBT);
  }

  /**
   * A file without any "@SBT" Stream chunk: ParseFile gives an empty
   * subtitle stream, and PrepareStreams panics on it once video and audio
   * are closed.
   */
  lemma NoSubtitlesPanics(cs: seq<Chunk>)
    requires Matching(cs, PayloadTypeStream, SBT) == []
    ensures Prepared(ClassifyAll(EmptyInfo, cs)).err == Some(Panic)
  {
    ClassifyAllStreams(EmptyInfo, cs);
  }

  /** A stream sorted and closed, or left as it is when it has no chunk. */
  function CloseStream(s: seq<Chunk>, key: Key): (r: seq<Chunk>)
    ensures s == [] ==> r == []
    ensures s != [] ==> AddContentsEnd(SortByKey(s, key)) == Some(r)
  {
    match AddContentsEnd(SortByKey(s, key))
    case None => []
    case Some(t) => t
  }

  /** PrepareStreams without the panic: an empty stream gets no marker and stays empty. */
  function PreparedKeepingEmpty(info: Info): Info {
    info.(video := CloseStream(info.video, VideoKey),
          audio := CloseStream(info.audio, AudioKey),
          subtitles := CloseStream(info.subtitles, SubtitleKey))
  }

  /**
   * The corrected PrepareStreams never fails, agrees with PrepareStreams
   * whenever that does not panic, leaves an empty stream empty, sorts and
   * closes every other stream, and keeps the tags.
   */
  lemma PreparedKeepingEmptyStreams(info: Info)
    ensures var r := PreparedKeepingEmpty(info);
      var v, a, s := |info.video|, |info.audio|, |info.subtitles|;
      && (Prepared(info).err.None? ==> r == Prepared(info).info)
      && r.crid == info.crid && r.hdrInfo == info.hdrInfo && r.metadata == info.metadata
      && (v == 0 ==> r.video == []) && (a == 0 ==> r.audio == []) && (s == 0 ==> r.subtitles == [])
      && (v >= 1 ==>
            |r.video| == v + 1 && multiset(r.video[..v]) == multiset(info.video)
            && ClosedBy(r.video, v) && SortedBy(r.video[..v], VideoKey))
      && (a >= 1 ==> |r.audio| == a + 1 && multiset(r.audio[..a]) == multiset(info.audio) && ClosedBy(r.audio, a))
      && (s >= 1 ==>
            |r.subtitles| == s + 1 && multiset(r.subtitles[..s]) == multiset(info.subtitles)
            && ClosedBy(r.subtitles, s) && SortedBy(r.subtitles[..s], SubtitleKey))
      && (StreamTags(info) ==> StreamTags(r))
  {
    if |info.video| >= 1 {
      SortedAndClosed(info.video, VideoKey);
    }
    if |info.audio| >= 1 {
      SortedAndClosed(info.audio, AudioKey);
    }
    if |info.subtitles| >= 1 {
      SortedAndClosed(info.subtitles, SubtitleKey);
    }
    if StreamTags(info) {
      ClosedKeepsTags(info.video, VideoKey, SFV);
      ClosedKeepsTags(info.audio, AudioKey, SFA);
      ClosedKeepsTags(info.subtitles, SubtitleKey, SBT);
    }
  }

  // ---------------------------------------------------------------------
  // ReplaceAudio

  /**
   * `a` with the audio of `b`: its "@SFA" header and seek entries (the zero
   * chunk where `b` has none) and its audio stream; nothing else changes.
   */
  function ReplacedAudio(a: Info, b: Info): (r: Info)
    ensures r.crid == a.crid && r.video == a.video && r.subtitles == a.subtitles && r.audio == b.audio
    ensures SFA in r.hdrInfo && r.hdrInfo[SFA] == Get(b.hdrInfo, SFA)
    ensures SFA in r.metadata && r.metadata[SFA] == Get(b.metadata, SFA)
    ensures forall id | id != SFA :: (id in r.hdrInfo <==> id in a.hdrInfo) && Get(r.hdrInfo, id) == Get(a.hdrInfo, id)
    ensures forall id | id != SFA :: (id in r.metadata <==> id in a.metadata) && Get(r.metadata, id) == Get(a.metadata, id)
  {
    a.(hdrInfo := a.hdrInfo[SFA := Get(b.hdrInfo, SFA)],
       metadata := a.metadata[SFA := Get(b.metadata, SFA)],
       audio := b.audio)
  }
}
