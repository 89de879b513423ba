/**
 * The read loop that ParseFile (mess.go) and GetSubs (subs.go) share:
 * ReadChunk again and again until it fails; io.EOF ends the stream
 * cleanly, any other error is handed back to the caller.
 */
module ChunkStream {
  import opened Bytes
  import opened GoIo
  import opened ChunkLayout
  import opened Parser

  /** The chunks read before the loop stopped, and the error it stopped with (None for a clean EOF). */
  datatype ChunkList = ChunkList(chunks: seq<Chunk>, err: Option<Error>)

  function ChunksFrom(data: seq<byte>, pos: nat, isFile: bool): (r: ChunkList)
    ensures r.err != Some(EOF)
    decreases |data| - pos
  {
    var c := ReadChunkSpec(data, pos, isFile);
    if c.err == Some(EOF) then ChunkList([], None)
    else if c.err.Some? then ChunkList([], c.err)
    else
      var rest := ChunksFrom(data, c.pos, isFile);
      ChunkList([c.chunk] + rest.chunks, rest.err)
  }

  /** Every chunk the loop hands on was read in full: its payload has the declared length. */
  lemma {:induction false} ChunksFromDeclared(data: seq<byte>, pos: nat, isFile: bool)
    ensures forall c | c in ChunksFrom(data, pos, isFile).chunks :: |c.payload| == DeclaredPayloadSize(c)
    decreases |data| - pos
  {
    var c := ReadChunkSpec(data, pos, isFile);
    if c.err.None? {
      ChunksFromDeclared(data, c.pos, isFile);
    }
  }

  /** The loop after one successful ReadChunk: that chunk, then whatever the rest of the stream gives. */
  lemma ChunksFromStep(data: seq<byte>, p: nat, isFile: bool)
    requires ReadChunkSpec(data, p, isFile).err.None?
    ensures var c := ReadChunkSpec(data, p, isFile);
      var tail := ChunksFrom(data, c.pos, isFile);
      ChunksFrom(data, p, isFile) == ChunkList([c.chunk] + tail.chunks, tail.err)
  {
  }
}
