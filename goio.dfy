/**
 * The parts of Go's io behaviour the codec relies on: a reader over a byte
 * sequence with a cursor (bytes.Reader, or an os.File opened for reading)
 * and a seekable writer (the output os.File). Each method is specified by a
 * pure function of the byte sequence and the cursor, which the codec's own
 * specifications are written in.
 */
module GoIo {
  import opened Bytes

  /** io.EOF, io.ErrUnexpectedEOF, and a Go runtime panic. */
  datatype Error = EOF | UnexpectedEOF | Panic

  function Max(a: int, b: int): int {
    if a < b then b else a
  }

  datatype ReadResult = ReadResult(buf: seq<byte>, count: nat, pos: nat, err: Option<Error>)

  /**
   * io.Reader.Read into a fresh `n`-byte buffer: the bytes that are there
   * are copied and the rest of the buffer stays zero. At or past the end a
   * bytes.Reader reports EOF even for an empty buffer, an os.File only for
   * a non-empty one.
   */
  function ReadSpec(data: seq<byte>, pos: nat, n: nat, isFile: bool): (r: ReadResult)
    ensures |r.buf| == n && r.count <= n && r.pos == pos + r.count && r.pos <= Max(pos, |data|)
    ensures r.err.Some? <==> pos >= |data| && (n > 0 || !isFile)
  {
    if pos >= |data| then ReadResult(Zeros(n), 0, pos, if n > 0 || !isFile then Some(EOF) else None)
    else if pos + n <= |data| then ReadResult(data[pos..pos + n], n, pos + n, None)
    else ReadResult(data[pos..] + Zeros(pos + n - |data|), |data| - pos, |data|, None)
  }

  /** io.ReadFull as binary.Read uses it: EOF if nothing was read, ErrUnexpectedEOF if only part was. */
  function ReadFullSpec(data: seq<byte>, pos: nat, n: nat): (r: ReadResult)
    ensures |r.buf| == n && r.pos == pos + r.count && r.pos <= Max(pos, |data|)
    ensures r.err.None? <==> r.count == n
    ensures r.err.None? <==> n == 0 || pos + n <= |data|
  {
    if n == 0 then ReadResult([], 0, pos, None)
    else if pos + n <= |data| then ReadResult(data[pos..pos + n], n, pos + n, None)
    else if pos < |data| then ReadResult(data[pos..] + Zeros(pos + n - |data|), |data| - pos, |data|, Some(UnexpectedEOF))
    else ReadResult(Zeros(n), 0, pos, Some(EOF))
  }

  /** bytes.Reader.ReadByte. */
  function ReadByteSpec(data: seq<byte>, pos: nat): (r: ReadResult)
    ensures |r.buf| == 1
    ensures r.err.None? <==> pos < |data|
  {
    if pos < |data| then ReadResult([data[pos]], 1, pos + 1, None)
    else ReadResult([0], 0, pos, Some(EOF))
  }

  /** bytes.Reader.ReadAt: the cursor does not move; EOF when `off` is at or past the end or the read is short. */
  function ReadAtSpec(data: seq<byte>, off: nat, n: nat): (r: ReadResult)
    ensures |r.buf| == n
    ensures r.err.None? <==> off < |data| && off + n <= |data|
  {
    if off >= |data| then ReadResult(Zeros(n), 0, off, Some(EOF))
    else if off + n <= |data| then ReadResult(data[off..off + n], n, off, None)
    else ReadResult(data[off..] + Zeros(off + n - |data|), |data| - off, off, Some(EOF))
  }

  /** A read of `w`'s length where `w` is: `w` comes back; only an empty read at the end of a bytes.Reader fails. */
  lemma ReadPresent(data: seq<byte>, pos: nat, w: seq<byte>, isFile: bool)
    requires pos + |w| <= |data| && data[pos..pos + |w|] == w
    ensures var r := ReadSpec(data, pos, |w|, isFile);
      r.buf == w && r.count == |w| && r.pos == pos + |w|
      && (r.err.None? <==> isFile || |w| > 0 || pos < |data|)
  {
    if pos >= |data| {
      assert w == [];
    }
  }

  lemma ReadFullPresent(data: seq<byte>, pos: nat, w: seq<byte>)
    requires pos + |w| <= |data| && data[pos..pos + |w|] == w
    ensures ReadFullSpec(data, pos, |w|) == ReadResult(w, |w|, pos + |w|, None)
  {
  }

  lemma ReadAtPresent(data: seq<byte>, off: nat, w: seq<byte>)
    requires off + |w| <= |data| && data[off..off + |w|] == w && off < |data|
    ensures ReadAtSpec(data, off, |w|) == ReadResult(w, |w|, off, None)
  {
  }

  /** A reader with a cursor over fixed contents. */
  class Reader {
    const data: seq<byte>
    const isFile: bool
    var pos: nat

    constructor (data: seq<byte>, isFile: bool)
      ensures this.data == data && this.isFile == isFile && pos == 0
    {
      this.data := data;
      this.isFile := isFile;
      pos := 0;
    }

    method Read(n: nat) returns (buf: seq<byte>, count: nat, err: Option<Error>)
      modifies this
      ensures ReadResult(buf, count, pos, err) == ReadSpec(data, old(pos), n, isFile)
    {
      var r := ReadSpec(data, pos, n, isFile);
      buf, count, err := r.buf, r.count, r.err;
      pos := r.pos;
    }

    method ReadFull(n: nat) returns (buf: seq<byte>, err: Option<Error>)
      modifies this
      ensures var r := ReadFullSpec(data, old(pos), n); buf == r.buf && err == r.err && pos == r.pos
    {
      var r := ReadFullSpec(data, pos, n);
      buf, err := r.buf, r.err;
      pos := r.pos;
    }

    method ReadByte() returns (b: byte, err: Option<Error>)
      modifies this
      ensures var r := ReadByteSpec(data, old(pos)); b == r.buf[0] && err == r.err && pos == r.pos
    {
      var r := ReadByteSpec(data, pos);
      b, err := r.buf[0], r.err;
      pos := r.pos;
    }

    /** Seek relative to the start; bytes.Reader accepts any non-negative offset. */
    method Seek(off: nat)
      modifies this
      ensures pos == off
    {
      pos := off;
    }

    method ReadAt(n: nat, off: nat) returns (buf: seq<byte>, err: Option<Error>)
      ensures var r := ReadAtSpec(data, off, n); buf == r.buf && err == r.err
    {
      var r := ReadAtSpec(data, off, n);
      buf, err := r.buf, r.err;
    }
  }

  /**
   * The contents after writing `w` at position `p`: bytes in the way are
   * overwritten, the file grows as needed, and a gap left by seeking past
   * the end reads as zeros.
   */
  function Overwrite(d: seq<byte>, p: nat, w: seq<byte>): (r: seq<byte>)
    ensures |r| == Max(|d|, p + |w|)
  {
    var front := if p <= |d| then d[..p] else d + Zeros(p - |d|);
    var back := if p + |w| < |d| then d[p + |w|..] else [];
    front + w + back
  }

  /** Byte by byte: `w` where it was written, the old contents elsewhere, zeros in a gap. */
  lemma OverwriteAt(d: seq<byte>, p: nat, w: seq<byte>)
    ensures var r := Overwrite(d, p, w);
      forall i | 0 <= i < |r| ::
        r[i] == if p <= i < p + |w| then w[i - p] else if i < |d| then d[i] else 0
  {
    var r := Overwrite(d, p, w);
    var front := if p <= |d| then d[..p] else d + Zeros(p - |d|);
    forall i | 0 <= i < |r|
      ensures r[i] == if p <= i < p + |w| then w[i - p] else if i < |d| then d[i] else 0
    {
      if i < p {
        assert r[i] == front[i];
      }
    }
  }

  /** The contents as a reader would see them once the gap up to `p` is filled. */
  function PaddedTo(d: seq<byte>, p: nat): (r: seq<byte>)
    ensures |r| == Max(|d|, p)
  {
    if p <= |d| then d else d + Zeros(p - |d|)
  }

  /** Writing at or past the end appends to the zero-filled contents. */
  lemma OverwriteAtEnd(d: seq<byte>, p: nat, w: seq<byte>)
    requires |d| <= p
    ensures Overwrite(d, p, w) == PaddedTo(d, p) + w
  {
  }

  /** A write at the cursor, with nothing written beyond it, adds its bytes to what a reader sees. */
  lemma AppendAtEnd(d: seq<byte>, p: nat, w: seq<byte>)
    requires |d| <= p
    ensures |Overwrite(d, p, w)| == p + |w|
    ensures PaddedTo(Overwrite(d, p, w), p + |w|) == PaddedTo(d, p) + w
  {
    OverwriteAtEnd(d, p, w);
  }

  /** Moving the cursor further past the end adds that many zeros to what a reader sees. */
  lemma PaddedToFurther(d: seq<byte>, p: nat, k: nat)
    requires |d| <= p
    ensures PaddedTo(d, p + k) == PaddedTo(d, p) + Zeros(k)
  {
    var lhs := PaddedTo(d, p + k);
    var rhs := PaddedTo(d, p) + Zeros(k);
    assert |lhs| == |rhs|;
    forall i | 0 <= i < |lhs| ensures lhs[i] == rhs[i] {
      if i >= |d| {
        assert lhs[i] == Zeros(p + k - |d|)[i - |d|];
        if i < p {
          assert rhs[i] == Zeros(p - |d|)[i - |d|];
        }
      }
    }
  }

  /** Two consecutive writes are one write of their concatenation. */
  lemma OverwriteTwice(d: seq<byte>, p: nat, a: seq<byte>, b: seq<byte>)
    ensures Overwrite(Overwrite(d, p, a), p + |a|, b) == Overwrite(d, p, a + b)
  {
    var lhs := Overwrite(Overwrite(d, p, a), p + |a|, b);
    var rhs := Overwrite(d, p, a + b);
    OverwriteAt(d, p, a);
    OverwriteAt(Overwrite(d, p, a), p + |a|, b);
    OverwriteAt(d, p, a + b);
    assert |lhs| == |rhs|;
    forall i | 0 <= i < |lhs| ensures lhs[i] == rhs[i] {
      if p + |a| <= i < p + |a| + |b| {
        assert (a + b)[i - p] == b[i - p - |a|];
      } else if p <= i < p + |a| {
        assert (a + b)[i - p] == a[i - p];
      }
    }
  }

  /** The output file: contents and a write cursor that can be moved. */
  class Sink {
    var data: seq<byte>
    var pos: nat

    constructor ()
      ensures data == [] && pos == 0
    {
      data := [];
      pos := 0;
    }

    method Write(w: seq<byte>)
      modifies this
      ensures data == Overwrite(old(data), old(pos), w)
      ensures pos == old(pos) + |w|
    {
      data := Overwrite(data, pos, w);
      pos := pos + |w|;
    }

    /** What a reader of the file sees: the contents, zero-filled up to the cursor. */
    function Contents(): (r: seq<byte>)
      reads this
      ensures |r| == Max(|data|, pos)
      ensures |data| <= pos ==> r == PaddedTo(data, pos)
    {
      PaddedTo(data, pos)
    }

    /** Seek relative to the cursor (io.SeekCurrent); returns the new position. */
    method SeekCurrent(off: nat) returns (newPos: nat)
      modifies this
      ensures pos == old(pos) + off && newPos == pos && data == old(data)
      ensures |data| <= old(pos) ==> Contents() == old(Contents()) + Zeros(off)
    {
      if |data| <= pos {
        PaddedToFurther(data, pos, off);
      }
      pos := pos + off;
      newPos := pos;
    }

    /** Seek relative to the start (io.SeekStart); returns the new position. */
    method Seek(p: nat) returns (newPos: nat)
      modifies this
      ensures pos == p && newPos == p && data == old(data)
    {
      pos := p;
      newPos := p;
    }
  }
}
