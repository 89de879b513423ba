/**
 * Fixed-width integers, Go's integer conversions and the byte-order codecs
 * (encoding/binary's BigEndian and LittleEndian) that every layer of the
 * container format is built on.
 */
module Bytes {

  type byte = b: int | 0 <= b < 0x100
  type uint16 = x: int | 0 <= x < 0x1_0000
  type uint32 = x: int | 0 <= x < 0x1_0000_0000
  type int32 = x: int | -0x8000_0000 <= x < 0x8000_0000

  datatype Option<+T> = None | Some(value: T)

  function Pow256(n: nat): (r: nat)
    ensures r >= 1
  {
    if n == 0 then 1 else 256 * Pow256(n - 1)
  }

  /** The unsigned value of `s` read most significant byte first. */
  function BigEndian(s: seq<byte>): (r: nat)
    ensures r < Pow256(|s|)
  {
    if s == [] then 0
    else
      var high := BigEndian(s[..|s| - 1]);
      assert high * 256 <= (Pow256(|s| - 1) - 1) * 256;
      high * 256 + s[|s| - 1]
  }

  /** The `n`-byte big-endian form of `x` (binary.BigEndian.PutUintN). */
  function ToBigEndian(x: nat, n: nat): (r: seq<byte>)
    requires x < Pow256(n)
    ensures |r| == n
    ensures BigEndian(r) == x
  {
    if n == 0 then []
    else
      var r := ToBigEndian(x / 256, n - 1) + [x % 256];
      assert r[..n - 1] == ToBigEndian(x / 256, n - 1);
      r
  }

  lemma {:induction false} ToBigEndianOfBigEndian(s: seq<byte>)
    ensures ToBigEndian(BigEndian(s), |s|) == s
  {
    if s != [] {
      var n := |s|;
      var x := BigEndian(s);
      assert x / 256 == BigEndian(s[..n - 1]) && x % 256 == s[n - 1];
      ToBigEndianOfBigEndian(s[..n - 1]);
      assert s == s[..n - 1] + [s[n - 1]];
    }
  }

  /** Two byte strings of one width are equal exactly when their big-endian values are. */
  lemma BigEndianInjective(s: seq<byte>, t: seq<byte>)
    requires |s| == |t| && BigEndian(s) == BigEndian(t)
    ensures s == t
  {
    ToBigEndianOfBigEndian(s);
    ToBigEndianOfBigEndian(t);
  }

  /** The unsigned value of `s` read least significant byte first. */
  function LittleEndian(s: seq<byte>): (r: nat)
    ensures r < Pow256(|s|)
  {
    if s == [] then 0
    else
      var high := LittleEndian(s[1..]);
      assert 256 * high <= 256 * (Pow256(|s| - 1) - 1);
      s[0] + 256 * high
  }

  /** The `n`-byte little-endian form of `x` (binary.LittleEndian.PutUintN). */
  function ToLittleEndian(x: nat, n: nat): (r: seq<byte>)
    requires x < Pow256(n)
    ensures |r| == n
    ensures LittleEndian(r) == x
  {
    if n == 0 then []
    else
      var r := [x % 256] + ToLittleEndian(x / 256, n - 1);
      assert r[1..] == ToLittleEndian(x / 256, n - 1);
      r
  }

  lemma {:induction false} ToLittleEndianOfLittleEndian(s: seq<byte>)
    ensures ToLittleEndian(LittleEndian(s), |s|) == s
  {
    if s != [] {
      var x := LittleEndian(s);
      assert x / 256 == LittleEndian(s[1..]) && x % 256 == s[0];
      ToLittleEndianOfLittleEndian(s[1..]);
      assert s == [s[0]] + s[1..];
    }
  }

  const TwoTo16: int := 0x1_0000
  const TwoTo31: int := 0x8000_0000
  const TwoTo32: int := 0x1_0000_0000

  lemma Pow256Values()
    ensures Pow256(2) == TwoTo16 && Pow256(4) == TwoTo32 && Pow256(8) == 0x1_0000_0000_0000_0000
  {
    assert Pow256(1) == 256;
    assert Pow256(2) == 0x1_0000;
    assert Pow256(3) == 0x100_0000;
  }

  /** Go's uint16(x): the low 16 bits. */
  function U16(x: int): (r: uint16)
    ensures 0 <= x < TwoTo16 ==> r == x
  {
    if 0 <= x < TwoTo16 then x else x % TwoTo16
  }

  /** Go's uint32(x): the low 32 bits. */
  function U32(x: int): (r: uint32)
    ensures 0 <= x < TwoTo32 ==> r == x
  {
    if 0 <= x < TwoTo32 then x else x % TwoTo32
  }

  /** Go's int32(x): the low 32 bits read as two's complement. */
  function I32(x: int): (r: int32)
    ensures -TwoTo31 <= x < TwoTo31 ==> r == x
    ensures TwoTo31 <= x < TwoTo32 ==> r == x - TwoTo32
  {
    if -TwoTo31 <= x < TwoTo31 then x
    else
      var low := x % TwoTo32;
      if low < TwoTo31 then low else low - TwoTo32
  }

  /** Go's `/` on integers: the quotient truncated toward zero. */
  function GoDiv(a: int, b: int): (q: int)
    requires b != 0
    ensures q * b + GoRem(a, b) == a
    ensures a >= 0 && b > 0 ==> q == a / b
  {
    var m := (if a < 0 then -a else a) / (if b < 0 then -b else b);
    if (a < 0) != (b < 0) then -m else m
  }

  /** Go's `%`: the remainder takes the sign of the dividend. */
  function GoRem(a: int, b: int): int
    requires b != 0
  {
    var m := (if a < 0 then -a else a) % (if b < 0 then -b else b);
    if a < 0 then -m else m
  }

  /** The four big-endian bytes of an int32 as binary.Write emits them. */
  function Int32Bytes(x: int32): (r: seq<byte>)
    ensures |r| == 4 && I32(BigEndian(r)) == x
  {
    Pow256Values();
    ToBigEndian(U32(x), 4)
  }

  /** Four bytes read as an int32 and written back are unchanged. */
  lemma Int32BytesOfBigEndian(w: seq<byte>)
    requires |w| == 4
    ensures Int32Bytes(I32(BigEndian(w))) == w
  {
    Pow256Values();
    ToBigEndianOfBigEndian(w);
    assert U32(I32(BigEndian(w))) == BigEndian(w);
  }

  /** A slice of a slice, seen in the enclosing sequence. */
  lemma SubSlice(data: seq<byte>, p: nat, e: seq<byte>, i: nat, j: nat)
    requires p + |e| <= |data| && data[p..p + |e|] == e && i <= j <= |e|
    ensures data[p + i..p + j] == e[i..j]
  {
    forall k | 0 <= k < j - i
      ensures data[p + i..p + j][k] == e[i..j][k]
    {
      assert data[p..p + |e|][i + k] == data[p + i + k];
    }
  }

  function Zeros(n: nat): (r: seq<byte>)
    ensures |r| == n && forall i | 0 <= i < n :: r[i] == 0
  {
    if n == 0 then [] else [0] + Zeros(n - 1)
  }

  /** Concatenation regroups freely; stated once so that large terms need not be unfolded to see it. */
  lemma Assoc<T>(x: seq<T>, y: seq<T>, z: seq<T>)
    ensures x + y + z == x + (y + z)
  {
  }

  lemma AppendEmpty<T>(x: seq<T>)
    ensures [] + x == x && x + [] == x
  {
  }
}
