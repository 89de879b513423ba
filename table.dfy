/**
 * The table codec as a whole: what compressDict (builder.go) writes,
 * BuildDict (main.go) reads back. The encoder only ever appends to its four
 * regions, so every intermediate state is a prefix of the finished table;
 * each entry's tag, key and value are then found in the finished regions
 * exactly where the decoder's cursors stand when it reaches that entry.
 */
module TableCodec {
  import opened Bytes
  import opened GoIo
  import opened ChunkLayout
  import opened TableTypes
  import opened UsmValue
  import opened Builder
  import opened Parser
  import opened Dict

  function Flex(r: Regions): FlexData {
    FlexData(r.shared, r.unique, r.strings, r.bytes)
  }

  predicate NoZero(s: seq<byte>) {
    forall i | 0 <= i < |s| :: s[i] != 0
  }

  /**
   * A value BuildDict can find again: a String value holds no zero byte
   * (ReadStringAt stops at the first one), and a Bytes value is not empty
   * (an empty one at the very end of the byte region makes ReadAt report
   * io.EOF).
   */
  predicate Recoverable(e: Entry) {
    (IsString(e.info) ==> NoZero(e.value)) && (IsBytes(e.info) ==> |e.value| > 0)
  }

  /** The entry BuildDict builds for an encoded one: no key, not recurring, the value cut to its type's width. */
  function Restored(e: Entry): Entry
    requires Encodable(e)
  {
    Entry([], e.info, false, if IsString(e.info) || IsBytes(e.info) then e.value else e.value[..e.info.size])
  }

  /** The regions after `j` entries of row `i`. */
  function At(name: seq<byte>, raw: seq<seq<Entry>>, i: nat, j: nat): Regions
    requires TableEncodable(raw) && i < |raw| && j <= |raw[i]|
  {
    EncodeRowPrefix(EncodeRows(name, raw, i), raw[i], j, i == 0)
  }

  /** Every intermediate state is a prefix of the finished table. */
  lemma WithinFinal(name: seq<byte>, raw: seq<seq<Entry>>, i: nat, j: nat)
    requires TableEncodable(raw) && i < |raw| && j <= |raw[i]|
    ensures Grows(At(name, raw, i, j), EncodeRows(name, raw, |raw|))
  {
    RowPrefixGrows(EncodeRows(name, raw, i), raw[i], j, |raw[i]|, i == 0);
    RowsGrow(name, raw, i + 1, |raw|);
    GrowsTrans(At(name, raw, i, j), EncodeRows(name, raw, i + 1), EncodeRows(name, raw, |raw|));
  }

  // ---------------------------------------------------------------------
  // One value

  /** Bytes `w` sit at `pos` of `data` when `pre + w` is a prefix of it. */
  lemma PrefixAt(pre: seq<byte>, w: seq<byte>, data: seq<byte>)
    requires pre + w <= data
    ensures |pre| + |w| <= |data| && data[|pre|..|pre| + |w|] == w
  {
    assert data[..|pre| + |w|] == pre + w;
    assert data[|pre|..|pre| + |w|] == (pre + w)[|pre|..];
  }

  /** The four offset bytes of an offset inside a region below 2^32 read back as that offset. */
  lemma Offset4Back(n: nat)
    requires n < TwoTo32
    ensures BigEndian(Offset4(n)) == n
  {
  }

  /** A catalog type is at least one byte wide. */
  lemma CatalogWide(info: ValueInfo)
    requires InCatalog(info)
    ensures info.size >= 1
  {
    CatalogWidths();
  }

  /**
   * Where the decoder finds a value's stored bytes: in the shared region for
   * a recurring value (written in row 0), in the unique region otherwise.
   */
  function Source(F: Regions, recurring: bool): seq<byte> {
    if recurring then F.shared else F.unique
  }

  /**
   * A String value: its offset, read from the region the tag selects,
   * leads to its text in the string region.
   */
  lemma StringReadBack(F: Regions, K: Regions, e: Entry, first: bool, tag: byte, sh: nat, un: nat)
    requires IsString(e.info) && GetValue(tag) == (e.info, !e.recurring) && NoZero(e.value)
    requires e.recurring ==> first && sh == |K.shared|
    requires !e.recurring ==> un == |K.unique|
    requires Grows(EncodeValue(K, e, first), F) && |F.strings| < TwoTo32
    ensures var v := EncodeValue(K, e, first);
      DecodeValueSpec(Flex(F), tag, sh, un)
        == ValueStep(e.value, if e.recurring then |v.shared| else sh, if e.recurring then un else |v.unique|, None)
  {
    var v := EncodeValue(K, e, first);
    var off := Offset4(|K.strings|);
    assert e.info == StringInfo;
    var pos := if e.recurring then sh else un;
    var pre := if e.recurring then K.shared else K.unique;
    assert pre + off <= Source(F, e.recurring);
    PrefixAt(pre, off, Source(F, e.recurring));
    ReadPresent(Source(F, e.recurring), pos, off, false);
    assert K.strings + StringToC(e.value) <= F.strings;
    var rest := F.strings[|K.strings| + |e.value| + 1..];
    assert F.strings == K.strings + StringToC(e.value) + rest;
    CStringAtOfStringToC(K.strings, e.value, rest);
    Offset4Back(|K.strings|);
  }

  /** The first read of BuildDict's value step: the tag's width from the region the tag selects. */
  lemma FirstRead(x: FlexData, tag: byte, sh: nat, un: nat, w: seq<byte>)
    requires var (info, isUnique) := GetValue(tag);
      var src := if isUnique then x.unique else x.shared;
      var pos := if isUnique then un else sh;
      |w| == info.size > 0 && pos + |w| <= |src| && src[pos..pos + |w|] == w
    ensures var (info, isUnique) := GetValue(tag);
      DecodeValueSpec(x, tag, sh, un)
        == ValueRest(x, info, isUnique, w, if isUnique then sh else sh + |w|, if isUnique then un + |w| else un)
  {
    hide ValueRest, BytesValueSpec, CStringAt;
    var (info, isUnique) := GetValue(tag);
    ReadPresent(if isUnique then x.unique else x.shared, if isUnique then un else sh, w, false);
  }

  /** The end offset and the blob of a Bytes value, once its start offset is read. */
  lemma BytesEndBack(x: FlexData, isUnique: bool, start: nat, sh: nat, un: nat, value: seq<byte>)
    requires |value| > 0 && start + |value| < TwoTo32
    requires start + |value| <= |x.bytes| && x.bytes[start..start + |value|] == value
    requires var src := if isUnique then x.unique else x.shared;
      var pos := if isUnique then un else sh;
      pos + 4 <= |src| && src[pos..pos + 4] == Offset4(start + |value|)
    ensures BytesValueSpec(x, isUnique, start, sh, un, 4)
      == ValueStep(value, if isUnique then sh else sh + 4, if isUnique then un + 4 else un, None)
  {
    var src := if isUnique then x.unique else x.shared;
    var pos := if isUnique then un else sh;
    ReadPresent(src, pos, Offset4(start + |value|), false);
    Offset4Back(start + |value|);
  }

  /** Where compressDict puts a Bytes value: its two offsets at the end of the region it is stored in, its blob in the byte region. */
  lemma BytesLayout(F: Regions, K: Regions, e: Entry, first: bool)
    requires IsBytes(e.info) && (e.recurring ==> first) && Grows(EncodeValue(K, e, first), F)
    ensures var v := EncodeValue(K, e, first);
      var pre := if e.recurring then K.shared else K.unique;
      var src := Source(F, e.recurring);
      && |pre| + 8 <= |src|
      && src[|pre|..|pre| + 4] == Offset4(|K.bytes|)
      && src[|pre| + 4..|pre| + 8] == Offset4(|K.bytes| + |e.value|)
      && (if e.recurring then |v.shared| else |v.unique|) == |pre| + 8
      && |K.bytes| + |e.value| <= |F.bytes| && F.bytes[|K.bytes|..|K.bytes| + |e.value|] == e.value
  {
    hide Offset4;
    var v := EncodeValue(K, e, first);
    var o1, o2 := Offset4(|K.bytes|), Offset4(|K.bytes| + |e.value|);
    assert !IsString(e.info);
    var pre := if e.recurring then K.shared else K.unique;
    var src := Source(F, e.recurring);
    assert v == Store(K.(bytes := K.bytes + e.value), o1 + o2, e.recurring, first);
    hide EncodeValue;
    assert pre + o1 + o2 <= src;
    assert K.bytes + e.value <= F.bytes;
    PrefixAt(pre, o1, src);
    PrefixAt(pre + o1, o2, src);
    PrefixAt(K.bytes, e.value, F.bytes);
  }

  /** BuildDict's value step on a Bytes tag whose two offsets and blob are in place. */
  lemma BytesDecode(x: FlexData, tag: byte, sh: nat, un: nat, b: nat, value: seq<byte>)
    requires IsBytes(GetValue(tag).0) && |value| > 0 && b + |value| <= |x.bytes| < TwoTo32
    requires x.bytes[b..b + |value|] == value
    requires var isUnique := GetValue(tag).1;
      var src := if isUnique then x.unique else x.shared;
      var pos := if isUnique then un else sh;
      pos + 8 <= |src| && src[pos..pos + 4] == Offset4(b) && src[pos + 4..pos + 8] == Offset4(b + |value|)
    ensures var isUnique := GetValue(tag).1;
      DecodeValueSpec(x, tag, sh, un)
        == ValueStep(value, if isUnique then sh else sh + 8, if isUnique then un + 8 else un, None)
  {
    var isUnique := GetValue(tag).1;
    assert GetValue(tag).0 == BytesInfo && !IsString(BytesInfo);
    FirstRead(x, tag, sh, un, Offset4(b));
    Offset4Back(b);
    BytesEndBack(x, isUnique, b, if isUnique then sh else sh + 4, if isUnique then un + 4 else un, value);
  }

  /**
   * A Bytes value: its start and end offsets, read from the region the tag
   * selects, delimit the blob in the byte region.
   */
  lemma BytesReadBack(F: Regions, K: Regions, e: Entry, first: bool, tag: byte, sh: nat, un: nat)
    requires IsBytes(e.info) && GetValue(tag) == (e.info, !e.recurring) && |e.value| > 0
    requires e.recurring ==> first && sh == |K.shared|
    requires !e.recurring ==> un == |K.unique|
    requires Grows(EncodeValue(K, e, first), F) && |F.bytes| < TwoTo32
    ensures var v := EncodeValue(K, e, first);
      DecodeValueSpec(Flex(F), tag, sh, un)
        == ValueStep(e.value, if e.recurring then |v.shared| else sh, if e.recurring then un else |v.unique|, None)
  {
    BytesLayout(F, K, e, first);
    hide EncodeValue;
    BytesDecode(Flex(F), tag, sh, un, |K.bytes|, e.value);
  }

  /** Any other value: its first Type.Size bytes, read from the region the tag selects. */
  lemma RawReadBack(F: Regions, K: Regions, e: Entry, first: bool, tag: byte, sh: nat, un: nat)
    requires !IsString(e.info) && !IsBytes(e.info) && Encodable(e) && InCatalog(e.info)
    requires GetValue(tag) == (e.info, !e.recurring)
    requires e.recurring ==> first && sh == |K.shared|
    requires !e.recurring ==> un == |K.unique|
    requires Grows(EncodeValue(K, e, first), F)
    ensures var v := EncodeValue(K, e, first);
      DecodeValueSpec(Flex(F), tag, sh, un)
        == ValueStep(e.value[..e.info.size], if e.recurring then |v.shared| else sh, if e.recurring then un else |v.unique|, None)
  {
    var w := e.value[..e.info.size];
    CatalogWide(e.info);
    var pos := if e.recurring then sh else un;
    var pre := if e.recurring then K.shared else K.unique;
    assert pre + w <= Source(F, e.recurring);
    PrefixAt(pre, w, Source(F, e.recurring));
    ReadPresent(Source(F, e.recurring), pos, w, false);
  }

  /**
   * Whatever its type, a value compressString, compressBytes or the raw
   * branch of compressDict stored is decoded by BuildDict's value step as
   * the restored value, and the cursor of the region it came from moves
   * past exactly the bytes stored.
   */
  lemma ValueReadBack(F: Regions, K: Regions, e: Entry, first: bool, tag: byte, sh: nat, un: nat)
    requires Encodable(e) && InCatalog(e.info) && Recoverable(e) && GetValue(tag) == (e.info, !e.recurring)
    requires e.recurring ==> first && sh == |K.shared|
    requires !e.recurring ==> un == |K.unique|
    requires Grows(EncodeValue(K, e, first), F) && |F.strings| < TwoTo32 && |F.bytes| < TwoTo32
    ensures var v := EncodeValue(K, e, first);
      DecodeValueSpec(Flex(F), tag, sh, un)
        == ValueStep(Restored(e).value, if e.recurring then |v.shared| else sh, if e.recurring then un else |v.unique|, None)
  {
    if IsString(e.info) {
      StringReadBack(F, K, e, first, tag, sh, un);
    } else if IsBytes(e.info) {
      BytesReadBack(F, K, e, first, tag, sh, un);
    } else {
      RawReadBack(F, K, e, first, tag, sh, un);
    }
  }

  // ---------------------------------------------------------------------
  // One item

  /**
   * The key part compressDict writes for each item of row 0 (tag byte and
   * key offset, 5 bytes of the shared region; the key text in the string
   * region) is read back by BuildDict's key step.
   */
  lemma KeyReadBack(F: Regions, A: Regions, e: Entry)
    requires InCatalog(e.info) && NoZero(e.key) && Grows(EncodeKey(A, e), F) && |F.strings| < TwoTo32
    ensures DecodeKeySpec(Flex(F), |A.shared|) == KeyStep(ToByte(e), e.key, |A.shared| + 5, None)
  {
    var tag := ToByte(e);
    var off := Offset4(|A.strings|);
    assert A.shared + [tag] + off <= F.shared;
    PrefixAt(A.shared + [tag], off, F.shared);
    PrefixAt(A.shared, [tag], F.shared);
    ReadPresent(F.shared, |A.shared| + 1, off, false);
    assert A.strings + StringToC(e.key) <= F.strings;
    var rest := F.strings[|A.strings| + |e.key| + 1..];
    assert F.strings == A.strings + StringToC(e.key) + rest;
    CStringAtOfStringToC(A.strings, e.key, rest);
    Offset4Back(|A.strings|);
  }

  /** All rows have row 0's length, and each entry row 0's type and recurrence (BuildDict reads the same tags for every row). */
  predicate Shaped(raw: seq<seq<Entry>>) {
    && |raw| >= 1
    && (forall i | 0 <= i < |raw| :: |raw[i]| == |raw[0]|)
    && (forall i, j | 0 <= i < |raw| && 0 <= j < |raw[i]| && j < |raw[0]| ::
          raw[i][j].info == raw[0][j].info && raw[i][j].recurring == raw[0][j].recurring)
  }

  /**
   * The tables whose rows BuildDict gets back: written by compressDict,
   * in one shape, with zero-free name, keys and String values, no empty
   * Bytes value, and every count and offset within its Go field.
   */
  predicate RoundTrippable(name: seq<byte>, raw: seq<seq<Entry>>) {
    && TableEncodable(raw)
    && Shaped(raw)
    && NoZero(name)
    && (forall j | 0 <= j < |raw[0]| :: NoZero(raw[0][j].key))
    && (forall i, j | 0 <= i < |raw| && 0 <= j < |raw[i]| :: Recoverable(raw[i][j]))
    && |raw[0]| < TwoTo16 && |raw| < TwoTo32
    && PayloadDataSize(CompressDictSpec(name, raw)) < TwoTo32
  }

  /** The finished regions are below 2^32 bytes each. */
  lemma FinalBounds(name: seq<byte>, raw: seq<seq<Entry>>)
    requires TableEncodable(raw) && PayloadDataSize(CompressDictSpec(name, raw)) < TwoTo32
    ensures var F := EncodeRows(name, raw, |raw|);
      FixedDataLen + |F.shared| + |F.unique| + |F.strings| + |F.bytes| < TwoTo32
  {
  }

  /**
   * What BuildDict gives for entry `j` of row `i`: row 0's entry when it
   * is recurring (its value was stored once), row i's own otherwise.
   */
  function Expected(raw: seq<seq<Entry>>, i: nat, j: nat): (r: Entry)
    requires TableEncodable(raw) && Shaped(raw) && i < |raw| && j < |raw[0]|
    ensures r == Decoded(raw[0][j].info, r.value)
  {
    assert raw[0][j] in raw[0] && raw[i][j] in raw[i];
    Restored(if raw[0][j].recurring then raw[0][j] else raw[i][j])
  }

  /** The value part of item `j` of row `i`. */
  lemma ItemValueReadBack(name: seq<byte>, raw: seq<seq<Entry>>, i: nat, j: nat)
    requires RoundTrippable(name, raw) && i < |raw| && j < |raw[0]|
    ensures var F := EncodeRows(name, raw, |raw|);
      var sh := |EncodeKey(At(name, raw, 0, j), raw[0][j]).shared|;
      InCatalog(raw[0][j].info) &&
      DecodeValueSpec(Flex(F), ToByte(raw[0][j]), sh, |At(name, raw, i, j).unique|)
        == ValueStep(Expected(raw, i, j).value, |At(name, raw, 0, j + 1).shared|, |At(name, raw, i, j + 1).unique|, None)
  {
    var F := EncodeRows(name, raw, |raw|);
    FinalBounds(name, raw);
    var e0, ei := raw[0][j], raw[i][j];
    assert e0 in raw[0] && ei in raw[i];
    assert Recoverable(ei) && Recoverable(e0);
    var tag := ToByte(e0);
    var A, A' := At(name, raw, 0, j), At(name, raw, 0, j + 1);
    var K0 := EncodeKey(A, e0);
    assert A' == EncodeValue(K0, e0, true);
    var B, B' := At(name, raw, i, j), At(name, raw, i, j + 1);
    var Ki := if i == 0 then EncodeKey(B, ei) else B;
    assert B' == EncodeValue(Ki, ei, i == 0);
    assert Ki.unique == B.unique;
    WithinFinal(name, raw, 0, j + 1);
    WithinFinal(name, raw, i, j + 1);
    hide EncodeRowPrefix, EncodeRows, At, EncodeKey;
    if e0.recurring {
      assert B'.unique == B.unique;
      ValueReadBack(F, K0, e0, true, tag, |K0.shared|, |B.unique|);
    } else {
      assert A'.shared == K0.shared;
      ValueReadBack(F, Ki, ei, i == 0, tag, |K0.shared|, |B.unique|);
    }
  }

  /** The key part of item `j`, at the shared cursor where row 0's item `j` starts. */
  lemma ItemKeyReadBack(name: seq<byte>, raw: seq<seq<Entry>>, j: nat)
    requires RoundTrippable(name, raw) && j < |raw[0]|
    ensures InCatalog(raw[0][j].info)
    ensures var A := At(name, raw, 0, j);
      DecodeKeySpec(Flex(EncodeRows(name, raw, |raw|)), |A.shared|)
        == KeyStep(ToByte(raw[0][j]), raw[0][j].key, |EncodeKey(A, raw[0][j]).shared|, None)
  {
    var F := EncodeRows(name, raw, |raw|);
    FinalBounds(name, raw);
    var e0 := raw[0][j];
    assert e0 in raw[0];
    var A, A' := At(name, raw, 0, j), At(name, raw, 0, j + 1);
    var K0 := EncodeKey(A, e0);
    assert A' == EncodeValue(K0, e0, true);
    EncodeValueGrows(K0, e0, true);
    WithinFinal(name, raw, 0, j + 1);
    hide EncodeRowPrefix, EncodeRows, At, EncodeValue, RoundTrippable, CompressDictSpec;
    GrowsTrans(K0, A', F);
    KeyReadBack(F, A, e0);
  }

  /**
   * Item `j` of row `i`: with the shared cursor where row 0's item `j`
   * starts and the unique cursor where row `i`'s does, BuildDict's item
   * step yields row 0's key and the expected entry, and both cursors stop
   * where the next item starts.
   */
  lemma ItemReadBack(name: seq<byte>, raw: seq<seq<Entry>>, i: nat, j: nat)
    requires RoundTrippable(name, raw) && i < |raw| && j < |raw[0]|
    ensures DecodeItemSpec(Flex(EncodeRows(name, raw, |raw|)), |At(name, raw, 0, j).shared|, |At(name, raw, i, j).unique|)
      == ItemStep(raw[0][j].key, Expected(raw, i, j), |At(name, raw, 0, j + 1).shared|, |At(name, raw, i, j + 1).unique|, None)
  {
    ItemKeyReadBack(name, raw, j);
    ItemValueReadBack(name, raw, i, j);
    hide EncodeRows, EncodeRowPrefix, At, EncodeKey, RoundTrippable, CompressDictSpec, DecodeKeySpec, DecodeValueSpec, Restored;
  }

  // ---------------------------------------------------------------------
  // Rows and the table

  /** The end of row `i` is where row `i + 1` starts. */
  lemma RowEnd(name: seq<byte>, raw: seq<seq<Entry>>, i: nat)
    requires TableEncodable(raw) && Shaped(raw) && i < |raw|
    ensures |raw[i]| == |raw[0]| && At(name, raw, i, |raw[0]|) == EncodeRows(name, raw, i + 1)
  {
  }

  /** The map BuildDict builds from the first `j` items of row `i`. */
  function RowMap(raw: seq<seq<Entry>>, i: nat, j: nat): map<seq<byte>, Entry>
    requires TableEncodable(raw) && Shaped(raw) && i < |raw| && j <= |raw[0]|
  {
    if j == 0 then map[] else RowMap(raw, i, j - 1)[raw[0][j - 1].key := Expected(raw, i, j - 1)]
  }

  /** One item of row `i` moves BuildDict's row loop from item `j` to item `j + 1`. */
  lemma RowStep(name: seq<byte>, raw: seq<seq<Entry>>, i: nat, j: nat)
    requires RoundTrippable(name, raw) && i < |raw| && j < |raw[0]|
    ensures RowFrom(name, raw, i, j) == RowFrom(name, raw, i, j + 1)
  {
    hide CompressDictSpec, EncodeRows, EncodeRowPrefix, At, DecodeItemSpec, Expected;
    assert TableEncodable(raw) && Shaped(raw);
    ItemReadBack(name, raw, i, j);
    var n := |raw[0]|;
    var x := Flex(EncodeRows(name, raw, |raw|));
    var sh, un := |At(name, raw, 0, j).shared|, |At(name, raw, i, j).unique|;
    assert RowMap(raw, i, j + 1) == RowMap(raw, i, j)[raw[0][j].key := Expected(raw, i, j)];
    assert RowFrom(name, raw, i, j) == ItemsFrom(x, sh, un, RowMap(raw, i, j), n - j);
    assert RowFrom(name, raw, i, j + 1)
      == ItemsFrom(x, |At(name, raw, 0, j + 1).shared|, |At(name, raw, i, j + 1).unique|, RowMap(raw, i, j + 1), n - (j + 1));
    hide RoundTrippable, TableEncodable, Shaped, RowMap, RowFrom;
    var it := DecodeItemSpec(x, sh, un);
    assert ItemsFrom(x, sh, un, RowMap(raw, i, j), n - j)
      == ItemsFrom(x, it.shared, it.unique, RowMap(raw, i, j)[it.key := it.entry], n - (j + 1));
  }

  lemma NoMoreItems(x: FlexData, sh: nat, un: nat, dict: map<seq<byte>, Entry>)
    ensures ItemsFrom(x, sh, un, dict, 0) == RowState(dict, sh, un, None)
  {
  }

  /** The row's end state, as RowReadBack states it. */
  function RowDone(name: seq<byte>, raw: seq<seq<Entry>>, i: nat): RowState
    requires TableEncodable(raw) && Shaped(raw) && i < |raw|
  {
    RowState(RowMap(raw, i, |raw[0]|), |At(name, raw, 0, |raw[0]|).shared|, |EncodeRows(name, raw, i + 1).unique|, None)
  }

  /** BuildDict's row loop from item `j` of row `i`. */
  function RowFrom(name: seq<byte>, raw: seq<seq<Entry>>, i: nat, j: nat): RowState
    requires TableEncodable(raw) && Shaped(raw) && i < |raw| && j <= |raw[0]|
  {
    ItemsFrom(Flex(EncodeRows(name, raw, |raw|)), |At(name, raw, 0, j).shared|, |At(name, raw, i, j).unique|, RowMap(raw, i, j), |raw[0]| - j)
  }

  /** The rest of row `i` from item `j` decodes to RowMap, ending where row `i + 1` starts in the unique region. */
  lemma {:induction false} RowReadBack(name: seq<byte>, raw: seq<seq<Entry>>, i: nat, j: nat)
    requires RoundTrippable(name, raw) && i < |raw| && j <= |raw[0]|
    ensures RowFrom(name, raw, i, j) == RowDone(name, raw, i)
    decreases |raw[0]| - j
  {
    hide *;
    if j < |raw[0]| {
      RowStep(name, raw, i, j);
      RowReadBack(name, raw, i, j + 1);
    } else {
      RowLast(name, raw, i);
    }
  }

  /** Past the last item, the row loop stops where row `i + 1` starts. */
  lemma RowLast(name: seq<byte>, raw: seq<seq<Entry>>, i: nat)
    requires RoundTrippable(name, raw) && i < |raw|
    ensures RowFrom(name, raw, i, |raw[0]|) == RowDone(name, raw, i)
  {
    RowEnd(name, raw, i);
    NoMoreItems(Flex(EncodeRows(name, raw, |raw|)), |At(name, raw, 0, |raw[0]|).shared|, |At(name, raw, i, |raw[0]|).unique|, RowMap(raw, i, |raw[0]|));
  }

  /** The rows BuildDict builds for the first `i` rows of the table. */
  function Rows(raw: seq<seq<Entry>>, i: nat): (r: seq<map<seq<byte>, Entry>>)
    requires TableEncodable(raw) && Shaped(raw) && i <= |raw|
    ensures |r| == i
  {
    if i == 0 then [] else Rows(raw, i - 1) + [RowMap(raw, i - 1, |raw[0]|)]
  }

  /** From row `i` on, with the unique cursor where row `i` starts, every row decodes to its RowMap. */
  lemma {:induction false} RowsReadBack(name: seq<byte>, raw: seq<seq<Entry>>, i: nat)
    requires RoundTrippable(name, raw) && i <= |raw|
    ensures var F := EncodeRows(name, raw, |raw|);
      RowsFrom(Flex(F), |raw[0]|, |raw| - i, |EncodeRows(name, raw, i).unique|, Rows(raw, i))
        == TableState(Rows(raw, |raw|), |F.unique|, None)
    decreases |raw| - i
  {
    if i < |raw| {
      RowReadBack(name, raw, i, 0);
      assert RowFrom(name, raw, i, 0) == ItemsFrom(Flex(EncodeRows(name, raw, |raw|)), |At(name, raw, 0, 0).shared|, |At(name, raw, i, 0).unique|, RowMap(raw, i, 0), |raw[0]|);
      assert |At(name, raw, 0, 0).shared| == 0;
      assert At(name, raw, i, 0) == EncodeRows(name, raw, i);
      assert RowMap(raw, i, 0) == map[];
      RowsReadBack(name, raw, i + 1);
    }
  }

  /** Row `i` of Rows is its RowMap. */
  lemma {:induction false} RowsAt(raw: seq<seq<Entry>>, k: nat, i: nat)
    requires TableEncodable(raw) && Shaped(raw) && i < k <= |raw|
    ensures Rows(raw, k)[i] == RowMap(raw, i, |raw[0]|)
    decreases k
  {
    if i < k - 1 {
      RowsAt(raw, k - 1, i);
    }
  }

  predicate DistinctKeys(row: seq<Entry>) {
    forall a, b | 0 <= a < b < |row| :: row[a].key != row[b].key
  }

  function KeysOf(row: seq<Entry>, j: nat): set<seq<byte>>
    requires j <= |row|
  {
    set k | 0 <= k < j :: row[k].key
  }

  /** With distinct keys, a row's map has exactly row 0's keys, each bound to its expected entry. */
  lemma {:induction false} RowMapContents(raw: seq<seq<Entry>>, i: nat, j: nat)
    requires TableEncodable(raw) && Shaped(raw) && DistinctKeys(raw[0]) && i < |raw| && j <= |raw[0]|
    ensures RowMap(raw, i, j).Keys == KeysOf(raw[0], j)
    ensures forall k | 0 <= k < j :: RowMap(raw, i, j)[raw[0][k].key] == Expected(raw, i, k)
  {
    hide Expected, TableEncodable, Shaped;
    if j > 0 {
      RowMapContents(raw, i, j - 1);
      assert KeysOf(raw[0], j) == KeysOf(raw[0], j - 1) + {raw[0][j - 1].key};
      forall k | 0 <= k < j
        ensures RowMap(raw, i, j)[raw[0][k].key] == Expected(raw, i, k)
      {
        if k < j - 1 {
          assert raw[0][k].key != raw[0][j - 1].key;
        }
      }
    }
  }

  // ---------------------------------------------------------------------
  // The whole table

  /**
   * A compressDict table under a header whose Size is the table's meets
   * ParsePayload's consistency condition, so it parses back unchanged
   * (Parser.ParsePayloadRoundTrip).
   */
  lemma CompressDictConsistent(h: Header, name: seq<byte>, raw: seq<seq<Entry>>)
    requires TableEncodable(raw) && h.size == PayloadDataSize(CompressDictSpec(name, raw)) < TwoTo32
    ensures Consistent(Payload(h, CompressDictSpec(name, raw)))
  {
    CompressDictLayout(name, raw);
  }

  /** The table name sits at NameOffset, right after "<NULL>", and reads back. */
  lemma NameReadBack(name: seq<byte>, raw: seq<seq<Entry>>)
    requires TableEncodable(raw) && NoZero(name)
    ensures CStringAt(EncodeRows(name, raw, |raw|).strings, NameOffset) == name
  {
    RowsGrow(name, raw, 0, |raw|);
    NameAt(EncodeRows(name, raw, |raw|).strings, name);
  }

  /** A string region opening with "<NULL>" and then the name gives the name back at NameOffset. */
  lemma NameAt(strings: seq<byte>, name: seq<byte>)
    requires NullString + StringToC(name) <= strings && NoZero(name)
    ensures CStringAt(strings, NameOffset) == name
  {
    var rest := strings[|NullString| + |name| + 1..];
    assert strings == NullString + StringToC(name) + rest;
    CStringAtOfStringToC(NullString, name, rest);
  }

  /**
   * BuildDict undoes compressDict: no error, the name back, and row `i`
   * holding, under row 0's keys, the restored entries (Rows).
   */
  lemma BuildDictOfCompressDict(h: Header, name: seq<byte>, raw: seq<seq<Entry>>)
    requires RoundTrippable(name, raw)
    ensures BuildDictSpec(Payload(h, CompressDictSpec(name, raw))) == DictResult(name, Rows(raw, |raw|), None)
  {
    TableFacts(name, raw);
    hide *;
    var F := EncodeRows(name, raw, |raw|);
    var p := Payload(h, CompressDictSpec(name, raw));
    CompressDictFixed(name, raw);
    NameReadBack(name, raw);
    AllRowsReadBack(name, raw);
    BuildDictWhole(p, Flex(F), |raw[0]|, |raw|, TableState(Rows(raw, |raw|), |F.unique|, None), name);
  }

  /** Every row of the table decodes to its RowMap. */
  lemma AllRowsReadBack(name: seq<byte>, raw: seq<seq<Entry>>)
    requires RoundTrippable(name, raw)
    ensures var F := EncodeRows(name, raw, |raw|);
      RowsFrom(Flex(F), |raw[0]|, |raw|, 0, []) == TableState(Rows(raw, |raw|), |F.unique|, None)
  {
    TableFacts(name, raw);
    RowsStart(name, raw);
    hide *;
    RowsReadBack(name, raw, 0);
  }

  lemma RowsStart(name: seq<byte>, raw: seq<seq<Entry>>)
    requires TableEncodable(raw) && Shaped(raw)
    ensures |EncodeRows(name, raw, 0).unique| == 0 && Rows(raw, 0) == []
  {
  }

  /** What RoundTrippable gives the table-level lemmas. */
  lemma TableFacts(name: seq<byte>, raw: seq<seq<Entry>>)
    requires RoundTrippable(name, raw)
    ensures TableEncodable(raw) && Shaped(raw) && NoZero(name) && |raw| < TwoTo32 && |raw[0]| < TwoTo16
  {
  }

  /** BuildDict when every row reads without error. */
  lemma BuildDictWhole(p: Payload, x: FlexData, items: nat, n: nat, t: TableState, name: seq<byte>)
    requires p.data.flex == x && p.data.fixed.itemsPerDictionary == items && p.data.fixed.numberOfDictionary == n
    requires RowsFrom(x, items, n, 0, []) == t
    requires t.err.None? && CStringAt(x.strings, p.data.fixed.payloadNameOffset) == name
    ensures BuildDictSpec(p) == DictResult(name, t.rows, None)
  {
  }

  /** The fields of compressDict's fixed part that BuildDict reads, and the regions it starts from. */
  lemma CompressDictFixed(name: seq<byte>, raw: seq<seq<Entry>>)
    requires TableEncodable(raw) && Shaped(raw) && |raw| < TwoTo32 && |raw[0]| < TwoTo16
    ensures var d := CompressDictSpec(name, raw);
      && d.flex == Flex(EncodeRows(name, raw, |raw|)) && d.flex.strings == EncodeRows(name, raw, |raw|).strings
      && d.fixed.itemsPerDictionary == |raw[0]| && d.fixed.numberOfDictionary == |raw|
      && d.fixed.payloadNameOffset == NameOffset
      && EncodeRows(name, raw, 0).unique == [] && Rows(raw, 0) == []
  {
  }

  /**
   * The table round trip spelled out: BuildDict gives back the name and
   * one row per row written; every row has exactly row 0's keys, and entry
   * `j` comes back with its type and its value, taken from row 0 when it
   * is recurring (so it is the same in every row) and from row `i`
   * otherwise, with the key and recurrence fields at their zero values.
   */
  lemma BuildDictRows(h: Header, name: seq<byte>, raw: seq<seq<Entry>>)
    requires RoundTrippable(name, raw) && DistinctKeys(raw[0])
    ensures var r := BuildDictSpec(Payload(h, CompressDictSpec(name, raw)));
      && r.err.None? && r.name == name && |r.rows| == |raw|
      && (forall i | 0 <= i < |raw| :: r.rows[i].Keys == KeysOf(raw[0], |raw[0]|))
      && (forall i, j | 0 <= i < |raw| && 0 <= j < |raw[0]| ::
            r.rows[i][raw[0][j].key].info == raw[i][j].info
            && r.rows[i][raw[0][j].key] == Restored(if raw[0][j].recurring then raw[0][j] else raw[i][j]))
  {
    BuildDictOfCompressDict(h, name, raw);
    var rows := Rows(raw, |raw|);
    forall i | 0 <= i < |raw|
      ensures rows[i].Keys == KeysOf(raw[0], |raw[0]|)
      ensures forall j | 0 <= j < |raw[0]| :: rows[i][raw[0][j].key] == Expected(raw, i, j)
    {
      RowsAt(raw, |raw|, i);
      RowMapContents(raw, i, |raw[0]|);
    }
  }

  /** A recurring entry decodes the same in every row, because BuildDict rewinds the shared region before each row. */
  lemma BuildDictRecurringSame(h: Header, name: seq<byte>, raw: seq<seq<Entry>>, i: nat, j: nat)
    requires RoundTrippable(name, raw) && DistinctKeys(raw[0]) && i < |raw| && j < |raw[0]| && raw[0][j].recurring
    ensures var r := BuildDictSpec(Payload(h, CompressDictSpec(name, raw)));
      && |r.rows| == |raw| && raw[0][j].key in r.rows[i] && raw[0][j].key in r.rows[0]
      && r.rows[i][raw[0][j].key] == r.rows[0][raw[0][j].key]
  {
    assert TableEncodable(raw) && Shaped(raw);
    var rows := Rows(raw, |raw|);
    BuildDictOfCompressDict(h, name, raw);
    RowsAt(raw, |raw|, i);
    RowsAt(raw, |raw|, 0);
    RowMapContents(raw, i, |raw[0]|);
    RowMapContents(raw, 0, |raw[0]|);
    assert raw[0][j].key in KeysOf(raw[0], |raw[0]|);
    assert rows[i][raw[0][j].key] == Expected(raw, i, j) == Expected(raw, 0, j);
    assert rows[0][raw[0][j].key] == Expected(raw, 0, j);
  }

  /**
   * The table through the whole chunk payload path: compressPayload of
   * compressDict's table, parsed back by ParsePayload, gives the same
   * payload, and BuildDict of it gives back the name and the rows.
   */
  lemma TableRoundTrip(h: Header, name: seq<byte>, raw: seq<seq<Entry>>)
    requires RoundTrippable(name, raw) && h.size == PayloadDataSize(CompressDictSpec(name, raw))
    ensures var p := Payload(h, CompressDictSpec(name, raw));
      var q := ParsePayloadSpec(CompressPayloadSpec(p));
      q == PayloadRead(p, None) && BuildDictSpec(q.payload) == DictResult(name, Rows(raw, |raw|), None)
  {
    CompressDictConsistent(h, name, raw);
    ParsePayloadRoundTrip(Payload(h, CompressDictSpec(name, raw)));
    BuildDictOfCompressDict(h, name, raw);
  }
}
