/**
 * main.go BuildDict: turning a parsed "UTF table" payload back into rows of
 * key/entry maps. Four readers walk the regions: the shared one holds, per
 * item, a tag byte, a key offset and (for a recurring value) the value; the
 * unique one holds the per-row values; keys and String values are
 * zero-terminated texts in the string region; Bytes values are start/end
 * offsets into the byte region. The shared reader is rewound after every
 * row, so every row re-reads the same tags, keys and recurring values,
 * while the unique reader keeps advancing.
 */
module Dict {
  import opened Bytes
  import opened GoIo
  import opened TableTypes
  import opened UsmValue
  import opened Parser

  /** A decoded entry: BuildDict fills in the type and the value only. */
  function Decoded(info: ValueInfo, value: seq<byte>): Entry {
    Entry([], info, false, value)
  }

  const ZeroEntry := Entry([], ZeroInfo, false, [])

  /** The first half of an item: tag byte and key, both found through the shared region. */
  datatype KeyStep = KeyStep(tag: byte, key: seq<byte>, shared: nat, err: Option<Error>)

  function DecodeKeySpec(x: FlexData, sh: nat): (r: KeyStep)
    ensures r.err.None? <==> sh < |x.shared|
    ensures r.err.None? ==> sh < r.shared <= sh + 5
  {
    var t := ReadByteSpec(x.shared, sh);
    if t.err.Some? then KeyStep(0, [], t.pos, t.err)
    else
      var tag := t.buf[0];
      var k := ReadSpec(x.shared, t.pos, 4, false);
      var err := SafeReadErr(k, 4);
      if err.Some? then KeyStep(tag, [], k.pos, err)
      else KeyStep(tag, CStringAt(x.strings, BigEndian(k.buf)), k.pos, None)
  }

  /** The second half of an item: the value, read from the unique or the shared region as the tag says. */
  datatype ValueStep = ValueStep(value: seq<byte>, shared: nat, unique: nat, err: Option<Error>)

  function DecodeValueSpec(x: FlexData, tag: byte, sh: nat, un: nat): (r: ValueStep)
    ensures GetValue(tag).1 ==> r.shared == sh
    ensures !GetValue(tag).1 ==> r.unique == un
    ensures r.err.None? && !IsBytes(GetValue(tag).0) && !IsString(GetValue(tag).0) ==> |r.value| == GetValue(tag).0.size
  {
    var (info, isUnique) := GetValue(tag);
    var n := info.size;
    var v := if isUnique then ReadSpec(x.unique, un, n, false) else ReadSpec(x.shared, sh, n, false);
    var sh1 := if isUnique then sh else v.pos;
    var un1 := if isUnique then v.pos else un;
    var err := SafeReadErr(v, n);
    if err.Some? then ValueStep([], sh1, un1, err)
    else ValueRest(x, info, isUnique, v.buf, sh1, un1)
  }

  /** What the first field read means: a string offset, a byte-range start, or the value itself. */
  function ValueRest(x: FlexData, info: ValueInfo, isUnique: bool, buf: seq<byte>, sh: nat, un: nat): (r: ValueStep)
    ensures isUnique ==> r.shared == sh
    ensures !isUnique ==> r.unique == un
    ensures !IsBytes(info) ==> r.err.None? && r.shared == sh && r.unique == un
    ensures !IsBytes(info) && !IsString(info) ==> r.value == buf
  {
    if IsString(info) then ValueStep(CStringAt(x.strings, BigEndian(buf)), sh, un, None)
    else if IsBytes(info) then BytesValueSpec(x, isUnique, BigEndian(buf), sh, un, info.size)
    else ValueStep(buf, sh, un, None)
  }

  /** A Bytes value once its start offset is read: the end offset, then byteArray[start:end] through ReadAt. */
  function BytesValueSpec(x: FlexData, isUnique: bool, start: nat, sh: nat, un: nat, n: nat): (r: ValueStep)
    ensures isUnique ==> r.shared == sh
    ensures !isUnique ==> r.unique == un
  {
    var w := if isUnique then ReadSpec(x.unique, un, n, false) else ReadSpec(x.shared, sh, n, false);
    var sh1 := if isUnique then sh else w.pos;
    var un1 := if isUnique then w.pos else un;
    var err := SafeReadErr(w, n);
    if err.Some? then ValueStep([], sh1, un1, err)
    else
      var b := ReadAtSpec(x.bytes, start, U32(BigEndian(w.buf) - start));
      if b.err.Some? then ValueStep([], sh1, un1, b.err)
      else ValueStep(b.buf, sh1, un1, None)
  }

  /** One item of one row: its key, its decoded entry and where the two cursors stop. */
  datatype ItemStep = ItemStep(key: seq<byte>, entry: Entry, shared: nat, unique: nat, err: Option<Error>)

  function DecodeItemSpec(x: FlexData, sh: nat, un: nat): (r: ItemStep)
    ensures r.err.None? ==> sh < |x.shared| && r.entry.info == GetValue(x.shared[sh]).0
  {
    var k := DecodeKeySpec(x, sh);
    if k.err.Some? then ItemStep([], ZeroEntry, k.shared, un, k.err)
    else
      var v := DecodeValueSpec(x, k.tag, k.shared, un);
      if v.err.Some? then ItemStep(k.key, ZeroEntry, v.shared, v.unique, v.err)
      else ItemStep(k.key, Decoded(GetValue(k.tag).0, v.value), v.shared, v.unique, None)
  }

  /** A row being decoded: the map so far and both cursors. */
  datatype RowState = RowState(dict: map<seq<byte>, Entry>, shared: nat, unique: nat, err: Option<Error>)

  /**
   * The rest of a row: `n` more items from the given cursors, each stored
   * under its key (a repeated key keeps the later entry); the first failing
   * item ends the row with its error.
   */
  function ItemsFrom(x: FlexData, sh: nat, un: nat, dict: map<seq<byte>, Entry>, n: nat): (r: RowState)
    ensures r.err.None? ==> dict.Keys <= r.dict.Keys
    decreases n
  {
    if n == 0 then RowState(dict, sh, un, None)
    else
      var it := DecodeItemSpec(x, sh, un);
      if it.err.Some? then RowState(dict, it.shared, it.unique, it.err)
      else ItemsFrom(x, it.shared, it.unique, dict[it.key := it.entry], n - 1)
  }

  /** The rows decoded so far and where the unique cursor stands. */
  datatype TableState = TableState(rows: seq<map<seq<byte>, Entry>>, unique: nat, err: Option<Error>)

  /** The remaining `n` rows: each starts with the shared cursor back at 0 and the unique cursor where the last one stopped. */
  function RowsFrom(x: FlexData, items: nat, n: nat, un: nat, rows: seq<map<seq<byte>, Entry>>): (r: TableState)
    ensures |rows| <= |r.rows| <= |rows| + n && r.rows[..|rows|] == rows
    ensures r.err.None? <==> |r.rows| == |rows| + n
    decreases n
  {
    if n == 0 then TableState(rows, un, None)
    else
      var row := ItemsFrom(x, 0, un, map[], items);
      if row.err.Some? then TableState(rows, row.unique, row.err)
      else
        var r := RowsFrom(x, items, n - 1, row.unique, rows + [row.dict]);
        assert r.rows[..|rows|] == r.rows[..|rows| + 1][..|rows|];
        r
  }

  datatype DictResult = DictResult(name: seq<byte>, rows: seq<map<seq<byte>, Entry>>, err: Option<Error>)

  /**
   * BuildDict: NumberOfDictionary rows of ItemsPerDictionary items each,
   * then the table name. On an error the rows finished so far come back
   * with an empty name.
   */
  function BuildDictSpec(p: Payload): (r: DictResult)
    ensures r.err.None? ==> |r.rows| == p.data.fixed.numberOfDictionary
    ensures r.err.Some? ==> r.name == [] && |r.rows| < p.data.fixed.numberOfDictionary
  {
    var f := p.data.fixed;
    var t := RowsFrom(p.data.flex, f.itemsPerDictionary, f.numberOfDictionary, 0, []);
    if t.err.Some? then DictResult([], t.rows, t.err)
    else DictResult(CStringAt(p.data.flex.strings, f.payloadNameOffset), t.rows, None)
  }

  /** The tag byte and the key of one item. */
  method ReadKey(shared: Reader, strings: Reader) returns (tag: byte, key: seq<byte>, err: Option<Error>)
    requires shared != strings && !strings.isFile && !shared.isFile
    modifies shared, strings
    ensures var r := DecodeKeySpec(FlexData(shared.data, [], strings.data, []), old(shared.pos));
      tag == r.tag && key == r.key && shared.pos == r.shared && err == r.err
  {
    tag, err := shared.ReadByte();
    if err.Some? {
      tag, key := 0, [];
      return;
    }
    var keyAddr;
    keyAddr, err := SafeRead(shared, 4);
    if err.Some? {
      key := [];
      return;
    }
    key := ReadStringAt(strings, BigEndian(keyAddr));
  }

  /** The value of one item, from the reader GetValue(tag) selects. */
  method ReadValue(tag: byte, shared: Reader, unique: Reader, strings: Reader, bytes: Reader)
    returns (value: seq<byte>, err: Option<Error>)
    requires shared != unique && shared != strings && unique != strings
    requires !shared.isFile && !unique.isFile && !strings.isFile
    modifies shared, unique, strings
    ensures var r := DecodeValueSpec(FlexData(shared.data, unique.data, strings.data, bytes.data), tag, old(shared.pos), old(unique.pos));
      value == r.value && shared.pos == r.shared && unique.pos == r.unique && err == r.err
  {
    var (info, isUnique) := GetValue(tag);
    var valueInfo;
    if isUnique {
      valueInfo, err := SafeRead(unique, info.size);
    } else {
      valueInfo, err := SafeRead(shared, info.size);
    }
    if err.Some? {
      value := [];
      return;
    }
    value, err := ReadValueRest(info, isUnique, valueInfo, shared, unique, strings, bytes);
  }

  /** The branches of ReadValue after its first read. */
  method ReadValueRest(info: ValueInfo, isUnique: bool, valueInfo: seq<byte>, shared: Reader, unique: Reader, strings: Reader, bytes: Reader)
    returns (value: seq<byte>, err: Option<Error>)
    requires shared != unique && shared != strings && unique != strings
    requires !shared.isFile && !unique.isFile && !strings.isFile
    modifies shared, unique, strings
    ensures var r := ValueRest(FlexData(shared.data, unique.data, strings.data, bytes.data), info, isUnique, valueInfo, old(shared.pos), old(unique.pos));
      value == r.value && shared.pos == r.shared && unique.pos == r.unique && err == r.err
  {
    err := None;
    if IsString(info) {
      value := ReadStringAt(strings, BigEndian(valueInfo));
    } else if IsBytes(info) {
      value, err := ReadBytesValue(isUnique, BigEndian(valueInfo), info.size, shared, unique, bytes);
    } else {
      value := valueInfo;
    }
  }

  method ReadBytesValue(isUnique: bool, start: nat, n: nat, shared: Reader, unique: Reader, bytes: Reader)
    returns (value: seq<byte>, err: Option<Error>)
    requires shared != unique && !shared.isFile && !unique.isFile
    modifies shared, unique
    ensures var r := BytesValueSpec(FlexData(shared.data, unique.data, [], bytes.data), isUnique, start, old(shared.pos), old(unique.pos), n);
      value == r.value && shared.pos == r.shared && unique.pos == r.unique && err == r.err
  {
    var src := if isUnique then unique else shared;
    var valueInfoEnd;
    valueInfoEnd, err := SafeRead(src, n);
    if err.Some? {
      value := [];
      return;
    }
    var length := U32(BigEndian(valueInfoEnd) - start);
    value, err := bytes.ReadAt(length, start);
    if err.Some? {
      value := [];
    }
  }

  method ReadItem(shared: Reader, unique: Reader, strings: Reader, bytes: Reader)
    returns (key: seq<byte>, entry: Entry, err: Option<Error>)
    requires shared != unique && shared != strings && unique != strings
    requires !shared.isFile && !unique.isFile && !strings.isFile
    modifies shared, unique, strings
    ensures var r := DecodeItemSpec(FlexData(shared.data, unique.data, strings.data, bytes.data), old(shared.pos), old(unique.pos));
      key == r.key && entry == r.entry && shared.pos == r.shared && unique.pos == r.unique && err == r.err
  {
    var tag;
    tag, key, err := ReadKey(shared, strings);
    if err.Some? {
      key, entry := [], ZeroEntry;
      return;
    }
    var value;
    value, err := ReadValue(tag, shared, unique, strings, bytes);
    if err.Some? {
      entry := ZeroEntry;
      return;
    }
    entry := Decoded(GetValue(tag).0, value);
  }

  /** The inner loop of BuildDict: `items` items into a fresh map; an error ends it (and BuildDict). */
  method ReadRow(items: nat, shared: Reader, unique: Reader, strings: Reader, bytes: Reader)
    returns (dict: map<seq<byte>, Entry>, err: Option<Error>)
    requires shared != unique && shared != strings && unique != strings
    requires !shared.isFile && !unique.isFile && !strings.isFile
    modifies shared, unique, strings
    ensures RowState(dict, shared.pos, unique.pos, err)
      == ItemsFrom(FlexData(shared.data, unique.data, strings.data, bytes.data), old(shared.pos), old(unique.pos), map[], items)
  {
    ghost var x := FlexData(shared.data, unique.data, strings.data, bytes.data);
    ghost var want := ItemsFrom(x, shared.pos, unique.pos, map[], items);
    dict := map[];
    err := None;
    var ii := 1;
    while ii <= items
      invariant 1 <= ii <= items + 1
      invariant err.None? && want == ItemsFrom(x, shared.pos, unique.pos, dict, items - (ii - 1))
    {
      var key, entry;
      key, entry, err := ReadItem(shared, unique, strings, bytes);
      if err.Some? {
        return;
      }
      dict := dict[key := entry];
      ii := ii + 1;
    }
  }

  method BuildDict(src: Payload) returns (name: seq<byte>, result: seq<map<seq<byte>, Entry>>, err: Option<Error>)
    ensures DictResult(name, result, err) == BuildDictSpec(src)
  {
    var x := src.data.flex;
    var f := src.data.fixed;
    var shared := new Reader(x.shared, false);
    var unique := new Reader(x.unique, false);
    var strings := new Reader(x.strings, false);
    var bytes := new Reader(x.bytes, false);
    result := [];
    ghost var n := f.numberOfDictionary;
    ghost var items := f.itemsPerDictionary;
    var i := 1;
    while i <= f.numberOfDictionary
      invariant 1 <= i <= n + 1
      invariant shared.pos == 0
      invariant RowsFrom(x, items, n, 0, []) == RowsFrom(x, items, n - (i - 1), unique.pos, result)
    {
      var dict;
      dict, err := ReadRow(f.itemsPerDictionary, shared, unique, strings, bytes);
      if err.Some? {
        name := [];
        return;
      }
      result := result + [dict];
      shared.Seek(0);
      i := i + 1;
    }
    name := ReadStringAt(strings, f.payloadNameOffset);
    err := None;
  }
}
