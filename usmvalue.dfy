/**
 * usmvalue.go: the catalog of value types a table entry can have, and the
 * decoding of a type-tag byte into (value type, stored-per-row flag).
 * A tag is a base type 0x10..0x1B plus 0x20 for a recurring value (stored
 * once, in the shared region) or 0x40 for a unique value (stored per row).
 */
module UsmValue {
  import opened Bytes

  /** USMValueInfo: a type name and its width in bytes inside the shared or unique region. */
  datatype ValueInfo = ValueInfo(name: string, size: nat)

  /** The zero USMValueInfo, what a lookup of an unknown tag yields. */
  const ZeroInfo := ValueInfo("", 0)

  const FirstBaseTag: int := 0x10
  const LastBaseTag: int := 0x1B
  const RecurringFlag: int := 0x20
  const UniqueFlag: int := 0x40

  /** The `values` map: Go's lookup, with the zero descriptor for a missing tag. */
  function Values(c: int): ValueInfo {
    if c == 0x10 then ValueInfo("Char", 1)
    else if c == 0x11 then ValueInfo("Unsigned Char", 1)
    else if c == 0x12 then ValueInfo("Short", 2)
    else if c == 0x13 then ValueInfo("Unsigned Short", 2)
    else if c == 0x14 then ValueInfo("Integer", 4)
    else if c == 0x15 then ValueInfo("Unsigned Integer", 4)
    else if c == 0x16 then ValueInfo("Long long", 8)
    else if c == 0x17 then ValueInfo("Unsigned long long", 8)
    else if c == 0x18 then ValueInfo("Float", 4)
    else if c == 0x19 then ValueInfo("Double", 8)
    else if c == 0x1A then ValueInfo("String", 4)
    else if c == 0x1B then ValueInfo("Bytes", 4)
    else ZeroInfo
  }

  const StringInfo := Values(0x1A)
  const BytesInfo := Values(0x1B)

  /** The two types whose value lives in the string or byte region, recognised by name as the Go code does. */
  predicate IsString(info: ValueInfo) { info.name == "String" }
  predicate IsBytes(info: ValueInfo) { info.name == "Bytes" }

  /** A descriptor is in the catalog when some base tag names it. */
  predicate InCatalog(info: ValueInfo) {
    exists b | FirstBaseTag <= b <= LastBaseTag :: Values(b) == info
  }

  lemma CatalogWidths()
    ensures forall b | FirstBaseTag <= b <= LastBaseTag :: Values(b).size in {1, 2, 4, 8}
    ensures seq(12, i => Values(FirstBaseTag + i).size) == [1, 1, 2, 2, 4, 4, 8, 8, 4, 8, 4, 4]
    ensures Values(0x1A) == ValueInfo("String", 4) && Values(0x1B) == ValueInfo("Bytes", 4)
  {
  }

  /**
   * GetValue: strip the occurrence flag from a tag byte and look the base
   * type up. Tags from 0x50 are unique, tags 0x20..0x4F recurring, smaller
   * tags are looked up as they are.
   */
  function GetValue(c: byte): (r: (ValueInfo, bool))
    ensures r.1 <==> c >= 0x50
    ensures r.0 == ZeroInfo || InCatalog(r.0)
    ensures IsString(r.0) ==> r.0 == StringInfo
    ensures IsBytes(r.0) ==> r.0 == BytesInfo
  {
    if c >= 0x50 then (Values(c - UniqueFlag), true)
    else if c >= 0x20 then (Values(c - RecurringFlag), false)
    else (Values(c), false)
  }

  /** Every base type, flagged unique or recurring, decodes back to itself. */
  lemma GetValueOfFlaggedTag(b: int)
    requires FirstBaseTag <= b <= LastBaseTag
    ensures GetValue(b + UniqueFlag) == (Values(b), true)
    ensures GetValue(b + RecurringFlag) == (Values(b), false)
  {
  }

  /** A tag whose stripped value misses the catalog yields the zero descriptor. */
  lemma GetValueMiss(c: byte)
    requires var base := if c >= 0x50 then c - UniqueFlag else if c >= 0x20 then c - RecurringFlag else c;
      !(FirstBaseTag <= base <= LastBaseTag)
    ensures GetValue(c).0 == ZeroInfo && GetValue(c).0.size == 0
  {
  }

  /**
   * A table entry as the encoder receives it: key, value type, whether the
   * value is the same in every row (recurring), and the value bytes (the
   * text for a String, the blob for Bytes).
   */
  datatype Entry = Entry(key: seq<byte>, info: ValueInfo, recurring: bool, value: seq<byte>)

  function FindTag(info: ValueInfo, b: int): (r: Option<byte>)
    requires FirstBaseTag <= b <= LastBaseTag + 1
    ensures r.Some? ==> b <= r.value <= LastBaseTag && Values(r.value) == info
    ensures r.None? ==> forall t | b <= t <= LastBaseTag :: Values(t) != info
    decreases LastBaseTag + 1 - b
  {
    if b > LastBaseTag then None
    else if Values(b) == info then Some(b)
    else FindTag(info, b + 1)
  }

  /** The base tag of a catalog type. */
  function BaseTag(info: ValueInfo): (r: Option<byte>)
    ensures r.Some? <==> InCatalog(info)
    ensures r.Some? ==> FirstBaseTag <= r.value <= LastBaseTag && Values(r.value) == info
  {
    FindTag(info, FirstBaseTag)
  }

  /**
   * Entry.ToByte: the tag byte the encoder writes, base type plus 0x20 for
   * a recurring entry or 0x40 for a unique one.
   */
  function ToByte(e: Entry): (r: byte)
    requires InCatalog(e.info)
    ensures GetValue(r) == (e.info, !e.recurring)
  {
    var b := BaseTag(e.info).value;
    GetValueOfFlaggedTag(b);
    b + if e.recurring then RecurringFlag else UniqueFlag
  }
}
