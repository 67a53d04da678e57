/** NBT trees and their bytes, from the format itself: nothing here refers to the skipper. */
module NbtData {
  import opened Wire
  import opened Lists

  /** A payload without its tag and name. A float or double is its bit pattern. `ByteArray` (tag 0x07) is a 4-byte
      length prefix, in which the skipper reads no meaning, and the content behind it. The last constructor is not of
      the NBT format: it is what the skipper takes tag 0x0D for. */
  datatype Payload =
    | Nothing
    | Byte(byteValue: i8)
    | Short(shortValue: i16)
    | Int(intValue: i32)
    | Long(longValue: i64)
    | Float(floatBits: i32)
    | Double(doubleBits: i64)
    | ByteArray(prefix: Bytes, content: Bytes)
    | Text(bytes: Bytes)
    | List(elementTag: byte, count: i32, elements: seq<Payload>)
    | Compound(entries: seq<Entry>)
    | IntArray(ints: seq<i32>)
    | LongArray(longs: seq<i64>)
    | ByteArray0D(values: seq<i8>)

  datatype Entry = Entry(name: Bytes, payload: Payload)

  /** The tag numbers of the format. */
  function Tag(t: Payload): byte {
    match t
    case Nothing => 0
    case Byte(_) => 1
    case Short(_) => 2
    case Int(_) => 3
    case Long(_) => 4
    case Float(_) => 5
    case Double(_) => 6
    case ByteArray(_, _) => 7
    case Text(_) => 8
    case List(_, _, _) => 9
    case Compound(_) => 10
    case IntArray(_) => 11
    case LongArray(_) => 12
    case ByteArray0D(_) => 13
  }

  /** Names and strings have 16-bit lengths, arrays and lists 32-bit ones; a negative list count is an empty list. */
  predicate WellFormed(t: Payload)
    decreases t
  {
    match t
    case ByteArray(prefix, _) => |prefix| == 4
    case Text(bytes) => |bytes| <= 0xffff
    case List(elementTag, count, elements) =>
      |elements| == (if count < 0 then 0 else count) && WellFormedElements(elementTag, elements)
    case Compound(entries) => WellFormedEntries(entries)
    case IntArray(ints) => |ints| <= I32_MAX
    case LongArray(longs) => |longs| <= I32_MAX
    case ByteArray0D(values) => |values| <= I32_MAX
    case _ => true
  }

  predicate WellFormedElements(tag: byte, es: seq<Payload>)
    decreases es
  {
    es == [] || (WellFormed(es[0]) && Tag(es[0]) == tag && WellFormedElements(tag, es[1..]))
  }

  /** An entry of type TAG_End would end the compound. */
  predicate WellFormedEntries(es: seq<Entry>)
    decreases es
  {
    es == [] || (|es[0].name| < 0x1_0000 && WellFormed(es[0].payload) && !es[0].payload.Nothing?
                 && WellFormedEntries(es[1..]))
  }

  function Named(name: Bytes): (b: Bytes)
    requires |name| < 0x1_0000
    ensures |b| == 2 + |name|
  {
    U16(|name|) + name
  }

  function Serialize(t: Payload): Bytes
    requires WellFormed(t)
    decreases t
  {
    match t
    case Nothing => []
    case Byte(v) => I8(v)
    case Short(v) => I16(v)
    case Int(v) => I32(v)
    case Long(v) => I64(v)
    case Float(bits) => I32(bits)
    case Double(bits) => I64(bits)
    case ByteArray(prefix, content) => prefix + content
    case Text(bytes) => Named(bytes)
    case List(elementTag, count, elements) => [elementTag] + (I32(count) + SerializeElements(elementTag, elements))
    case Compound(entries) => SerializeEntries(entries)
    case IntArray(ints) => I32(|ints|) + Many(I32, ints)
    case LongArray(longs) => I32(|longs|) + Many(I64, longs)
    case ByteArray0D(values) => I32(|values|) + Many(I8, values)
  }

  function SerializeElements(tag: byte, es: seq<Payload>): Bytes
    requires WellFormedElements(tag, es)
    decreases es
  {
    if es == [] then [] else Serialize(es[0]) + SerializeElements(tag, es[1..])
  }

  function SerializeEntries(es: seq<Entry>): Bytes
    requires WellFormedEntries(es)
    decreases es
  {
    if es == [] then [0]
    else [Tag(es[0].payload)] + (Named(es[0].name) + (Serialize(es[0].payload) + SerializeEntries(es[1..])))
  }

  /** No byte array of tag 0x07 anywhere in the tree has content. */
  predicate NoByteArrays(t: Payload) {
    match t
    case ByteArray(_, content) => content == []
    case List(_, _, elements) => NoByteArraysIn(elements)
    case Compound(entries) => NoByteArraysUnder(entries)
    case _ => true
  }

  predicate NoByteArraysIn(es: seq<Payload>) {
    es == [] || (NoByteArrays(es[0]) && NoByteArraysIn(es[1..]))
  }

  predicate NoByteArraysUnder(es: seq<Entry>) {
    es == [] || (NoByteArrays(es[0].payload) && NoByteArraysUnder(es[1..]))
  }

  /** A compound with its tag and its own name. */
  function Root(name: Bytes, entries: seq<Entry>): Bytes
    requires |name| < 0x1_0000 && WellFormedEntries(entries)
  {
    [10] + (Named(name) + SerializeEntries(entries))
  }
}
