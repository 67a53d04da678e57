/** NBT as trees: the byte strings the skipper accepts are exactly the serialised trees without byte-array content. */
module NbtTrees {
  import opened Wire
  import opened Lists
  import opened Nbt
  import opened NbtData

  // ---------------------------------------------------------------------------
  // Every such tree is walked to its own end
  // ---------------------------------------------------------------------------

  ghost predicate Has(data: Bytes, pos: nat, b: Bytes) {
    pos + |b| <= |data| && data[pos..pos + |b|] == b
  }

  lemma HasParts(data: Bytes, pos: nat, a: Bytes, b: Bytes)
    requires Has(data, pos, a + b)
    ensures Has(data, pos, a) && Has(data, pos + |a|, b)
  {
    assert data[pos..pos + |a + b|][..|a|] == a;
    assert data[pos..pos + |a + b|][|a|..] == b;
  }

  lemma SkipNamed(data: Bytes, pos: nat, name: Bytes)
    requires |name| < 0x1_0000 && Has(data, pos, Named(name))
    ensures SkipName(data, pos) == Ok(pos + 2 + |name|)
  {
    HasParts(data, pos, U16(|name|), name);
  }

  /** The front of an entry: its tag, its name and where its payload and the next entry stand. */
  lemma EntryParts(data: Bytes, pos: nat, tag: byte, name: Bytes, payload: Bytes, after: Bytes)
    requires |name| < 0x1_0000
    requires Has(data, pos, [tag] + (Named(name) + (payload + after)))
    ensures data[pos] == tag && SkipName(data, pos + 1) == Ok(pos + 3 + |name|)
    ensures Has(data, pos + 3 + |name|, payload) && Has(data, pos + 3 + |name| + |payload|, after)
  {
    HasParts(data, pos, [tag], Named(name) + (payload + after));
    assert data[pos] == data[pos..pos + 1][0];
    HasParts(data, pos + 1, Named(name), payload + after);
    SkipNamed(data, pos + 1, name);
    HasParts(data, pos + 3 + |name|, payload, after);
  }

  /** The front of a list: its element type and its count. */
  lemma ListParts(data: Bytes, pos: nat, tag: byte, count: i32, rest: Bytes)
    requires Has(data, pos, [tag] + (I32(count) + rest))
    ensures data[pos] == tag && ReadI32(data, pos + 1) == count && Has(data, pos + 5, rest)
  {
    HasParts(data, pos, [tag], I32(count) + rest);
    assert data[pos] == data[pos..pos + 1][0];
    HasParts(data, pos + 1, I32(count), rest);
    ReadCount(data, pos + 1, count);
  }

  lemma ReadCount(data: Bytes, pos: nat, count: i32)
    requires Has(data, pos, I32(count))
    ensures ReadI32(data, pos) == count
  {
  }

  lemma {:induction false} ManyLength<T(!new)>(enc: T -> Bytes, xs: seq<T>, width: nat)
    requires forall x :: |enc(x)| == width
    ensures |Many(enc, xs)| == |xs| * width
  {
    if xs != [] {
      ManyLength(enc, xs[1..], width);
    }
  }

  lemma SkipArrayAt(tag: byte, count: i32, bytes: Bytes, data: Bytes, pos: nat)
    requires count >= 0 && |bytes| == count * UnitSize(tag) && Has(data, pos, I32(count) + bytes)
    ensures SkipArray(tag, data, pos) == Ok(pos + 4 + |bytes|)
  {
    HasParts(data, pos, I32(count), bytes);
    ReadCount(data, pos, count);
  }

  /** A payload that no list or compound is part of. */
  predicate IsLeaf(t: Payload) {
    !t.List? && !t.Compound?
  }

  lemma WalkLeaf(t: Payload, data: Bytes, pos: nat)
    requires WellFormed(t) && NoByteArrays(t) && IsLeaf(t) && Has(data, pos, Serialize(t))
    ensures Walk(Tag(t), data, pos) == Ok(pos + |Serialize(t)|)
  {
    hide I8, I16, I32, I64;
    match t {
      case Text(bytes) => SkipNamed(data, pos, bytes);
      case IntArray(ints) =>
        ManyLength(I32, ints, 4);
        SkipArrayAt(11, |ints|, Many(I32, ints), data, pos);
      case LongArray(longs) =>
        ManyLength(I64, longs, 8);
        SkipArrayAt(12, |longs|, Many(I64, longs), data, pos);
      case ByteArray0D(values) =>
        ManyLength(I8, values, 1);
        SkipArrayAt(13, |values|, Many(I8, values), data, pos);
      case _ =>
    }
  }

  lemma {:induction false} WalkTree(t: Payload, data: Bytes, pos: nat)
    requires WellFormed(t) && NoByteArrays(t) && Has(data, pos, Serialize(t))
    ensures Walk(Tag(t), data, pos) == Ok(pos + |Serialize(t)|)
    decreases t
  {
    hide Has, Named, SkipName, SkipArray, ReadI32, I32, FixedSize, UnitSize;
    match t {
      case List(elementTag, count, elements) =>
        ListParts(data, pos, elementTag, count, SerializeElements(elementTag, elements));
        WalkTreeElements(elementTag, elements, data, pos + 5);
      case Compound(entries) => WalkTreeEntries(entries, data, pos);
      case _ => WalkLeaf(t, data, pos);
    }
  }

  lemma {:induction false} WalkTreeElements(tag: byte, es: seq<Payload>, data: Bytes, pos: nat)
    requires WellFormedElements(tag, es) && NoByteArraysIn(es) && Has(data, pos, SerializeElements(tag, es))
    ensures WalkElements(tag, |es|, data, pos) == Ok(pos + |SerializeElements(tag, es)|)
    decreases es
  {
    if es != [] {
      HasParts(data, pos, Serialize(es[0]), SerializeElements(tag, es[1..]));
      WalkTree(es[0], data, pos);
      WalkTreeElements(tag, es[1..], data, pos + |Serialize(es[0])|);
    }
  }

  /** One turn of the loop over entries, given where the entry's payload starts and ends. */
  lemma FirstEntry(e: Entry, after: Bytes, data: Bytes, pos: nat) returns (start: nat, next: nat)
    requires |e.name| < 0x1_0000 && WellFormed(e.payload) && !e.payload.Nothing?
    requires Has(data, pos, [Tag(e.payload)] + (Named(e.name) + (Serialize(e.payload) + after)))
    ensures start <= next <= |data| && next == pos + 3 + |e.name| + |Serialize(e.payload)|
    ensures Has(data, start, Serialize(e.payload)) && Has(data, next, after)
    ensures next == start + |Serialize(e.payload)|
    ensures Walk(Tag(e.payload), data, start) == Ok(next) ==> WalkEntries(data, pos) == WalkEntries(data, next)
  {
    hide Walk, Named, Has, Serialize, WellFormed;
    EntryParts(data, pos, Tag(e.payload), e.name, Serialize(e.payload), after);
    start := pos + 3 + |e.name|;
    next := start + |Serialize(e.payload)|;
  }

  lemma LastEntry(data: Bytes, pos: nat)
    requires Has(data, pos, [0])
    ensures WalkEntries(data, pos) == Ok(pos + 1)
  {
    assert data[pos..pos + 1][0] == TAG_END;
  }

  lemma {:induction false} WalkTreeEntries(es: seq<Entry>, data: Bytes, pos: nat)
    requires WellFormedEntries(es) && NoByteArraysUnder(es) && Has(data, pos, SerializeEntries(es))
    ensures WalkEntries(data, pos) == Ok(pos + |SerializeEntries(es)|)
    decreases es
  {
    hide Walk, Has, Serialize, WellFormed;
    if es == [] {
      LastEntry(data, pos);
    } else {
      var start, next := FirstEntry(es[0], SerializeEntries(es[1..]), data, pos);
      WalkTree(es[0].payload, data, start);
      WalkTreeEntries(es[1..], data, next);
    }
  }

  // ---------------------------------------------------------------------------
  // Everything that is walked is such a tree
  // ---------------------------------------------------------------------------

  lemma NameAt(data: Bytes, pos: nat) returns (name: Bytes)
    requires SkipName(data, pos).Ok?
    ensures |name| < 0x1_0000 && Named(name) == data[pos..SkipName(data, pos).value]
  {
    var length := ReadU16(data, pos);
    name := data[pos + 2..pos + 2 + length];
    Widths();
    BigEndianOnto(data[pos..pos + 2]);
  }

  lemma CountAt(data: Bytes, pos: nat)
    requires pos + 4 <= |data|
    ensures I32(ReadI32(data, pos)) == data[pos..pos + 4]
  {
    Widths();
    BigEndianOnto(data[pos..pos + 4]);
  }

  lemma Glue(data: Bytes, i: nat, j: nat, k: nat)
    requires i <= j <= k <= |data|
    ensures data[i..j] + data[j..k] == data[i..k]
  {
  }

  // Every word of 1, 2, 4 or 8 bytes is the serialisation of a number.

  function ByteOf(b: Bytes): (v: i8)
    requires |b| == 1
    ensures I8(v) == b
  {
    Signed(b[0], 0x100)
  }

  function ShortOf(b: Bytes): (v: i16)
    requires |b| == 2
    ensures I16(v) == b
  {
    Widths();
    BigEndianOnto(b);
    Signed(FromBigEndian(b), 0x1_0000)
  }

  function IntOf(b: Bytes): (v: i32)
    requires |b| == 4
    ensures I32(v) == b
  {
    Widths();
    BigEndianOnto(b);
    Signed(FromBigEndian(b), TWO_32)
  }

  function LongOf(b: Bytes): (v: i64)
    requires |b| == 8
    ensures I64(v) == b
  {
    Widths();
    BigEndianOnto(b);
    Signed(FromBigEndian(b), TWO_64)
  }

  /** So is every stretch of `n` such words. */
  lemma {:induction false} WordsOf<T>(enc: T -> Bytes, of: Bytes --> T, width: nat, b: Bytes, n: nat)
    returns (xs: seq<T>)
    requires forall w: Bytes :: |w| == width ==> of.requires(w) && enc(of(w)) == w
    requires |b| == n * width
    ensures |xs| == n && Many(enc, xs) == b
  {
    if n == 0 {
      xs := [];
    } else {
      assert |b| == (n - 1) * width + width;
      var others := WordsOf(enc, of, width, b[width..], n - 1);
      xs := [of(b[..width])] + others;
      assert xs[1..] == others;
      assert b[..width] + b[width..] == b;
    }
  }

  lemma ArrayAt(tag: byte, data: Bytes, pos: nat) returns (t: Payload)
    requires SkipArray(tag, data, pos).Ok? && 11 <= tag <= 13
    ensures WellFormed(t) && NoByteArrays(t) && Tag(t) == tag
    ensures Serialize(t) == data[pos..SkipArray(tag, data, pos).value]
  {
    hide I8, I16, I32, I64, ReadI32, Many, ByteOf, IntOf, LongOf;
    var end := SkipArray(tag, data, pos).value;
    var count: nat := ReadI32(data, pos);
    var bytes := data[pos + 4..end];
    CountAt(data, pos);
    Glue(data, pos, pos + 4, end);
    if tag == 11 {
      var ints := WordsOf(I32, IntOf, 4, bytes, count);
      t := IntArray(ints);
    } else if tag == 12 {
      var longs := WordsOf(I64, LongOf, 8, bytes, count);
      t := LongArray(longs);
    } else {
      var values := WordsOf(I8, ByteOf, 1, bytes, count);
      t := ByteArray0D(values);
    }
  }

  lemma LeafAt(tag: byte, data: Bytes, pos: nat) returns (t: Payload)
    requires pos <= |data| && Walk(tag, data, pos).Ok? && tag != TAG_LIST && tag != TAG_COMPOUND
    ensures WellFormed(t) && NoByteArrays(t) && Tag(t) == tag
    ensures Serialize(t) == data[pos..Walk(tag, data, pos).value]
  {
    hide I8, I16, I32, I64, SkipArray, ByteOf, ShortOf, IntOf, LongOf;
    var end := Walk(tag, data, pos).value;
    var bytes := data[pos..end];
    if tag == 0 {
      t := Nothing;
    } else if tag == 1 {
      t := Byte(ByteOf(bytes));
    } else if tag == 2 {
      t := Short(ShortOf(bytes));
    } else if tag == 3 {
      t := Int(IntOf(bytes));
    } else if tag == 4 {
      t := Long(LongOf(bytes));
    } else if tag == 5 {
      t := Float(IntOf(bytes));
    } else if tag == 6 {
      t := Double(LongOf(bytes));
    } else if tag == 7 {
      t := ByteArray(bytes, []);
    } else if tag == 8 {
      var text := NameAt(data, pos);
      t := Text(text);
    } else {
      t := ArrayAt(tag, data, pos);
    }
  }

  lemma {:induction false} TreeAt(tag: byte, data: Bytes, pos: nat) returns (t: Payload)
    requires pos <= |data| && Walk(tag, data, pos).Ok?
    ensures WellFormed(t) && NoByteArrays(t) && Tag(t) == tag
    ensures Serialize(t) == data[pos..Walk(tag, data, pos).value]
    decreases |data| - pos, 1, 0
  {
    var end := Walk(tag, data, pos).value;
    if tag == TAG_LIST {
      var count := ReadI32(data, pos + 1);
      var elements := ElementsAt(data[pos], count, data, pos + 5);
      CountAt(data, pos + 1);
      Glue(data, pos + 1, pos + 5, end);
      Glue(data, pos, pos + 1, end);
      t := List(data[pos], count, elements);
    } else if tag == TAG_COMPOUND {
      var entries := EntriesAt(data, pos);
      t := Compound(entries);
    } else {
      t := LeafAt(tag, data, pos);
    }
  }

  lemma {:induction false} ElementsAt(tag: byte, count: int, data: Bytes, pos: nat) returns (es: seq<Payload>)
    requires pos <= |data| && WalkElements(tag, count, data, pos).Ok?
    ensures |es| == (if count < 0 then 0 else count) && WellFormedElements(tag, es) && NoByteArraysIn(es)
    ensures SerializeElements(tag, es) == data[pos..WalkElements(tag, count, data, pos).value]
    decreases |data| - pos, 2, count
  {
    if count <= 0 {
      es := [];
    } else {
      var next := Walk(tag, data, pos).value;
      var first := TreeAt(tag, data, pos);
      var others := ElementsAt(tag, count - 1, data, next);
      es := [first] + others;
      assert es[1..] == others;
      Glue(data, pos, next, WalkElements(tag, count, data, pos).value);
    }
  }

  lemma {:induction false} EntriesAt(data: Bytes, pos: nat) returns (es: seq<Entry>)
    requires pos <= |data| && WalkEntries(data, pos).Ok?
    ensures WellFormedEntries(es) && NoByteArraysUnder(es)
    ensures SerializeEntries(es) == data[pos..WalkEntries(data, pos).value]
    decreases |data| - pos, 0, 0
  {
    if data[pos] == TAG_END {
      es := [];
    } else {
      var end := WalkEntries(data, pos).value;
      var start := SkipName(data, pos + 1).value;
      var next := Walk(data[pos], data, start).value;
      var name := NameAt(data, pos + 1);
      var payload := TreeAt(data[pos], data, start);
      var others := EntriesAt(data, next);
      es := [Entry(name, payload)] + others;
      assert es[1..] == others;
      Glue(data, start, next, end);
      Glue(data, pos + 1, start, end);
      Glue(data, pos, pos + 1, end);
    }
  }

  // ---------------------------------------------------------------------------
  // The theorems about `read_nbt_compound`
  // ---------------------------------------------------------------------------

  /** `b` is one compound, of any shape, without byte-array content. */
  ghost predicate IsCompound(b: Bytes) {
    exists name, entries :: |name| < 0x1_0000 && WellFormedEntries(entries) && NoByteArraysUnder(entries)
                            && b == Root(name, entries)
  }

  /** NBT is self-delimiting: whatever follows a compound, exactly the compound is read. */
  lemma CompoundDelimited(name: Bytes, entries: seq<Entry>, tail: Bytes)
    requires |name| < 0x1_0000 && WellFormedEntries(entries) && NoByteArraysUnder(entries)
    ensures ParseNbt(Root(name, entries) + tail) == Ok((Root(name, entries), tail))
  {
    var root := Root(name, entries);
    var data := root + tail;
    assert data[0..0 + |root|] == root;
    HasParts(data, 0, [10], Named(name) + SerializeEntries(entries));
    HasParts(data, 1, Named(name), SerializeEntries(entries));
    SkipNamed(data, 1, name);
    WalkTreeEntries(entries, data, 1 + |Named(name)|);
    assert data[..|root|] == root && data[|root|..] == tail;
  }

  /** And nothing else is: what `read_nbt_compound` returns is always one such compound. */
  lemma ReadIsCompound(s: Bytes)
    requires ParseNbt(s).Ok?
    ensures IsCompound(ParseNbt(s).value.0)
  {
    var end := WalkNamed(s, 0).value;
    var start := SkipName(s, 1).value;
    var name := NameAt(s, 1);
    var entries := EntriesAt(s, start);
    Glue(s, 1, start, end);
    Glue(s, 0, 1, end);
    assert s[0..1] == [10];
    assert s[0..end] == s[..end];
    assert ParseNbt(s).value.0 == Root(name, entries);
  }

  /** The accepted inputs, exactly. */
  lemma ReadCharacterised(s: Bytes, nbt: Bytes, rest: Bytes)
    ensures ParseNbt(s) == Ok((nbt, rest)) <==> IsCompound(nbt) && s == nbt + rest
  {
    if ParseNbt(s) == Ok((nbt, rest)) {
      ReadIsCompound(s);
    }
    if IsCompound(nbt) && s == nbt + rest {
      var name, entries :| |name| < 0x1_0000 && WellFormedEntries(entries) && NoByteArraysUnder(entries)
                           && nbt == Root(name, entries);
      CompoundDelimited(name, entries, rest);
    }
  }

  // ---------------------------------------------------------------------------
  // Inputs that are refused for good
  // ---------------------------------------------------------------------------

  /** Entries of a compound that goes on. */
  function OpenEntries(es: seq<Entry>): Bytes
    requires WellFormedEntries(es)
    decreases es
  {
    if es == [] then []
    else [Tag(es[0].payload)] + (Named(es[0].name) + (Serialize(es[0].payload) + OpenEntries(es[1..])))
  }

  lemma {:induction false} WalkOpenEntries(es: seq<Entry>, data: Bytes, pos: nat)
    requires WellFormedEntries(es) && NoByteArraysUnder(es) && Has(data, pos, OpenEntries(es))
    ensures WalkEntries(data, pos) == WalkEntries(data, pos + |OpenEntries(es)|)
    decreases es
  {
    hide Walk, WalkEntries, Has, Serialize, WellFormed;
    if es == [] {
      HasWithin(data, pos, []);
    } else {
      var start, next := FirstEntry(es[0], OpenEntries(es[1..]), data, pos);
      WalkTree(es[0].payload, data, start);
      WalkOpenEntries(es[1..], data, next);
    }
  }

  lemma HasWithin(data: Bytes, pos: nat, b: Bytes)
    requires Has(data, pos, b)
    ensures pos + |b| <= |data|
  {
  }

  /** A compound that has begun well, and the entry that comes next. */
  function Begun(name: Bytes, es: seq<Entry>, tag: byte, entryName: Bytes, rest: Bytes): Bytes
    requires |name| < 0x1_0000 && |entryName| < 0x1_0000 && WellFormedEntries(es)
  {
    [10] + (Named(name) + (OpenEntries(es) + ([tag] + (Named(entryName) + rest))))
  }

  /** Such a compound stands or falls with the payload of that entry. */
  lemma BegunWalk(name: Bytes, es: seq<Entry>, tag: byte, entryName: Bytes, rest: Bytes) returns (start: nat)
    requires |name| < 0x1_0000 && |entryName| < 0x1_0000 && WellFormedEntries(es) && NoByteArraysUnder(es) && tag != 0
    ensures var data := Begun(name, es, tag, entryName, rest);
            && Has(data, start, rest)
            && (Walk(tag, data, start).Err? ==> ParseNbt(data) == Err(Walk(tag, data, start).error))
  {
    hide Walk, WalkEntries, SkipName, Has, Named, OpenEntries, ParseNbt, WellFormedEntries, NoByteArraysUnder;
    var data := Begun(name, es, tag, entryName, rest);
    var entry := [tag] + (Named(entryName) + rest);
    WholeHas(data);
    HasParts(data, 0, [10], Named(name) + (OpenEntries(es) + entry));
    HasParts(data, 1, Named(name), OpenEntries(es) + entry);
    SkipNamed(data, 1, name);
    var first := 3 + |name|;
    HasParts(data, first, OpenEntries(es), entry);
    WalkOpenEntries(es, data, first);
    var pos := first + |OpenEntries(es)|;
    assert rest + [] == rest;
    EntryParts(data, pos, tag, entryName, rest, []);
    start := pos + 3 + |entryName|;
    HasWithin(data, start, rest);
    if Walk(tag, data, start).Err? {
      EntryFails(data, pos, start);
      CompoundFails(data, first);
    }
  }

  lemma EntryFails(data: Bytes, pos: nat, start: nat)
    requires pos < |data| && data[pos] != 0 && SkipName(data, pos + 1) == Ok(start) && Walk(data[pos], data, start).Err?
    ensures WalkEntries(data, pos) == Err(Walk(data[pos], data, start).error)
  {
    hide Walk, SkipName;
  }

  lemma CompoundFails(data: Bytes, first: nat)
    requires data != [] && data[0] == 10 && SkipName(data, 1) == Ok(first) && WalkEntries(data, first).Err?
    ensures ParseNbt(data) == Err(WalkEntries(data, first).error)
  {
    hide WalkEntries, SkipName;
  }

  lemma WholeHas(data: Bytes)
    ensures Has(data, 0, data)
  {
  }

  /** Anything but a compound is refused at its first byte. */
  lemma NotACompound(s: Bytes)
    requires s != [] && s[0] != 10
    ensures ParseNbt(s) == Err(InvalidBoolean)
  {
  }

  /** An entry of unknown type is refused, whatever came before it and whatever comes after it. */
  lemma UnknownTagRefused(name: Bytes, es: seq<Entry>, tag: byte, entryName: Bytes, rest: Bytes)
    requires |name| < 0x1_0000 && |entryName| < 0x1_0000 && WellFormedEntries(es) && NoByteArraysUnder(es) && tag > 13
    ensures ParseNbt(Begun(name, es, tag, entryName, rest)) == Err(InvalidBoolean)
  {
    hide Has, Begun;
    var start := BegunWalk(name, es, tag, entryName, rest);
    HasWithin(Begun(name, es, tag, entryName, rest), start, rest);
  }

  /** An int or long array of negative length aborts. */
  lemma NegativeArrayAborts(name: Bytes, es: seq<Entry>, tag: byte, entryName: Bytes, count: i32, rest: Bytes)
    requires |name| < 0x1_0000 && |entryName| < 0x1_0000 && WellFormedEntries(es) && NoByteArraysUnder(es)
    requires (tag == 11 || tag == 12) && count < 0
    ensures ParseNbt(Begun(name, es, tag, entryName, I32(count) + rest)) == Err(Aborted)
  {
    hide Begun, I32, ReadI32;
    var data := Begun(name, es, tag, entryName, I32(count) + rest);
    var start := BegunWalk(name, es, tag, entryName, I32(count) + rest);
    HasParts(data, start, I32(count), rest);
    ReadCount(data, start, count);
  }

  // ---------------------------------------------------------------------------
  // Byte arrays
  // ---------------------------------------------------------------------------

  /** Wherever the payload stands and whatever follows it, the walker stops exactly at its end. */
  ghost predicate Delimited(t: Payload)
    requires WellFormed(t)
  {
    forall data, pos: nat :: Has(data, pos, Serialize(t)) ==> Walk(Tag(t), data, pos) == Ok(pos + |Serialize(t)|)
  }

  ghost predicate EveryPartDelimited(t: Payload)
    requires WellFormed(t)
    decreases t
  {
    && Delimited(t)
    && match t
       case List(tag, _, elements) => EveryElementDelimited(tag, elements)
       case Compound(entries) => EveryEntryDelimited(entries)
       case _ => true
  }

  ghost predicate EveryElementDelimited(tag: byte, es: seq<Payload>)
    requires WellFormedElements(tag, es)
    decreases es
  {
    es == [] || (EveryPartDelimited(es[0]) && EveryElementDelimited(tag, es[1..]))
  }

  ghost predicate EveryEntryDelimited(es: seq<Entry>)
    requires WellFormedEntries(es)
    decreases es
  {
    es == [] || (EveryPartDelimited(es[0].payload) && EveryEntryDelimited(es[1..]))
  }

  lemma TreeDelimited(t: Payload)
    requires WellFormed(t) && NoByteArrays(t)
    ensures Delimited(t)
  {
    forall data, pos: nat | Has(data, pos, Serialize(t)) ensures Walk(Tag(t), data, pos) == Ok(pos + |Serialize(t)|) {
      WalkTree(t, data, pos);
    }
  }

  /** Every part of a tree is skipped to its own end exactly when no tag-0x07 array in it has content. */
  lemma {:induction false} ByteArraysBreakDelimiting(t: Payload)
    requires WellFormed(t)
    ensures EveryPartDelimited(t) <==> NoByteArrays(t)
    decreases t
  {
    if NoByteArrays(t) {
      TreeDelimited(t);
    }
    match t {
      case List(tag, _, elements) => ByteArraysInElements(tag, elements);
      case Compound(entries) => ByteArraysInEntries(entries);
      case ByteArray(prefix, content) =>
        assert Has(prefix + content, 0, Serialize(t));
      case _ =>
    }
  }

  lemma {:induction false} ByteArraysInElements(tag: byte, es: seq<Payload>)
    requires WellFormedElements(tag, es)
    ensures EveryElementDelimited(tag, es) <==> NoByteArraysIn(es)
    decreases es
  {
    if es != [] {
      ByteArraysBreakDelimiting(es[0]);
      ByteArraysInElements(tag, es[1..]);
    }
  }

  lemma {:induction false} ByteArraysInEntries(es: seq<Entry>)
    requires WellFormedEntries(es)
    ensures EveryEntryDelimited(es) <==> NoByteArraysUnder(es)
    decreases es
  {
    if es != [] {
      ByteArraysBreakDelimiting(es[0].payload);
      ByteArraysInEntries(es[1..]);
    }
  }

  /** The compound { "a": the one-byte array 00 }, and its bytes. */
  const SHORT_ENTRY: Entry := Entry([0x61], ByteArray([0, 0, 0, 1], [0]))
  const SHORT_BYTES: Bytes := [0x0A, 0, 0, 0x07, 0, 1, 0x61, 0, 0, 0, 1, 0, 0]

  lemma SingleEntry(e: Entry)
    requires |e.name| < 0x1_0000 && WellFormed(e.payload) && !e.payload.Nothing?
    ensures WellFormedEntries([e])
    ensures SerializeEntries([e]) == [Tag(e.payload)] + (Named(e.name) + (Serialize(e.payload) + [0]))
  {
    hide WellFormed, Serialize, Named, Tag;
    assert [e][1..] == [];
  }

  lemma ShortSerialized()
    ensures WellFormedEntries([SHORT_ENTRY]) && Root([], [SHORT_ENTRY]) == SHORT_BYTES
  {
    hide WellFormedEntries, SerializeEntries, Named;
    SingleEntry(SHORT_ENTRY);
    assert Serialize(SHORT_ENTRY.payload) == [0, 0, 0, 1] + [0];
    ShortNames();
  }

  lemma ShortNames()
    ensures Named([]) == [0, 0] && Named([0x61]) == [0, 1, 0x61]
  {
  }

  /** It is read short: the content is taken for the end of the compound, and the real end stays in the input. */
  lemma ByteArrayReadShort()
    ensures WellFormedEntries([SHORT_ENTRY]) && Root([], [SHORT_ENTRY]) == SHORT_BYTES
    ensures ParseNbt(SHORT_BYTES) == Ok((SHORT_BYTES[..12], [0]))
  {
    hide WellFormedEntries, Root;
    ShortSerialized();
    var data := SHORT_BYTES;
    assert data[1..3] == [0, 0] && data[4..6] == [0, 1];
    assert ReadU16(data, 1) == 0 && ReadU16(data, 4) == 1;
    assert WalkEntries(data, 11) == Ok(12);
    assert WalkEntries(data, 3) == Ok(12);
    assert data[12..] == [0];
  }

  /** The compound with a single nameless array of seven bytes, 07 and six times 00. */
  const WHOLE_ENTRY: Entry := Entry([], ByteArray([0, 0, 0, 7], [7, 0, 0, 0, 0, 0, 0]))
  const WHOLE_BYTES: Bytes := [0x0A, 0, 0, 0x07, 0, 0, 0, 0, 0, 7, 7, 0, 0, 0, 0, 0, 0, 0]

  lemma WholeSerialized()
    ensures WellFormedEntries([WHOLE_ENTRY]) && Root([], [WHOLE_ENTRY]) == WHOLE_BYTES
  {
    hide WellFormedEntries, SerializeEntries, Named;
    SingleEntry(WHOLE_ENTRY);
    assert Serialize(WHOLE_ENTRY.payload) == [0, 0, 0, 7] + [7, 0, 0, 0, 0, 0, 0];
    ShortNames();
  }

  /** Not every such compound is read short: here the content happens to look like one more array, and the walker is
      back in step at the end. So for a compound as a whole the absence of byte arrays is sufficient, not necessary. */
  lemma ByteArrayReadWhole()
    ensures WellFormedEntries([WHOLE_ENTRY]) && Root([], [WHOLE_ENTRY]) == WHOLE_BYTES
    ensures !NoByteArraysUnder([WHOLE_ENTRY])
    ensures ParseNbt(WHOLE_BYTES) == Ok((WHOLE_BYTES, []))
  {
    hide WellFormedEntries, Root;
    WholeSerialized();
    var data := WHOLE_BYTES;
    assert data[1..3] == [0, 0] && data[4..6] == [0, 0] && data[11..13] == [0, 0];
    assert ReadU16(data, 1) == 0 && ReadU16(data, 4) == 0 && ReadU16(data, 11) == 0;
    assert WalkEntries(data, 17) == Ok(18);
    assert WalkEntries(data, 10) == Ok(18);
    assert WalkEntries(data, 3) == Ok(18);
    assert data[..18] == data && data[18..] == [];
  }
}
