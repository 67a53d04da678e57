/** The chest file (`container.rs`): chests of 27 slots by position, salvaged as far as the bytes go. */
module ChestFile {
  import opened Wire
  import opened Lists
  import opened SaveBytes
  import opened Slots

  const CHEST_SLOT_COUNT: nat := 27
  const MAGIC: Magic := [0x52, 0x43, 0x48, 0x53]
  const U16_MAX: nat := 0xffff

  datatype DimensionId = Overworld | Nether | End
  datatype ContainerPos = ContainerPos(dimension: DimensionId, x: i32, y: i32, z: i32)

  type Chest = s: seq<Slot> | |s| == CHEST_SLOT_COUNT witness seq(CHEST_SLOT_COUNT, _ => EMPTY_SLOT)

  function DimensionByte(d: DimensionId): byte {
    match d
    case Overworld => 0
    case Nether => 1
    case End => 2
  }

  function ByteDimension(b: byte): Option<DimensionId> {
    if b == 0 then Some(Overworld) else if b == 1 then Some(Nether) else if b == 2 then Some(End) else None
  }

  // ---------------------------------------------------------------------------
  // Slots
  // ---------------------------------------------------------------------------

  function StoredLength(nbt: Bytes): u16 {
    if |nbt| > U16_MAX then U16_MAX else |nbt|
  }

  /** `encode_slot_bytes`. */
  function StoredSlot(slot: Slot): Bytes {
    if !slot.present then [0]
    else [1] + (LEI32(slot.itemId) + ([Unsigned(slot.count, 0x100)]
         + (LE16(StoredLength(slot.nbt)) + slot.nbt[..StoredLength(slot.nbt)])))
  }

  /** `decode_slot_bytes`. */
  function ParseStoredSlot(s: Bytes): Read<Slot> {
    if s == [] then Err(Truncated)
    else if s[0] == 0 then Ok((EMPTY_SLOT, s[1..]))
    else if |s| < 1 + 7 then Err(Truncated)
    else
      var nbtLength := Word16(s[6..8]);
      var (nbt, rest) :- TakeField(s[8..], nbtLength);
      Ok((Slot(true, Int32(s[1..5]), Signed(s[5], 0x100), nbt), rest))
  }

  /** What the file keeps of a slot: nothing of an absent item, at most 65535 bytes of NBT of a present one. */
  function Kept(slot: Slot): Slot {
    if !slot.present then EMPTY_SLOT
    else slot.(nbt := if |slot.nbt| > 0xffff then slot.nbt[..0xffff] else slot.nbt)
  }

  /** A slot the file keeps whole. */
  predicate KeptWhole(slot: Slot) {
    if slot.present then |slot.nbt| <= 65535 else slot == EMPTY_SLOT
  }

  /** The first eight bytes of a present slot, taken apart. */
  lemma StoredHead(slot: Slot)
    requires slot.present
    ensures var b := StoredSlot(slot);
            var nbt := Kept(slot).nbt;
            && |b| == 8 + |nbt| && b[0] == 1 && b[8..] == nbt
            && Int32(b[1..5]) == slot.itemId && Signed(b[5], 0x100) == slot.count && Word16(b[6..8]) == |nbt|
  {
    hide Int32, LEI32, Word16, LE16;
    WordsBack();
    var b := StoredSlot(slot);
    assert b[1..5] == LEI32(slot.itemId);
    assert b[6..8] == LE16(StoredLength(slot.nbt));
  }

  lemma StoredSlotBack(slot: Slot, tail: Bytes)
    ensures ParseStoredSlot(StoredSlot(slot) + tail) == Ok((Kept(slot), tail))
  {
    hide Int32, Word16, Kept, StoredSlot;
    if slot.present {
      StoredHead(slot);
      var b, s := StoredSlot(slot), StoredSlot(slot) + tail;
      assert s[1..5] == b[1..5] && s[6..8] == b[6..8];
      assert s[8..] == b[8..] + tail;
      FieldFront(b[8..], tail);
      KeptPresent(slot);
    } else {
      AbsentSlot(slot);
      assert ([0] + tail)[1..] == tail;
    }
  }

  /** Any presence byte but zero means present. */
  lemma AnyPresence(b: byte, rest: Bytes)
    requires b != 0
    ensures ParseStoredSlot([b] + rest) == ParseStoredSlot([1] + rest)
  {
    var s, t := [b] + rest, [1] + rest;
    if |s| >= 8 {
      assert s[6..8] == t[6..8] && s[8..] == t[8..] && s[1..5] == t[1..5] && s[5] == t[5];
    }
  }

  lemma KeptPresent(slot: Slot)
    requires slot.present
    ensures Kept(slot) == Slot(true, slot.itemId, slot.count, Kept(slot).nbt)
  {
  }

  lemma AbsentSlot(slot: Slot)
    requires !slot.present
    ensures StoredSlot(slot) == [0] && Kept(slot) == EMPTY_SLOT
  {
  }

  lemma StoredSlotCut(slot: Slot, k: nat)
    requires k < |StoredSlot(slot)|
    ensures ParseStoredSlot(StoredSlot(slot)[..k]).Err?
  {
    hide Int32, Word16, Kept, StoredSlot;
    if slot.present {
      StoredHead(slot);
      var b, s := StoredSlot(slot), StoredSlot(slot)[..k];
      if k >= 8 {
        assert s[6..8] == b[6..8];
      }
    } else {
      AbsentSlot(slot);
    }
  }

  // ---------------------------------------------------------------------------
  // Records
  // ---------------------------------------------------------------------------

  type Entry = (ContainerPos, Chest)

  function PosBytes(p: ContainerPos): (b: Bytes)
    ensures |b| == 13
  {
    [DimensionByte(p.dimension)] + (LEI32(p.x) + (LEI32(p.y) + LEI32(p.z)))
  }

  function ParsePos(s: Bytes): Read<ContainerPos> {
    if s == [] || ByteDimension(s[0]).None? || |s| < 13 then Err(Truncated)
    else Ok((ContainerPos(ByteDimension(s[0]).value, Int32(s[1..5]), Int32(s[5..9]), Int32(s[9..13])), s[13..]))
  }

  function EntryBytes(e: Entry): Bytes {
    PosBytes(e.0) + Many(StoredSlot, e.1)
  }

  function ParseEntry(s: Bytes): Read<Entry> {
    var (pos, s1) :- ParsePos(s);
    var (slots, s2) :- ParseMany(ParseStoredSlot, CHEST_SLOT_COUNT, s1);
    Ok(((pos, slots), s2))
  }

  function KeptEntry(e: Entry): Entry {
    (e.0, Map(Kept, e.1))
  }

  lemma PosBack(p: ContainerPos, tail: Bytes)
    ensures ParsePos(PosBytes(p) + tail) == Ok((p, tail))
  {
    hide Int32, LEI32;
    WordsBack();
    var s := PosBytes(p) + tail;
    assert s[1..5] == LEI32(p.x) && s[5..9] == LEI32(p.y) && s[9..13] == LEI32(p.z) && s[13..] == tail;
  }

  /** The layout of a record: where each field stands. */
  lemma EntryLayout(e: Entry)
    ensures var b := EntryBytes(e);
            && |b| >= 13
            && b[0] == (match e.0.dimension case Overworld => 0 case Nether => 1 case End => 2)
            && b[1..5] == LEI32(e.0.x) && b[5..9] == LEI32(e.0.y) && b[9..13] == LEI32(e.0.z)
            && b[13..] == Many(StoredSlot, e.1)
  {
    hide LEI32;
    var h, b := PosBytes(e.0), EntryBytes(e);
    assert h[1..5] == LEI32(e.0.x) && h[5..9] == LEI32(e.0.y) && h[9..13] == LEI32(e.0.z);
    assert b[1..5] == h[1..5] && b[5..9] == h[5..9] && b[9..13] == h[9..13];
  }

  /** And of a slot. */
  lemma SlotLayout(slot: Slot)
    ensures var b := StoredSlot(slot);
            if !slot.present then b == [0]
            else var nbt := if |slot.nbt| > 65535 then slot.nbt[..65535] else slot.nbt;
                 && |b| == 8 + |nbt| && b[0] == 1 && b[1..5] == LEI32(slot.itemId)
                 && b[5] == (if slot.count < 0 then 256 + slot.count else slot.count)
                 && b[6..8] == LE16(|nbt|) && b[8..] == nbt
  {
    hide LEI32, LE16;
  }

  lemma SlotsBack(chest: Chest)
    ensures ReadsBack(StoredSlot, ParseStoredSlot, Kept, chest) && CutsFail(StoredSlot, ParseStoredSlot, chest)
  {
    hide StoredSlot, ParseStoredSlot, Kept;
    forall slot, tail | slot in chest ensures ParseStoredSlot(StoredSlot(slot) + tail) == Ok((Kept(slot), tail)) {
      StoredSlotBack(slot, tail);
    }
    forall slot, k: nat | slot in chest && k < |StoredSlot(slot)| ensures ParseStoredSlot(StoredSlot(slot)[..k]).Err? {
      StoredSlotCut(slot, k);
    }
  }

  lemma EntryBack(e: Entry, tail: Bytes)
    ensures ParseEntry(EntryBytes(e) + tail) == Ok((KeptEntry(e), tail))
  {
    hide PosBytes, ParsePos, StoredSlot, ParseStoredSlot, Kept;
    var slots := Many(StoredSlot, e.1);
    assert EntryBytes(e) + tail == PosBytes(e.0) + (slots + tail);
    PosBack(e.0, slots + tail);
    SlotsBack(e.1);
    ManyReadBack(StoredSlot, ParseStoredSlot, Kept, e.1, tail);
  }

  lemma EntryCut(e: Entry, k: nat)
    requires k < |EntryBytes(e)|
    ensures ParseEntry(EntryBytes(e)[..k]).Err?
  {
    hide PosBytes, StoredSlot, ParseStoredSlot, Kept, Int32;
    var slots := Many(StoredSlot, e.1);
    if k >= 13 {
      assert EntryBytes(e)[..k] == PosBytes(e.0) + slots[..k - 13];
      PosBack(e.0, slots[..k - 13]);
      SlotsBack(e.1);
      ManyCutFails(StoredSlot, ParseStoredSlot, Kept, e.1, k - 13);
    }
  }

  // ---------------------------------------------------------------------------
  // The file
  // ---------------------------------------------------------------------------

  /** `serialize_chests`, with the entries in the order the map yields them. */
  function FileBytes(entries: seq<Entry>): Bytes {
    RecordFile(MAGIC, EntryBytes, entries)
  }

  /** A file the writer may produce: the order in which the map is visited is the implementation's choice. */
  ghost predicate IsFileOf(bytes: Bytes, store: map<ContainerPos, Chest>) {
    exists entries :: Enumerates(entries, store) && bytes == FileBytes(entries)
  }

  /** `deserialize_chests`: a bad header gives nothing, a bad record ends the salvage. */
  function Load(bytes: Bytes): map<ContainerPos, Chest> {
    if |bytes| < 12 || bytes[0..4] != MAGIC || Word32(bytes[4..8]) != FORMAT_VERSION then map[]
    else FromPairs(ParseLeading(ParseEntry, Word32(bytes[8..12]), bytes[12..]))
  }

  lemma EntriesBack(entries: seq<Entry>)
    ensures ReadsBack(EntryBytes, ParseEntry, KeptEntry, entries) && CutsFail(EntryBytes, ParseEntry, entries)
  {
    hide EntryBytes, ParseEntry, KeptEntry;
    forall e, tail | e in entries ensures ParseEntry(EntryBytes(e) + tail) == Ok((KeptEntry(e), tail)) {
      EntryBack(e, tail);
    }
    forall e, k: nat | e in entries && k < |EntryBytes(e)| ensures ParseEntry(EntryBytes(e)[..k]).Err? {
      EntryCut(e, k);
    }
  }

  /** `loaded` holds exactly the first `whole` of the entries, as far as the file keeps them. */
  ghost predicate HoldsFirst(loaded: map<ContainerPos, Chest>, entries: seq<Entry>, whole: nat)
    requires whole <= |entries|
  {
    && (forall i :: 0 <= i < whole ==>
          entries[i].0 in loaded && loaded[entries[i].0] == Map(Kept, entries[i].1))
    && (forall pos :: pos in loaded ==> exists i :: 0 <= i < whole && entries[i].0 == pos)
  }

  /** Salvage: a chest file cut anywhere gives back exactly the chests whose records lie wholly before the cut; cut
      inside the header it gives nothing. */
  lemma Salvage(store: map<ContainerPos, Chest>, entries: seq<Entry>, whole: nat, k: nat)
    requires Enumerates(entries, store) && |store| <= U32_MAX
    requires k <= |FileBytes(entries)| && whole <= |entries|
    requires k >= 12 ==> |FileBytes(entries[..whole])| <= k
    requires k >= 12 && whole < |entries| ==> k < |FileBytes(entries[..whole + 1])|
    ensures HoldsFirst(Load(FileBytes(entries)[..k]), entries, if k < 12 then 0 else whole)
  {
    hide Header, EntryBytes, ParseEntry, KeptEntry, HoldsFirst, Map, Many, ParseLeading, FromPairs, Word32;
    if k < 12 {
      NothingLoaded(FileBytes(entries)[..k], entries);
    } else {
      var records := Many(EntryBytes, entries);
      assert FileBytes(entries)[..k] == Header(MAGIC, |entries|) + records[..k - 12];
      HeaderFields(MAGIC, |entries|, records[..k - 12]);
      EntriesBack(entries);
      LeadingReadBack(EntryBytes, ParseEntry, KeptEntry, entries, whole, k - 12);
      FirstLoaded(entries, whole);
    }
  }

  lemma NothingLoaded(bytes: Bytes, entries: seq<Entry>)
    requires |bytes| < 12
    ensures HoldsFirst(Load(bytes), entries, 0)
  {
  }

  /** A file with another magic or another version gives nothing. */
  lemma LoadRefused(other: Magic, version: u32, rest: Bytes)
    requires other != [0x52, 0x43, 0x48, 0x53] && version != 1
    ensures Load(other + rest) == map[]
    ensures Load([0x52, 0x43, 0x48, 0x53] + (LE32(version) + rest)) == map[]
  {
    hide Word32, LE32, FromPairs, ParseEntry;
    WordsBack();
    if |rest| >= 8 {
      assert (other + rest)[0..4] == other;
    }
    var s := [0x52, 0x43, 0x48, 0x53] + (LE32(version) + rest);
    if |rest| >= 4 {
      assert s[4..8] == LE32(version);
    }
  }

  lemma FirstLoaded(entries: seq<Entry>, whole: nat)
    requires DistinctKeys(entries) && whole <= |entries|
    ensures HoldsFirst(FromPairs(Map(KeptEntry, entries[..whole])), entries, whole)
  {
    hide FromPairs, Kept;
    var kept := Map(KeptEntry, entries[..whole]);
    assert forall i :: 0 <= i < whole ==> kept[i].0 == entries[i].0 && kept[i].1 == Map(Kept, entries[i].1);
    FromPairsEntries(kept);
  }

  /** The whole file gives back the whole store, slot by slot as far as the file keeps it. */
  lemma WholeFile(store: map<ContainerPos, Chest>, file: Bytes)
    requires IsFileOf(file, store) && |store| <= U32_MAX
    ensures var loaded := Load(file);
            && loaded.Keys == store.Keys
            && forall pos :: pos in store ==> loaded[pos] == Map(Kept, store[pos])
  {
    hide FileBytes, Load, Kept;
    var entries :| Enumerates(entries, store) && file == FileBytes(entries);
    SalvageWhole(store, entries);
    assert HoldsFirst(Load(file), entries, |entries|);
  }

  /** So the store survives exactly when every slot is kept whole and `u32` can count the chests. */
  lemma StoreRestored(store: map<ContainerPos, Chest>, file: Bytes)
    requires IsFileOf(file, store)
    ensures Load(file) == store
       <==> |store| <= U32_MAX && forall pos, slot :: pos in store && slot in store[pos] ==> KeptWhole(slot)
  {
    hide FileBytes, Load, IsFileOf;
    LoadBounded(file);
    if |store| <= U32_MAX {
      WholeFile(store, file);
      forall pos | pos in store
        ensures Map(Kept, store[pos]) == store[pos] <==> forall slot :: slot in store[pos] ==> KeptWhole(slot) {
        ChestRestored(store[pos]);
      }
      assert Load(file) == store <==> forall pos :: pos in store ==> Load(file)[pos] == store[pos];
    }
  }

  lemma ChestRestored(chest: Chest)
    ensures Map(Kept, chest) == chest <==> forall slot :: slot in chest ==> KeptWhole(slot)
  {
    hide Kept, KeptWhole;
    forall slot ensures Kept(slot) == slot <==> KeptWhole(slot) {
      SlotRestored(slot);
    }
    var kept := Map(Kept, chest);
    if kept == chest {
      forall slot | slot in chest ensures KeptWhole(slot) {
        var i :| 0 <= i < |chest| && chest[i] == slot;
        assert kept[i] == Kept(slot);
      }
    } else {
      var i :| 0 <= i < |chest| && kept[i] != chest[i];
      assert chest[i] in chest;
    }
  }

  lemma SlotRestored(slot: Slot)
    ensures Kept(slot) == slot <==> KeptWhole(slot)
  {
  }

  /** No file yields more chests than its count field can say. */
  lemma LoadBounded(file: Bytes)
    ensures |Load(file)| <= U32_MAX
  {
    hide Word32, FromPairs, ParseEntry;
    if |file| >= 12 {
      var entries := ParseLeading(ParseEntry, Word32(file[8..12]), file[12..]);
      LeadingBounded(ParseEntry, Word32(file[8..12]), file[12..]);
      FromPairsOrigin(entries);
    }
  }

  lemma SalvageWhole(store: map<ContainerPos, Chest>, entries: seq<Entry>)
    requires Enumerates(entries, store) && |store| <= U32_MAX
    ensures HoldsFirst(Load(FileBytes(entries)), entries, |entries|)
  {
    hide Header, EntryBytes, Load, HoldsFirst;
    var file := FileBytes(entries);
    assert entries[..|entries|] == entries;
    assert file[..|file|] == file;
    Salvage(store, entries, |entries|, |file|);
  }

  // ---------------------------------------------------------------------------
  // The methods of the source
  // ---------------------------------------------------------------------------

  method EncodeSlotBytes(slot: Slot, buf: Output)
    modifies buf
    ensures buf.bytes == old(buf.bytes) + StoredSlot(slot)
  {
    hide LEI32, LE16;
    if slot.present {
      buf.bytes := buf.bytes + [1];
      buf.bytes := buf.bytes + LEI32(slot.itemId);
      buf.bytes := buf.bytes + [Unsigned(slot.count, 0x100)];
      var length := StoredLength(slot.nbt);
      buf.bytes := buf.bytes + LE16(length);
      buf.bytes := buf.bytes + slot.nbt[..length];
    } else {
      buf.bytes := buf.bytes + [0];
    }
  }

  method DecodeSlotBytes(input: Input) returns (r: Result<Slot, Truncated>)
    modifies input
    ensures match ParseStoredSlot(old(input.rest))
            case Ok((slot, rest)) => r == Ok(slot) && input.rest == rest
            case Err(e) => r == Err(e)
  {
    hide Int32, Word16;
    ghost var s := input.rest;
    if input.rest == [] {
      return Err(Truncated);
    }
    var present := input.rest[0];
    input.rest := input.rest[1..];
    if present == 0 {
      return Ok(EMPTY_SLOT);
    }
    if |input.rest| < 4 + 1 + 2 {
      return Err(Truncated);
    }
    assert input.rest[0..4] == s[1..5] && input.rest[5..7] == s[6..8] && input.rest[7..] == s[8..];
    var itemId := Int32(input.rest[0..4]);
    var count := Signed(input.rest[4], 0x100);
    var length := Word16(input.rest[5..7]);
    input.rest := input.rest[7..];
    if |input.rest| < length {
      return Err(Truncated);
    }
    var nbt := input.rest[..length];
    input.rest := input.rest[length..];
    return Ok(Slot(true, itemId, count, nbt));
  }

  method EncodeEntry(pos: ContainerPos, chest: Chest, buf: Output)
    modifies buf
    ensures buf.bytes == old(buf.bytes) + EntryBytes((pos, chest))
  {
    hide StoredSlot, LEI32;
    buf.bytes := buf.bytes + [DimensionByte(pos.dimension)];
    buf.bytes := buf.bytes + LEI32(pos.x);
    buf.bytes := buf.bytes + LEI32(pos.y);
    buf.bytes := buf.bytes + LEI32(pos.z);
    ghost var head := buf.bytes;
    for i := 0 to |chest|
      invariant buf.bytes == head + Many(StoredSlot, chest[..i])
    {
      EncodeSlotBytes(chest[i], buf);
      ManyNext(StoredSlot, chest, i);
    }
    assert chest[..|chest|] == chest;
  }

  method SerializeChests(store: map<ContainerPos, Chest>) returns (bytes: Bytes)
    ensures IsFileOf(bytes, store)
  {
    hide EntryBytes, Header, Visited, Enumerates, Many;
    var buf := new Output();
    buf.bytes := Header(MAGIC, |store|);
    var remaining := store.Keys;
    ghost var entries: seq<Entry> := [];
    VisitNone(store);
    ManyNone(EntryBytes);
    while remaining != {}
      invariant remaining <= store.Keys && Visited(entries, store, remaining)
      invariant buf.bytes == Header(MAGIC, |store|) + Many(EntryBytes, entries)
      decreases |remaining|
    {
      var pos :| pos in remaining;
      EncodeEntry(pos, store[pos], buf);
      ManyAppend(EntryBytes, entries, (pos, store[pos]));
      VisitOne(entries, store, remaining, pos);
      entries := entries + [(pos, store[pos])];
      remaining := remaining - {pos};
    }
    VisitAll(entries, store);
    Enumerated(entries, store);
    bytes := buf.bytes;
  }

  method DecodeEntry(input: Input) returns (r: Result<Entry, Truncated>)
    modifies input
    ensures match ParseEntry(old(input.rest))
            case Ok((e, rest)) => r == Ok(e) && input.rest == rest
            case Err(e) => r == Err(e)
  {
    hide Int32, ParseStoredSlot;
    ghost var s := input.rest;
    if input.rest == [] {
      return Err(Truncated);
    }
    var dimension := ByteDimension(input.rest[0]);
    if dimension.None? {
      return Err(Truncated);
    }
    input.rest := input.rest[1..];
    if |input.rest| < 12 {
      return Err(Truncated);
    }
    assert input.rest[0..4] == s[1..5] && input.rest[4..8] == s[5..9] && input.rest[8..12] == s[9..13];
    assert input.rest[12..] == s[13..];
    var pos := ContainerPos(dimension.value, Int32(input.rest[0..4]), Int32(input.rest[4..8]),
                            Int32(input.rest[8..12]));
    input.rest := input.rest[12..];
    assert ParsePos(s) == Ok((pos, input.rest));
    var chest :- DecodeChest(input);
    return Ok((pos, chest));
  }

  method DecodeChest(input: Input) returns (r: Result<Chest, Truncated>)
    modifies input
    ensures match ParseMany(ParseStoredSlot, CHEST_SLOT_COUNT, old(input.rest))
            case Ok((chest, rest)) => r == Ok(chest) && input.rest == rest
            case Err(e) => r == Err(e)
  {
    hide ParseStoredSlot;
    var slots := [];
    ReadNone(ParseStoredSlot, CHEST_SLOT_COUNT, input.rest);
    for i := 0 to CHEST_SLOT_COUNT
      invariant |slots| == i
      invariant ReadSoFar(ParseStoredSlot, CHEST_SLOT_COUNT, old(input.rest), slots, input.rest)
    {
      ReadOne(ParseStoredSlot, CHEST_SLOT_COUNT, old(input.rest), slots, input.rest);
      var slot :- DecodeSlotBytes(input);
      slots := slots + [slot];
    }
    ReadAll(ParseStoredSlot, CHEST_SLOT_COUNT, old(input.rest), slots, input.rest);
    return Ok(slots);
  }

  method DeserializeChests(bytes: Bytes) returns (store: map<ContainerPos, Chest>)
    ensures store == Load(bytes)
  {
    hide Word32, ParseEntry, FromPairs;
    store := map[];
    if |bytes| < 12 || bytes[0..4] != MAGIC {
      return;
    }
    if Word32(bytes[4..8]) != FORMAT_VERSION {
      return;
    }
    var count := Word32(bytes[8..12]);
    var input := new Input(bytes[12..]);
    ghost var done: seq<Entry> := [];
    ghost var all := ParseLeading(ParseEntry, count, bytes[12..]);
    NoPairs<ContainerPos, Chest>();
    assert [] + all == all;
    for i := 0 to count
      invariant store == FromPairs(done)
      invariant done + ParseLeading(ParseEntry, count - i, input.rest) == all
    {
      ghost var rest := input.rest;
      var entry := DecodeEntry(input);
      if entry.Err? {
        assert done + [] == done;
        return;
      }
      OneMorePair(done, entry.value);
      LeadingStep(done, count - i, rest);
      store := store[entry.value.0 := entry.value.1];
      done := done + [entry.value];
    }
    assert done + [] == done;
  }

  lemma LeadingStep(done: seq<Entry>, n: nat, s: Bytes)
    requires n > 0 && ParseEntry(s).Ok?
    ensures var (e, rest) := ParseEntry(s).value;
            done + ParseLeading(ParseEntry, n, s) == done + [e] + ParseLeading(ParseEntry, n - 1, rest)
  {
    hide ParseEntry;
  }
}
