/** The player file (`persist.rs`): a strict file of records that end in a counted list of variable-length slots. */
module PlayerFile {
  import opened Wire
  import opened Lists
  import opened SaveBytes
  import opened Primitives

  const MAGIC: Magic := [0x52, 0x42, 0x50, 0x44]
  const HEAD_LENGTH: nat := 66

  /** One stored inventory slot. */
  datatype Stack = Stack(present: bool, itemId: i32, count: i8, nbt: Bytes)

  /** The floating-point fields are their bit patterns. */
  datatype PlayerData = PlayerData(x: u64, y: u64, z: u64, yaw: u32, pitch: u32, gamemode: byte, heldSlot: byte,
                                   health: u32, foodSaturation: u32, food: i32, slots: seq<Stack>)

  type Player = (Uuid, PlayerData)

  function Count32(n: nat): u32 {
    if n > U32_MAX then U32_MAX else n
  }

  // ---------------------------------------------------------------------------
  // Slots
  // ---------------------------------------------------------------------------

  function StackHead(k: Stack): (b: Bytes)
    ensures |b| == 10
  {
    [if k.present then 1 else 0] + (LEI32(k.itemId) + ([Unsigned(k.count, 0x100)] + LE32(Count32(|k.nbt|))))
  }

  function StackBytes(k: Stack): Bytes {
    StackHead(k) + k.nbt
  }

  function ParseStack(s: Bytes): Read<Stack> {
    if |s| < 1 + 4 + 1 + 4 then Err(Truncated)
    else
      var (nbt, rest) :- TakeField(s[10..], Word32(s[6..10]));
      Ok((Stack(s[0] != 0, Int32(s[1..5]), Signed(s[5], 0x100), nbt), rest))
  }

  predicate StackFits(k: Stack) {
    |k.nbt| <= U32_MAX
  }

  lemma StackFields(k: Stack, s: Bytes)
    requires |s| >= 10 && s[..10] == StackHead(k)
    ensures (s[0] != 0) == k.present && Int32(s[1..5]) == k.itemId && Signed(s[5], 0x100) == k.count
    ensures Word32(s[6..10]) == Count32(|k.nbt|)
  {
    hide Int32, LEI32, Word32, LE32;
    WordsBack();
    var b := s[..10];
    assert b[1..5] == LEI32(k.itemId) && b[6..10] == LE32(Count32(|k.nbt|));
    assert s[1..5] == b[1..5] && s[6..10] == b[6..10] && s[0] == b[0] && s[5] == b[5];
  }

  lemma StackBack(k: Stack, tail: Bytes)
    requires StackFits(k)
    ensures ParseStack(StackBytes(k) + tail) == Ok((k, tail))
  {
    hide Int32, Word32, StackHead;
    var s := StackBytes(k) + tail;
    assert s[..10] == StackHead(k) && s[10..] == k.nbt + tail;
    StackFields(k, s);
    FieldFront(k.nbt, tail);
  }

  /** Any presence byte but zero means present. */
  lemma AnyPresence(b: byte, rest: Bytes)
    requires b != 0
    ensures ParseStack([b] + rest) == ParseStack([1] + rest)
  {
    var s, t := [b] + rest, [1] + rest;
    if |s| >= 10 {
      assert s[6..10] == t[6..10] && s[10..] == t[10..] && s[1..5] == t[1..5] && s[5] == t[5];
    }
  }

  lemma StackCut(k: Stack, cut: nat)
    requires StackFits(k) && cut < |StackBytes(k)|
    ensures ParseStack(StackBytes(k)[..cut]).Err?
  {
    hide Int32, Word32, StackHead;
    if cut >= 10 {
      var s := StackBytes(k)[..cut];
      assert s[..10] == StackHead(k);
      StackFields(k, s);
    }
  }

  // ---------------------------------------------------------------------------
  // Records
  // ---------------------------------------------------------------------------

  function HeadBytes(p: Player): (b: Bytes)
    ensures |b| == HEAD_LENGTH
  {
    UuidBytes(p.0) + (LE64(p.1.x) + (LE64(p.1.y) + (LE64(p.1.z) + (LE32(p.1.yaw) + (LE32(p.1.pitch)
    + ([p.1.gamemode, p.1.heldSlot] + (LE32(p.1.health) + (LE32(p.1.foodSaturation) + (LEI32(p.1.food)
    + LE32(Count32(|p.1.slots|)))))))))))
  }

  function PlayerBytes(p: Player): Bytes {
    HeadBytes(p) + Many(StackBytes, p.1.slots)
  }

  function UuidOf(b: Bytes): Uuid
    requires |b| == 16
  {
    ParseUuid(b).value.0
  }

  /** The 66 bytes in front of the slots: whose record it is, the data without its slots, and their number. */
  function ParseHead(h: Bytes): (Uuid, PlayerData, u32)
    requires |h| == HEAD_LENGTH
  {
    (UuidOf(h[0..16]),
     PlayerData(Word64(h[16..24]), Word64(h[24..32]), Word64(h[32..40]), Word32(h[40..44]), Word32(h[44..48]),
                h[48], h[49], Word32(h[50..54]), Word32(h[54..58]), Int32(h[58..62]), []),
     Word32(h[62..66]))
  }

  function ParsePlayer(s: Bytes): Read<Player> {
    var (h, s1) :- TakeField(s, HEAD_LENGTH);
    var (uuid, data, slotCount) := ParseHead(h);
    var (slots, s2) :- ParseMany(ParseStack, slotCount, s1);
    Ok(((uuid, data.(slots := slots)), s2))
  }

  predicate PlayerFits(p: PlayerData) {
    |p.slots| <= U32_MAX && forall k :: k in p.slots ==> StackFits(k)
  }

  lemma HeadBack(p: Player)
    ensures ParseHead(HeadBytes(p)) == (p.0, p.1.(slots := []), Count32(|p.1.slots|))
  {
    hide Int32, LEI32, Word32, LE32, Word64, LE64, UuidBytes, ParseUuid;
    WordsBack();
    UuidRoundTrip(p.0, []);
    assert UuidBytes(p.0) + [] == UuidBytes(p.0);
    var h := HeadBytes(p);
    assert h[0..16] == UuidBytes(p.0);
    assert h[16..24] == LE64(p.1.x) && h[24..32] == LE64(p.1.y) && h[32..40] == LE64(p.1.z);
    assert h[40..44] == LE32(p.1.yaw) && h[44..48] == LE32(p.1.pitch);
    assert h[48] == p.1.gamemode && h[49] == p.1.heldSlot;
    assert h[50..54] == LE32(p.1.health) && h[54..58] == LE32(p.1.foodSaturation) && h[58..62] == LEI32(p.1.food);
    assert h[62..66] == LE32(Count32(|p.1.slots|));
  }

  /** The layout of a record: where each field stands. */
  lemma PlayerLayout(p: Player)
    ensures var b := PlayerBytes(p);
            && |b| >= 66 && b[0..16] == UuidBytes(p.0)
            && b[16..24] == LE64(p.1.x) && b[24..32] == LE64(p.1.y) && b[32..40] == LE64(p.1.z)
            && b[40..44] == LE32(p.1.yaw) && b[44..48] == LE32(p.1.pitch)
            && b[48] == p.1.gamemode && b[49] == p.1.heldSlot
            && b[50..54] == LE32(p.1.health) && b[54..58] == LE32(p.1.foodSaturation) && b[58..62] == LEI32(p.1.food)
            && (|p.1.slots| <= U32_MAX ==> b[62..66] == LE32(|p.1.slots|))
            && b[66..] == Many(StackBytes, p.1.slots)
  {
    hide LEI32, LE32, LE64, UuidBytes;
    var h, b := HeadBytes(p), PlayerBytes(p);
    assert h[0..16] == UuidBytes(p.0);
    assert h[16..24] == LE64(p.1.x) && h[24..32] == LE64(p.1.y) && h[32..40] == LE64(p.1.z);
    assert h[40..44] == LE32(p.1.yaw) && h[44..48] == LE32(p.1.pitch);
    assert h[50..54] == LE32(p.1.health) && h[54..58] == LE32(p.1.foodSaturation) && h[58..62] == LEI32(p.1.food);
    assert h[62..66] == LE32(Count32(|p.1.slots|));
    assert b[..66] == h;
    HeadSlices(b, h);
  }

  lemma HeadSlices(b: Bytes, h: Bytes)
    requires |b| >= 66 && b[..66] == h
    ensures forall i, j :: 0 <= i <= j <= 66 ==> b[i..j] == h[i..j]
  {
    forall i, j | 0 <= i <= j <= 66 ensures b[i..j] == h[i..j] {
      assert b[..66][i..j] == b[i..j];
    }
  }

  /** And of a slot. */
  lemma StackLayout(k: Stack)
    requires StackFits(k)
    ensures var b := StackBytes(k);
            && |b| == 10 + |k.nbt| && b[0] == (if k.present then 1 else 0) && b[1..5] == LEI32(k.itemId)
            && b[5] == (if k.count < 0 then 256 + k.count else k.count) && b[6..10] == LE32(|k.nbt|) && b[10..] == k.nbt
  {
    hide LEI32, LE32;
  }

  lemma SlotsBack(p: PlayerData)
    requires PlayerFits(p)
    ensures ReadsExactly(StackBytes, ParseStack, p.slots) && CutsFail(StackBytes, ParseStack, p.slots)
  {
    hide StackBytes, ParseStack, StackFits;
    forall k, tail | k in p.slots ensures ParseStack(StackBytes(k) + tail) == Ok((k, tail)) {
      StackBack(k, tail);
    }
    forall k, cut: nat | k in p.slots && cut < |StackBytes(k)| ensures ParseStack(StackBytes(k)[..cut]).Err? {
      StackCut(k, cut);
    }
  }

  lemma PlayerBack(p: Player, tail: Bytes)
    requires PlayerFits(p.1)
    ensures ParsePlayer(PlayerBytes(p) + tail) == Ok((p, tail))
  {
    hide HeadBytes, ParseHead, StackBytes, ParseStack, StackFits;
    var slots := Many(StackBytes, p.1.slots);
    assert PlayerBytes(p) + tail == HeadBytes(p) + (slots + tail);
    FieldFront(HeadBytes(p), slots + tail);
    HeadBack(p);
    SlotsBack(p.1);
    ManyExact(StackBytes, ParseStack, p.1.slots, tail);
  }

  lemma PlayerCut(p: Player, cut: nat)
    requires PlayerFits(p.1) && cut < |PlayerBytes(p)|
    ensures ParsePlayer(PlayerBytes(p)[..cut]).Err?
  {
    hide HeadBytes, ParseHead, StackBytes, ParseStack, StackFits;
    if cut >= HEAD_LENGTH {
      var slots := Many(StackBytes, p.1.slots);
      assert PlayerBytes(p)[..cut] == HeadBytes(p) + slots[..cut - HEAD_LENGTH];
      FieldFront(HeadBytes(p), slots[..cut - HEAD_LENGTH]);
      HeadBack(p);
      SlotsBack(p.1);
      ManyCutFails(StackBytes, ParseStack, (k: Stack) => k, p.1.slots, cut - HEAD_LENGTH);
    }
  }

  lemma ParsedStackFits(s: Bytes)
    requires ParseStack(s).Ok?
    ensures StackFits(ParseStack(s).value.0)
  {
  }

  lemma ParsedPlayerFits(s: Bytes)
    requires ParsePlayer(s).Ok?
    ensures PlayerFits(ParsePlayer(s).value.0.1)
  {
    hide ParseHead, ParseStack, StackFits;
    var (h, s1) := TakeField(s, HEAD_LENGTH).value;
    forall b | ParseStack(b).Ok? ensures StackFits(ParseStack(b).value.0) {
      ParsedStackFits(b);
    }
    ManyAll(ParseStack, ParseHead(h).2, s1, StackFits);
  }

  // ---------------------------------------------------------------------------
  // The file
  // ---------------------------------------------------------------------------

  function FileBytes(entries: seq<Player>): Bytes {
    RecordFile(MAGIC, PlayerBytes, entries)
  }

  /** A file the writer may produce: the order in which the map is visited is the implementation's choice. */
  ghost predicate IsFileOf(bytes: Bytes, players: map<Uuid, PlayerData>) {
    exists entries :: Enumerates(entries, players) && bytes == FileBytes(entries)
  }

  function Load(data: Bytes): Result<map<Uuid, PlayerData>, PersistError> {
    LoadRecords(MAGIC, ParsePlayer, data)
  }

  /** Every length and count of the store fits its `u32` field. */
  ghost predicate Storable(players: map<Uuid, PlayerData>) {
    |players| <= U32_MAX && forall u :: u in players ==> PlayerFits(players[u])
  }

  lemma PlayersBack(players: map<Uuid, PlayerData>, entries: seq<Player>)
    requires Enumerates(entries, players) && Storable(players)
    ensures ReadsExactly(PlayerBytes, ParsePlayer, entries) && CutsFail(PlayerBytes, ParsePlayer, entries)
  {
    hide PlayerBytes, ParsePlayer, PlayerFits;
    forall p | p in entries ensures PlayerFits(p.1) {
      var i :| 0 <= i < |entries| && entries[i] == p;
      assert players[entries[i].0] == entries[i].1;
    }
    forall p, tail | p in entries ensures ParsePlayer(PlayerBytes(p) + tail) == Ok((p, tail)) {
      PlayerBack(p, tail);
    }
    forall p, cut: nat | p in entries && cut < |PlayerBytes(p)| ensures ParsePlayer(PlayerBytes(p)[..cut]).Err? {
      PlayerCut(p, cut);
    }
  }

  /** Whatever a file yields could have been stored. */
  lemma LoadedStorable(data: Bytes)
    requires Load(data).Ok?
    ensures Storable(Load(data).value)
  {
    hide ParsePlayer, PlayerFits, Word32, FromPairs;
    RecordsBounded(MAGIC, ParsePlayer, data);
    var n: nat, s := Word32(data[8..12]), data[12..];
    var entries := ParseMany(ParsePlayer, n, s).value.0;
    forall b | ParsePlayer(b).Ok? ensures PlayerFits(ParsePlayer(b).value.0.1) {
      ParsedPlayerFits(b);
    }
    ManyAll(ParsePlayer, n, s, (p: Player) => PlayerFits(p.1));
    FromPairsOrigin(entries);
    forall u | u in Load(data).value ensures PlayerFits(Load(data).value[u]) {
      var i :| 0 <= i < |entries| && entries[i] == (u, FromPairs(entries)[u]);
      assert entries[i] in entries;
    }
  }

  /** The players survive the file, in any order and whatever follows, exactly when they are storable. */
  lemma FileRoundTrip(players: map<Uuid, PlayerData>, file: Bytes, tail: Bytes)
    requires IsFileOf(file, players)
    ensures Load(file + tail) == Ok(players) <==> Storable(players)
  {
    hide PlayerBytes, ParsePlayer, LoadRecords, RecordFile, PlayerFits;
    var entries :| Enumerates(entries, players) && file == FileBytes(entries);
    if Storable(players) {
      PlayersBack(players, entries);
      RecordsBack(MAGIC, PlayerBytes, ParsePlayer, entries, players, tail);
    }
    if Load(file + tail) == Ok(players) {
      LoadedStorable(file + tail);
    }
  }

  /** A file that lost any part of its end is corrupt. */
  lemma FileCut(players: map<Uuid, PlayerData>, file: Bytes, k: nat)
    requires IsFileOf(file, players) && Storable(players) && k < |file|
    ensures Load(file[..k]) == Err(CorruptFile)
  {
    hide PlayerBytes, ParsePlayer, LoadRecords, RecordFile, PlayerFits;
    var entries :| Enumerates(entries, players) && file == FileBytes(entries);
    PlayersBack(players, entries);
    RecordsCut(MAGIC, PlayerBytes, ParsePlayer, entries, k);
  }

  // ---------------------------------------------------------------------------
  // The methods of the source
  // ---------------------------------------------------------------------------

  method AppendPlayer(uuid: Uuid, data: PlayerData, buf: Output)
    modifies buf
    ensures buf.bytes == old(buf.bytes) + PlayerBytes((uuid, data))
  {
    hide HeadBytes, StackBytes;
    AppendHead(uuid, data, buf);
    ghost var head := buf.bytes;
    for i := 0 to |data.slots|
      invariant buf.bytes == head + Many(StackBytes, data.slots[..i])
    {
      AppendStack(data.slots[i], buf);
      ManyNext(StackBytes, data.slots, i);
    }
    assert data.slots[..|data.slots|] == data.slots;
  }

  /** The fields in front of the slots. */
  method AppendHead(uuid: Uuid, data: PlayerData, buf: Output)
    modifies buf
    ensures buf.bytes == old(buf.bytes) + HeadBytes((uuid, data))
  {
    hide LE32, LE64, LEI32, UuidBytes, HeadBytes;
    ghost var before := buf.bytes;
    buf.bytes := buf.bytes + UuidBytes(uuid);
    buf.bytes := buf.bytes + LE64(data.x);
    buf.bytes := buf.bytes + LE64(data.y);
    buf.bytes := buf.bytes + LE64(data.z);
    buf.bytes := buf.bytes + LE32(data.yaw);
    buf.bytes := buf.bytes + LE32(data.pitch);
    buf.bytes := buf.bytes + [data.gamemode];
    buf.bytes := buf.bytes + [data.heldSlot];
    buf.bytes := buf.bytes + LE32(data.health);
    buf.bytes := buf.bytes + LE32(data.foodSaturation);
    buf.bytes := buf.bytes + LEI32(data.food);
    buf.bytes := buf.bytes + LE32(Count32(|data.slots|));
    HeadAppended(uuid, data, before);
  }

  lemma HeadAppended(uuid: Uuid, d: PlayerData, before: Bytes)
    ensures before + HeadBytes((uuid, d))
         == before + UuidBytes(uuid) + LE64(d.x) + LE64(d.y) + LE64(d.z) + LE32(d.yaw) + LE32(d.pitch)
            + [d.gamemode] + [d.heldSlot] + LE32(d.health) + LE32(d.foodSaturation) + LEI32(d.food)
            + LE32(Count32(|d.slots|))
  {
    hide LE32, LE64, LEI32, UuidBytes;
  }

  method AppendStack(k: Stack, buf: Output)
    modifies buf
    ensures buf.bytes == old(buf.bytes) + StackBytes(k)
  {
    hide LE32, LEI32;
    buf.bytes := buf.bytes + [if k.present then 1 else 0];
    buf.bytes := buf.bytes + LEI32(k.itemId);
    buf.bytes := buf.bytes + [Unsigned(k.count, 0x100)];
    buf.bytes := buf.bytes + LE32(Count32(|k.nbt|));
    buf.bytes := buf.bytes + k.nbt;
  }

  method SerializePlayers(players: map<Uuid, PlayerData>) returns (bytes: Bytes)
    ensures IsFileOf(bytes, players)
  {
    hide PlayerBytes, Header, Visited, Enumerates, Many;
    var buf := new Output();
    buf.bytes := Header(MAGIC, |players|);
    var remaining := players.Keys;
    ghost var entries: seq<Player> := [];
    VisitNone(players);
    ManyNone(PlayerBytes);
    while remaining != {}
      invariant remaining <= players.Keys && Visited(entries, players, remaining)
      invariant buf.bytes == Header(MAGIC, |players|) + Many(PlayerBytes, entries)
      decreases |remaining|
    {
      var uuid :| uuid in remaining;
      AppendPlayer(uuid, players[uuid], buf);
      ManyAppend(PlayerBytes, entries, (uuid, players[uuid]));
      VisitOne(entries, players, remaining, uuid);
      entries := entries + [(uuid, players[uuid])];
      remaining := remaining - {uuid};
    }
    VisitAll(entries, players);
    Enumerated(entries, players);
    bytes := buf.bytes;
  }

  /** One turn of the slot loop, reading at `offset`. */
  method ReadStack(data: Bytes, offset: nat) returns (r: Result<(Stack, nat), PersistError>)
    requires offset <= |data|
    ensures match ParseStack(data[offset..])
            case Ok((k, rest)) => r.Ok? && r.value.0 == k && r.value.1 <= |data| && data[r.value.1..] == rest
            case Err(_) => r == Err(CorruptFile)
  {
    hide Int32, Word32;
    ghost var s := data[offset..];
    if offset + 1 + 4 + 1 + 4 > |data| {
      return Err(CorruptFile);
    }
    var at := offset;
    assert data[at + 1..at + 5] == s[1..5] && data[at + 6..at + 10] == s[6..10] && data[at + 10..] == s[10..];
    var present := data[at] != 0;
    at := at + 1;
    var itemId := Int32(data[at..at + 4]);
    at := at + 4;
    var count := Signed(data[at], 0x100);
    at := at + 1;
    var nbtLength: nat := Word32(data[at..at + 4]);
    at := at + 4;
    if at + nbtLength > |data| {
      return Err(CorruptFile);
    }
    var nbt := data[at..at + nbtLength];
    at := at + nbtLength;
    assert nbt == s[10..][..nbtLength] && data[at..] == s[10..][nbtLength..];
    return Ok((Stack(present, itemId, count, nbt), at));
  }

  /** The slot loop. */
  method ReadStacks(data: Bytes, offset: nat, slotCount: nat) returns (r: Result<(seq<Stack>, nat), PersistError>)
    requires offset <= |data|
    ensures match ParseMany(ParseStack, slotCount, data[offset..])
            case Ok((ks, rest)) => r.Ok? && r.value.0 == ks && r.value.1 <= |data| && data[r.value.1..] == rest
            case Err(_) => r == Err(CorruptFile)
  {
    hide ParseStack, ParseMany;
    var slots := [];
    var at: nat := offset;
    ReadNone(ParseStack, slotCount, data[offset..]);
    for i := 0 to slotCount
      invariant |slots| == i && at <= |data|
      invariant ReadSoFar(ParseStack, slotCount, data[offset..], slots, data[at..])
    {
      ReadOne(ParseStack, slotCount, data[offset..], slots, data[at..]);
      var entry :- ReadStack(data, at);
      slots := slots + [entry.0];
      at := entry.1;
    }
    ReadAll(ParseStack, slotCount, data[offset..], slots, data[at..]);
    return Ok((slots, at));
  }

  /** One turn of the player loop, reading at `offset`. */
  method ReadPlayer(data: Bytes, offset: nat) returns (r: Result<(Player, nat), PersistError>)
    requires offset <= |data|
    ensures match ParsePlayer(data[offset..])
            case Ok((p, rest)) => r.Ok? && r.value.0 == p && r.value.1 <= |data| && data[r.value.1..] == rest
            case Err(_) => r == Err(CorruptFile)
  {
    hide Int32, Word32, Word64, ParseUuid, ParseStack, ParseMany;
    if offset + HEAD_LENGTH > |data| {
      return Err(CorruptFile);
    }
    ghost var h := data[offset..][..HEAD_LENGTH];
    assert data[offset + HEAD_LENGTH..] == data[offset..][HEAD_LENGTH..];
    FieldsAt(data, offset, h);
    var at: nat := offset;
    var uuid := UuidOf(data[at..at + 16]);
    at := at + 16;
    var x := Word64(data[at..at + 8]);
    at := at + 8;
    var y := Word64(data[at..at + 8]);
    at := at + 8;
    var z := Word64(data[at..at + 8]);
    at := at + 8;
    var yaw := Word32(data[at..at + 4]);
    at := at + 4;
    var pitch := Word32(data[at..at + 4]);
    at := at + 4;
    var gamemode := data[at];
    at := at + 1;
    var heldSlot := data[at];
    at := at + 1;
    var health := Word32(data[at..at + 4]);
    at := at + 4;
    var foodSaturation := Word32(data[at..at + 4]);
    at := at + 4;
    var food := Int32(data[at..at + 4]);
    at := at + 4;
    var slotCount: nat := Word32(data[at..at + 4]);
    at := at + 4;
    var slots :- ReadStacks(data, at, slotCount);
    return Ok(((uuid, PlayerData(x, y, z, yaw, pitch, gamemode, heldSlot, health, foodSaturation, food, slots.0)),
               slots.1));
  }

  /** Reading from the file at an offset is reading from the record that starts there. */
  lemma FieldsAt(data: Bytes, offset: nat, h: Bytes)
    requires offset + HEAD_LENGTH <= |data| && h == data[offset..][..HEAD_LENGTH]
    ensures forall i, j :: 0 <= i <= j <= HEAD_LENGTH ==> data[offset + i..offset + j] == h[i..j]
  {
  }

  method DeserializePlayers(data: Bytes) returns (r: Result<map<Uuid, PlayerData>, PersistError>)
    ensures r == Load(data)
  {
    hide Word32, ParsePlayer, FromPairs, ParseMany;
    if |data| < 12 {
      return Err(CorruptFile);
    }
    if data[0..4] != MAGIC {
      return Err(CorruptFile);
    }
    var version := Word32(data[4..8]);
    if version != FORMAT_VERSION {
      return Err(UnsupportedVersion(version));
    }
    var count: nat := Word32(data[8..12]);
    var players: map<Uuid, PlayerData> := map[];
    var offset: nat := 12;
    ghost var done: seq<Player> := [];
    NoPairs<Uuid, PlayerData>();
    ReadNone(ParsePlayer, count, data[12..]);
    for i := 0 to count
      invariant offset <= |data| && |done| == i
      invariant players == FromPairs(done)
      invariant ReadSoFar(ParsePlayer, count, data[12..], done, data[offset..])
    {
      ReadOne(ParsePlayer, count, data[12..], done, data[offset..]);
      var player :- ReadPlayer(data, offset);
      OneMorePair(done, player.0);
      players := players[player.0.0 := player.0.1];
      done := done + [player.0];
      offset := player.1;
    }
    ReadAll(ParsePlayer, count, data[12..], done, data[offset..]);
    return Ok(players);
  }
}
