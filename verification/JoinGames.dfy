/** Join Game (`play.rs`): strings, raw NBT, flags and an optional death location in one body. */
module JoinGames {
  import opened Wire
  import opened VarInt
  import opened Framing
  import opened Lists
  import opened Nbt
  import opened NbtTrees
  import opened NbtWalkers
  import opened Packets
  import opened Text
  import P = Primitives

  const JOIN_GAME_PACKET_ID: i32 := 0x28
  const MAX_DIMENSION_NAMES: int := 256
  const MAX_IDENTIFIER_LENGTH: usize := 32767
  const MAX_REGISTRY_CODEC_SIZE: usize := 1048576

  datatype GameMode = Survival | Creative | Adventure | Spectator

  function ToWire(g: GameMode): byte {
    match g
    case Survival => 0
    case Creative => 1
    case Adventure => 2
    case Spectator => 3
  }

  function FromWire(b: byte): Result<GameMode, CodecError> {
    if b == 0 then Ok(Survival)
    else if b == 1 then Ok(Creative)
    else if b == 2 then Ok(Adventure)
    else if b == 3 then Ok(Spectator)
    else Err(InvalidBoolean)
  }

  /** The fields of the packet in wire order; the source keeps them in one flat struct. */
  datatype JoinGame = JoinGame(player: Player, worlds: Worlds, rules: Rules, death: Death, portalCooldown: i32)
  datatype Player = Player(entityId: i32, isHardcore: bool, gamemode: GameMode, previous: Option<GameMode>)
  datatype Worlds = Worlds(names: seq<Text>, registry: Bytes, dimensionType: Text, dimensionName: Text)
  datatype Rules = Rules(hashedSeed: i64, maxPlayers: i32, viewDistance: i32, simulationDistance: i32,
                         reduceDebugInfo: bool, enableRespawnScreen: bool, isDebug: bool, isFlat: bool)
  datatype Death = Death(present: bool, dimensionName: Text, location: P.Position)

  // ---------------------------------------------------------------------------
  // Player
  // ---------------------------------------------------------------------------

  function PreviousByte(g: Option<GameMode>): i8 {
    match g
    case None => -1
    case Some(mode) => ToWire(mode)
  }

  function PreviousFrom(b: i8): Result<Option<GameMode>, CodecError> {
    if b == -1 then Ok(None)
    else
      var mode :- FromWire(Unsigned(b, 0x100));
      Ok(Some(mode))
  }

  function PlayerBytes(p: Player): Bytes {
    I32(p.entityId) + (Bool(p.isHardcore) + (U8(ToWire(p.gamemode)) + I8(PreviousByte(p.previous))))
  }

  function ParsePlayer(s: Bytes): Parsed<Player> {
    var (entityId, s1) :- ParseI32(s);
    var (isHardcore, s2) :- ParseBool(s1);
    var (modeByte, s3) :- ParseU8(s2);
    var mode :- FromWire(modeByte);
    var (previousByte, s4) :- ParseI8(s3);
    var previous :- PreviousFrom(previousByte);
    Ok((Player(entityId, isHardcore, mode, previous), s4))
  }

  lemma PlayerRoundTrip(p: Player, tail: Bytes)
    ensures ParsePlayer(PlayerBytes(p) + tail) == Ok((p, tail))
  {
    hide I32, ParseI32, I8, ParseI8, Bool, ParseBool;
    var s3 := I8(PreviousByte(p.previous)) + tail;
    var s2 := U8(ToWire(p.gamemode)) + s3;
    var s1 := Bool(p.isHardcore) + s2;
    assert PlayerBytes(p) + tail == I32(p.entityId) + s1;
    I32RoundTrip(p.entityId, s1);
    BoolRoundTrip(p.isHardcore, s2);
    assert s2[1..] == s3;
    I8RoundTrip(PreviousByte(p.previous), tail);
  }

  /** Game modes other than the four are refused, and so are previous ones other than the four and none. */
  lemma ModeRefused(entityId: i32, isHardcore: bool, mode: byte, known: GameMode, previous: i8, tail: Bytes)
    requires mode > 3 && (previous < -1 || previous > 3)
    ensures ParsePlayer(I32(entityId) + (Bool(isHardcore) + ([mode] + tail))) == Err(InvalidBoolean)
    ensures ParsePlayer(I32(entityId) + (Bool(isHardcore) + ([ToWire(known)] + (I8(previous) + tail))))
         == Err(InvalidBoolean)
  {
    hide I32, ParseI32, I8, ParseI8, Bool, ParseBool;
    I32RoundTrip(entityId, Bool(isHardcore) + ([mode] + tail));
    BoolRoundTrip(isHardcore, [mode] + tail);
    I32RoundTrip(entityId, Bool(isHardcore) + ([ToWire(known)] + (I8(previous) + tail)));
    BoolRoundTrip(isHardcore, [ToWire(known)] + (I8(previous) + tail));
    assert ([ToWire(known)] + (I8(previous) + tail))[1..] == I8(previous) + tail;
    I8RoundTrip(previous, tail);
  }

  // ---------------------------------------------------------------------------
  // Worlds
  // ---------------------------------------------------------------------------

  predicate NamesFit(names: seq<Text>) {
    |names| <= MAX_DIMENSION_NAMES && forall name :: name in names ==> Accepted(name, MAX_IDENTIFIER_LENGTH)
  }

  predicate WorldsFit(w: Worlds) {
    && NamesFit(w.names) && |w.registry| <= MAX_REGISTRY_CODEC_SIZE
    && Accepted(w.dimensionType, MAX_IDENTIFIER_LENGTH) && Accepted(w.dimensionName, MAX_IDENTIFIER_LENGTH)
  }

  function NamesBytes(names: seq<Text>): Bytes {
    VarIntBytes(AsI32(|names|)) + Many(Prefixed, names)
  }

  function WorldsBytes(w: Worlds): Bytes {
    NamesBytes(w.names) + (w.registry + (Prefixed(w.dimensionType) + Prefixed(w.dimensionName)))
  }

  function ParseName(s: Bytes): Parsed<Text> {
    ParseString(s, MAX_IDENTIFIER_LENGTH)
  }

  function ParseNames(s: Bytes): Parsed<seq<Text>> {
    var (count, s1) :- ParseVarInt(s);
    if count < 0 then Err(VarIntTooLong)
    else if count > MAX_DIMENSION_NAMES then Err(StringTooLong)
    else ParseMany(ParseName, count, s1)
  }

  function ParseRegistry(s: Bytes): Parsed<Bytes> {
    var (registry, rest) :- ParseNbt(s);
    if |registry| > MAX_REGISTRY_CODEC_SIZE then Err(StringTooLong) else Ok((registry, rest))
  }

  function ParseWorlds(s: Bytes): Parsed<Worlds> {
    var (names, s1) :- ParseNames(s);
    var (registry, s2) :- ParseRegistry(s1);
    var (dimensionType, s3) :- ParseName(s2);
    var (dimensionName, s4) :- ParseName(s3);
    Ok((Worlds(names, registry, dimensionType, dimensionName), s4))
  }

  lemma NameRoundTrip(name: Text, tail: Bytes)
    requires Accepted(name, MAX_IDENTIFIER_LENGTH)
    ensures ParseName(Prefixed(name) + tail) == Ok((name, tail))
  {
    StringRoundTrip(name, MAX_IDENTIFIER_LENGTH, tail);
  }

  lemma NamesRoundTrip(names: seq<Text>, tail: Bytes)
    requires NamesFit(names)
    ensures ParseNames(NamesBytes(names) + tail) == Ok((names, tail))
  {
    hide Accepted, Prefixed, ParseName, ParseVarInt, VarIntBytes;
    var items := Many(Prefixed, names);
    assert NamesBytes(names) + tail == VarIntBytes(|names|) + (items + tail);
    VarIntRoundTrip(|names|, items + tail);
    forall name, after | name in names ensures ParseName(Prefixed(name) + after) == Ok((name, after)) {
      NameRoundTrip(name, after);
    }
    ManyExact(Prefixed, ParseName, names, tail);
  }

  lemma RegistryRoundTrip(registry: Bytes, tail: Bytes)
    requires IsCompound(registry) && |registry| <= MAX_REGISTRY_CODEC_SIZE
    ensures ParseRegistry(registry + tail) == Ok((registry, tail))
  {
    ReadCharacterised(registry + tail, registry, tail);
  }

  lemma WorldsRoundTrip(w: Worlds, tail: Bytes)
    requires WorldsFit(w) && IsCompound(w.registry)
    ensures ParseWorlds(WorldsBytes(w) + tail) == Ok((w, tail))
  {
    hide IsCompound, Accepted, NamesFit, Prefixed, NamesBytes, ParseName, ParseNames, ParseRegistry;
    var s3 := Prefixed(w.dimensionName) + tail;
    var s2 := Prefixed(w.dimensionType) + s3;
    var s1 := w.registry + s2;
    assert WorldsBytes(w) + tail == NamesBytes(w.names) + s1;
    NamesRoundTrip(w.names, s1);
    RegistryRoundTrip(w.registry, s2);
    NameRoundTrip(w.dimensionType, s3);
    NameRoundTrip(w.dimensionName, tail);
  }

  // ---------------------------------------------------------------------------
  // Rules
  // ---------------------------------------------------------------------------

  function FlagsBytes(r: Rules): Bytes {
    Bool(r.reduceDebugInfo) + (Bool(r.enableRespawnScreen) + (Bool(r.isDebug) + Bool(r.isFlat)))
  }

  function RulesBytes(r: Rules): Bytes {
    I64(r.hashedSeed) + (VarIntBytes(r.maxPlayers) + (VarIntBytes(r.viewDistance)
    + (VarIntBytes(r.simulationDistance) + FlagsBytes(r))))
  }

  function ParseFlags(s: Bytes): Parsed<(bool, bool, bool, bool)> {
    var (reduceDebugInfo, s1) :- ParseBool(s);
    var (enableRespawnScreen, s2) :- ParseBool(s1);
    var (isDebug, s3) :- ParseBool(s2);
    var (isFlat, s4) :- ParseBool(s3);
    Ok(((reduceDebugInfo, enableRespawnScreen, isDebug, isFlat), s4))
  }

  function ParseRules(s: Bytes): Parsed<Rules> {
    var (hashedSeed, s1) :- ParseI64(s);
    var (maxPlayers, s2) :- ParseVarInt(s1);
    var (viewDistance, s3) :- ParseVarInt(s2);
    var (simulationDistance, s4) :- ParseVarInt(s3);
    var ((reduce, respawn, debug, flat), s5) :- ParseFlags(s4);
    Ok((Rules(hashedSeed, maxPlayers, viewDistance, simulationDistance, reduce, respawn, debug, flat), s5))
  }

  lemma FlagsRoundTrip(r: Rules, tail: Bytes)
    ensures ParseFlags(FlagsBytes(r) + tail)
         == Ok(((r.reduceDebugInfo, r.enableRespawnScreen, r.isDebug, r.isFlat), tail))
  {
    hide Bool, ParseBool;
    var s3 := Bool(r.isFlat) + tail;
    var s2 := Bool(r.isDebug) + s3;
    var s1 := Bool(r.enableRespawnScreen) + s2;
    assert FlagsBytes(r) + tail == Bool(r.reduceDebugInfo) + s1;
    BoolRoundTrip(r.reduceDebugInfo, s1);
    BoolRoundTrip(r.enableRespawnScreen, s2);
    BoolRoundTrip(r.isDebug, s3);
    BoolRoundTrip(r.isFlat, tail);
  }

  lemma RulesRoundTrip(r: Rules, tail: Bytes)
    ensures ParseRules(RulesBytes(r) + tail) == Ok((r, tail))
  {
    hide I64, ParseI64, VarIntBytes, ParseVarInt, FlagsBytes, ParseFlags;
    var s4 := FlagsBytes(r) + tail;
    var s3 := VarIntBytes(r.simulationDistance) + s4;
    var s2 := VarIntBytes(r.viewDistance) + s3;
    var s1 := VarIntBytes(r.maxPlayers) + s2;
    assert RulesBytes(r) + tail == I64(r.hashedSeed) + s1;
    I64RoundTrip(r.hashedSeed, s1);
    VarIntRoundTrip(r.maxPlayers, s2);
    VarIntRoundTrip(r.viewDistance, s3);
    VarIntRoundTrip(r.simulationDistance, s4);
    FlagsRoundTrip(r, tail);
  }

  // ---------------------------------------------------------------------------
  // Death location
  // ---------------------------------------------------------------------------

  function DeathBytes(d: Death): Bytes {
    if d.present then Bool(true) + (Prefixed(d.dimensionName) + P.PositionBytes(d.location)) else Bool(false)
  }

  function ParseDeath(s: Bytes): Parsed<Death> {
    var (present, s1) :- ParseBool(s);
    if !present then Ok((Death(false, [], P.Position(0, 0, 0)), s1))
    else
      var (dimensionName, s2) :- ParseName(s1);
      var (location, s3) :- P.ParsePosition(s2);
      Ok((Death(true, dimensionName, location), s3))
  }

  /** A missing location carries no data, and a present one fits the packed word. */
  predicate NormalDeath(d: Death) {
    if d.present then P.InPackedRange(d.location) else d == Death(false, [], P.Position(0, 0, 0))
  }

  lemma DeathRoundTrip(d: Death, tail: Bytes)
    requires NormalDeath(d) && (d.present ==> Accepted(d.dimensionName, MAX_IDENTIFIER_LENGTH))
    ensures ParseDeath(DeathBytes(d) + tail) == Ok((d, tail))
  {
    hide Accepted, Prefixed, ParseName, P.PositionBytes, P.ParsePosition, P.InPackedRange, P.Truncated;
    if d.present {
      var s2 := P.PositionBytes(d.location) + tail;
      var s1 := Prefixed(d.dimensionName) + s2;
      assert DeathBytes(d) + tail == Bool(true) + s1;
      BoolRoundTrip(true, s1);
      NameRoundTrip(d.dimensionName, s2);
      P.PositionRoundTrip(d.location, tail);
    } else {
      BoolRoundTrip(false, tail);
    }
  }

  // ---------------------------------------------------------------------------
  // The packet
  // ---------------------------------------------------------------------------

  predicate Encodable(p: JoinGame) {
    WorldsFit(p.worlds) && (p.death.present ==> Accepted(p.death.dimensionName, MAX_IDENTIFIER_LENGTH))
  }

  function JoinGameFields(p: JoinGame): Result<Bytes, CodecError> {
    if Encodable(p) then
      Ok(PlayerBytes(p.player) + (WorldsBytes(p.worlds) + (RulesBytes(p.rules)
         + (DeathBytes(p.death) + VarIntBytes(p.portalCooldown)))))
    else if |p.worlds.names| > I32_MAX then Err(VarIntTooLong)
    else Err(StringTooLong)
  }

  function ParseJoinGameFields(s: Bytes): Parsed<JoinGame> {
    var (player, s1) :- ParsePlayer(s);
    var (worlds, s2) :- ParseWorlds(s1);
    var (rules, s3) :- ParseRules(s2);
    var (death, s4) :- ParseDeath(s3);
    var (portalCooldown, s5) :- ParseVarInt(s4);
    Ok((JoinGame(player, worlds, rules, death, portalCooldown), s5))
  }

  ghost predicate NormalJoinGame(p: JoinGame) {
    IsCompound(p.worlds.registry) && NormalDeath(p.death)
  }

  lemma JoinGameFieldsRoundTrip(p: JoinGame)
    requires Encodable(p) && NormalJoinGame(p)
    ensures ParseJoinGameFields(JoinGameFields(p).value) == Ok((p, []))
  {
    hide IsCompound, NormalDeath, WorldsFit, Accepted, PlayerBytes, ParsePlayer, WorldsBytes, ParseWorlds, RulesBytes,
         ParseRules, DeathBytes, ParseDeath, VarIntBytes, ParseVarInt;
    var s4 := VarIntBytes(p.portalCooldown);
    var s3 := DeathBytes(p.death) + s4;
    var s2 := RulesBytes(p.rules) + s3;
    var s1 := WorldsBytes(p.worlds) + s2;
    PlayerRoundTrip(p.player, s1);
    WorldsRoundTrip(p.worlds, s2);
    RulesRoundTrip(p.rules, s3);
    DeathRoundTrip(p.death, s4);
    assert s4 + [] == s4;
    VarIntRoundTrip(p.portalCooldown, []);
  }

  lemma ParsedWorldsNormal(s: Bytes)
    requires ParseWorlds(s).Ok?
    ensures IsCompound(ParseWorlds(s).value.0.registry)
  {
    hide IsCompound, ParseNames, ParseNbt, ParseName;
    ReadIsCompound(ParseNames(s).value.1);
  }

  lemma ParsedDeathNormal(s: Bytes)
    requires ParseDeath(s).Ok?
    ensures NormalDeath(ParseDeath(s).value.0)
  {
    hide ParseName, P.ParsePosition, P.InPackedRange;
    var (present, s1) := ParseBool(s).value;
    if present {
      P.ParsedPositionInRange(ParseName(s1).value.1);
    }
  }

  lemma ParsedJoinGameNormal(s: Bytes)
    requires ParseJoinGameFields(s).Ok?
    ensures NormalJoinGame(ParseJoinGameFields(s).value.0)
  {
    hide IsCompound, NormalDeath, ParsePlayer, ParseWorlds, ParseRules, ParseDeath, ParseVarInt;
    var s1 := ParsePlayer(s).value.1;
    var s2 := ParseWorlds(s1).value.1;
    ParsedWorldsNormal(s1);
    ParsedDeathNormal(ParseRules(s2).value.1);
  }

  function JoinGameBytes(p: JoinGame, maximum: usize): Result<Bytes, PacketError> {
    PacketBytes(JOIN_GAME_PACKET_ID, JoinGameFields(p), maximum)
  }

  function ParseJoinGame(s: Bytes, maximum: usize): Framed<JoinGame, PacketError> {
    ParsePacket(JOIN_GAME_PACKET_ID, ParseJoinGameFields, s, maximum)
  }

  /** A written packet is read back unchanged exactly when its registry is one compound the skipper can delimit and
      its death location is either absent and blank or inside the packed ranges. */
  lemma JoinGameRoundTrip(p: JoinGame, maximum: usize, tail: Bytes)
    requires JoinGameBytes(p, maximum).Ok?
    ensures ParseJoinGame(JoinGameBytes(p, maximum).value + tail, maximum) == Complete(p, tail)
       <==> NormalJoinGame(p)
  {
    hide NormalJoinGame, ParseJoinGameFields;
    var body := JoinGameFields(p).value;
    PacketFields(JOIN_GAME_PACKET_ID, ParseJoinGameFields, body, maximum, tail);
    if NormalJoinGame(p) {
      JoinGameFieldsRoundTrip(p);
    }
    if ParseJoinGameFields(body).Ok? {
      ParsedJoinGameNormal(body);
    }
  }

  // ---------------------------------------------------------------------------
  // The methods of the source
  // ---------------------------------------------------------------------------

  method EncodePlayer(p: Player, body: Output)
    modifies body
    ensures body.bytes == old(body.bytes) + PlayerBytes(p)
  {
    hide I32, Bool, I8;
    body.bytes := body.bytes + I32(p.entityId);
    body.bytes := body.bytes + Bool(p.isHardcore);
    body.bytes := body.bytes + U8(ToWire(p.gamemode));
    body.bytes := body.bytes + I8(PreviousByte(p.previous));
  }

  method EncodeName(name: Text, body: Output) returns (r: Result<(), CodecError>)
    modifies body
    ensures if Accepted(name, MAX_IDENTIFIER_LENGTH) then r == Ok(()) && body.bytes == old(body.bytes) + Prefixed(name)
            else r == Err(StringTooLong)
  {
    hide Prefixed, Accepted;
    r := EncodeString(name, MAX_IDENTIFIER_LENGTH, body);
  }

  method EncodeNames(names: seq<Text>, body: Output) returns (r: Result<(), CodecError>)
    modifies body
    ensures if NamesFit(names) then r == Ok(()) && body.bytes == old(body.bytes) + NamesBytes(names)
            else r == Err(if |names| > I32_MAX then VarIntTooLong else StringTooLong)
  {
    hide VarIntBytes, Prefixed, Accepted;
    if |names| > I32_MAX {
      return Err(VarIntTooLong);
    }
    if |names| > MAX_DIMENSION_NAMES {
      return Err(StringTooLong);
    }
    EncodeVarInt(|names|, body);
    ghost var head := body.bytes;
    for i := 0 to |names|
      invariant forall j :: 0 <= j < i ==> Accepted(names[j], MAX_IDENTIFIER_LENGTH)
      invariant body.bytes == head + Many(Prefixed, names[..i])
    {
      assert names[i] in names;
      var _ :- EncodeName(names[i], body);
      ManyNext(Prefixed, names, i);
    }
    assert names[..|names|] == names;
    return Ok(());
  }

  method EncodeWorlds(w: Worlds, body: Output) returns (r: Result<(), CodecError>)
    modifies body
    ensures if WorldsFit(w) then r == Ok(()) && body.bytes == old(body.bytes) + WorldsBytes(w)
            else r == Err(if |w.names| > I32_MAX then VarIntTooLong else StringTooLong)
  {
    hide NamesFit, NamesBytes, Prefixed, Accepted;
    NamesBound(w.names);
    var _ :- EncodeNames(w.names, body);
    if |w.registry| > MAX_REGISTRY_CODEC_SIZE {
      return Err(StringTooLong);
    }
    body.bytes := body.bytes + w.registry;
    var _ :- EncodeName(w.dimensionType, body);
    var _ :- EncodeName(w.dimensionName, body);
    return Ok(());
  }

  lemma NamesBound(names: seq<Text>)
    ensures NamesFit(names) ==> |names| <= I32_MAX
  {
  }

  method EncodeRules(rules: Rules, body: Output)
    modifies body
    ensures body.bytes == old(body.bytes) + RulesBytes(rules)
  {
    hide I64, VarIntBytes, FlagsBytes;
    body.bytes := body.bytes + I64(rules.hashedSeed);
    EncodeVarInt(rules.maxPlayers, body);
    EncodeVarInt(rules.viewDistance, body);
    EncodeVarInt(rules.simulationDistance, body);
    EncodeFlags(rules, body);
  }

  method EncodeFlags(rules: Rules, body: Output)
    modifies body
    ensures body.bytes == old(body.bytes) + FlagsBytes(rules)
  {
    hide Bool;
    body.bytes := body.bytes + Bool(rules.reduceDebugInfo);
    body.bytes := body.bytes + Bool(rules.enableRespawnScreen);
    body.bytes := body.bytes + Bool(rules.isDebug);
    body.bytes := body.bytes + Bool(rules.isFlat);
  }

  method EncodeDeath(d: Death, body: Output) returns (r: Result<(), CodecError>)
    modifies body
    ensures if d.present && !Accepted(d.dimensionName, MAX_IDENTIFIER_LENGTH) then r == Err(StringTooLong)
            else r == Ok(()) && body.bytes == old(body.bytes) + DeathBytes(d)
  {
    hide Prefixed, Accepted, P.PositionBytes;
    body.bytes := body.bytes + Bool(d.present);
    if d.present {
      var _ :- EncodeName(d.dimensionName, body);
      P.EncodePosition(d.location.x, d.location.y, d.location.z, body);
    }
    return Ok(());
  }

  /** The fields go to a body of their own, so a refused one leaves `output` alone. */
  method EncodeJoinGame(p: JoinGame, maximum: usize, output: Output) returns (r: Result<(), PacketError>)
    modifies output
    ensures match JoinGameBytes(p, maximum)
            case Ok(b) => r == Ok(()) && output.bytes == old(output.bytes) + b
            case Err(e) => r == Err(e) && output.bytes == old(output.bytes)
  {
    hide WorldsFit, Accepted, PlayerBytes, WorldsBytes, RulesBytes, DeathBytes, VarIntBytes, FrameBytes;
    WorldsBound(p.worlds);
    var body := new Output();
    EncodePlayer(p.player, body);
    var worlds := EncodeWorlds(p.worlds, body);
    if worlds.Err? {
      return Err(FromCodec(worlds.error));
    }
    EncodeRules(p.rules, body);
    var death := EncodeDeath(p.death, body);
    if death.Err? {
      return Err(FromCodec(death.error));
    }
    EncodeVarInt(p.portalCooldown, body);
    assert body.bytes == JoinGameFields(p).value;
    r := WritePacket(JOIN_GAME_PACKET_ID, body.bytes, maximum, output);
  }

  lemma WorldsBound(w: Worlds)
    ensures WorldsFit(w) ==> |w.names| <= I32_MAX
  {
  }

  method DecodePlayer(body: Input) returns (r: Result<Player, CodecError>)
    modifies body
    ensures Agrees(ParsePlayer(old(body.rest)), r, body.rest)
  {
    hide ParseI32, ParseBool, ParseI8;
    var entityId :- DecodeI32(body);
    var isHardcore :- DecodeBool(body);
    var modeByte :- DecodeU8(body);
    var mode :- FromWire(modeByte);
    var previousByte :- DecodeI8(body);
    var previous :- PreviousFrom(previousByte);
    return Ok(Player(entityId, isHardcore, mode, previous));
  }

  method DecodeName(body: Input) returns (r: Result<Text, CodecError>)
    modifies body
    ensures Agrees(ParseName(old(body.rest)), r, body.rest)
  {
    r := DecodeString(body, MAX_IDENTIFIER_LENGTH);
  }

  method DecodeNames(body: Input) returns (r: Result<seq<Text>, CodecError>)
    modifies body
    ensures Agrees(ParseNames(old(body.rest)), r, body.rest)
  {
    hide ParseVarInt, ParseName;
    var count :- DecodeVarInt(body);
    if count < 0 {
      return Err(VarIntTooLong);
    }
    if count > MAX_DIMENSION_NAMES {
      return Err(StringTooLong);
    }
    var names := [];
    ghost var start := body.rest;
    ReadNone(ParseName, count, start);
    for i := 0 to count
      invariant |names| == i
      invariant ReadSoFar(ParseName, count, start, names, body.rest)
    {
      ReadOne(ParseName, count, start, names, body.rest);
      var name :- DecodeName(body);
      names := names + [name];
    }
    ReadAll(ParseName, count, start, names, body.rest);
    return Ok(names);
  }

  method DecodeWorlds(body: Input) returns (r: Result<Worlds, CodecError>)
    modifies body
    ensures Agrees(ParseWorlds(old(body.rest)), r, body.rest)
  {
    hide ParseNames, ParseNbt, ParseName;
    var names :- DecodeNames(body);
    var registry :- ReadNbtCompound(body);
    if |registry| > MAX_REGISTRY_CODEC_SIZE {
      return Err(StringTooLong);
    }
    var dimensionType :- DecodeName(body);
    var dimensionName :- DecodeName(body);
    return Ok(Worlds(names, registry, dimensionType, dimensionName));
  }

  method DecodeRules(body: Input) returns (r: Result<Rules, CodecError>)
    modifies body
    ensures Agrees(ParseRules(old(body.rest)), r, body.rest)
  {
    hide ParseI64, ParseVarInt, ParseBool;
    var hashedSeed :- DecodeI64(body);
    var maxPlayers :- DecodeVarInt(body);
    var viewDistance :- DecodeVarInt(body);
    var simulationDistance :- DecodeVarInt(body);
    var reduce :- DecodeBool(body);
    var respawn :- DecodeBool(body);
    var debug :- DecodeBool(body);
    var flat :- DecodeBool(body);
    return Ok(Rules(hashedSeed, maxPlayers, viewDistance, simulationDistance, reduce, respawn, debug, flat));
  }

  method DecodeDeath(body: Input) returns (r: Result<Death, CodecError>)
    modifies body
    ensures Agrees(ParseDeath(old(body.rest)), r, body.rest)
  {
    hide ParseBool, ParseName, P.ParsePosition;
    var present :- DecodeBool(body);
    if !present {
      return Ok(Death(false, [], P.Position(0, 0, 0)));
    }
    var dimensionName :- DecodeName(body);
    var location :- P.DecodePosition(body);
    return Ok(Death(true, dimensionName, location));
  }

  method DecodeJoinGameFields(body: Input) returns (r: Result<JoinGame, CodecError>)
    modifies body
    ensures Agrees(ParseJoinGameFields(old(body.rest)), r, body.rest)
  {
    hide ParsePlayer, ParseWorlds, ParseRules, ParseDeath, ParseVarInt;
    var player :- DecodePlayer(body);
    var worlds :- DecodeWorlds(body);
    var rules :- DecodeRules(body);
    var death :- DecodeDeath(body);
    var portalCooldown :- DecodeVarInt(body);
    return Ok(JoinGame(player, worlds, rules, death, portalCooldown));
  }

  method DecodeJoinGame(input: Input, maximum: usize) returns (r: Outcome<JoinGame, PacketError>)
    modifies input
    ensures TransactionalFrame(ParseJoinGame(old(input.rest), maximum), r, old(input.rest), input.rest)
  {
    hide ParseJoinGameFields;
    var source := input.rest;
    var frame := OpenPacket(input, JOIN_GAME_PACKET_ID, maximum);
    match frame {
      case NeedMore => return NeedMore;
      case Failed(e) => return Failed(e);
      case Decoded(payload) =>
        var body := new Input(payload);
        var fields := DecodeJoinGameFields(body);
        r := ClosePacket(input, source, fields, body);
    }
  }
}
