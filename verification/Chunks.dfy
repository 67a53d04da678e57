/** Chunk Data and Update Light (`play.rs`): raw NBT, counted byte arrays and an unprefixed remainder. */
module Chunks {
  import opened Wire
  import opened VarInt
  import opened Framing
  import opened Lists
  import opened Nbt
  import opened NbtTrees
  import opened NbtWalkers
  import opened Packets
  import P = Primitives

  const CHUNK_DATA_PACKET_ID: i32 := 0x24
  const MAX_CHUNK_DATA_SIZE: usize := 1048576
  const MAX_BLOCK_ENTITIES: int := 1024

  datatype ChunkData = ChunkData(x: i32, z: i32, heightmaps: Bytes, data: Bytes, blockEntities: seq<Bytes>,
                                 light: Bytes)

  predicate Fits(b: Bytes) {
    |b| <= MAX_CHUNK_DATA_SIZE
  }

  predicate Encodable(p: ChunkData) {
    && Fits(p.heightmaps) && Fits(p.data) && Fits(p.light)
    && |p.blockEntities| <= MAX_BLOCK_ENTITIES
    && forall be :: be in p.blockEntities ==> Fits(be)
  }

  function EntitiesBytes(entities: seq<Bytes>): Bytes {
    VarIntBytes(AsI32(|entities|)) + Many(P.Prefixed, entities)
  }

  /** Every refusal of the encoder is the same error, but for a list too long even for an `i32`. */
  function ChunkFields(p: ChunkData): Result<Bytes, CodecError> {
    if Encodable(p) then
      Ok(I32(p.x) + (I32(p.z) + (p.heightmaps + (P.Prefixed(p.data) + (EntitiesBytes(p.blockEntities) + p.light)))))
    else if Fits(p.heightmaps) && Fits(p.data) && |p.blockEntities| > I32_MAX then Err(VarIntTooLong)
    else Err(StringTooLong)
  }

  function ParseEntity(s: Bytes): Parsed<Bytes> {
    P.ParseByteArray(s, MAX_CHUNK_DATA_SIZE)
  }

  function ParseEntities(s: Bytes): Parsed<seq<Bytes>> {
    var (count, s1) :- ParseVarInt(s);
    if count < 0 then Err(VarIntTooLong)
    else if count > MAX_BLOCK_ENTITIES then Err(StringTooLong)
    else ParseMany(ParseEntity, count, s1)
  }

  function ParseHeightmaps(s: Bytes): Parsed<Bytes> {
    var (heightmaps, rest) :- ParseNbt(s);
    if !Fits(heightmaps) then Err(StringTooLong) else Ok((heightmaps, rest))
  }

  function ParseChunkFields(s: Bytes): Parsed<ChunkData> {
    var (x, s1) :- ParseI32(s);
    var (z, s2) :- ParseI32(s1);
    var (heightmaps, s3) :- ParseHeightmaps(s2);
    var (data, s4) :- P.ParseByteArray(s3, MAX_CHUNK_DATA_SIZE);
    var (entities, light) :- ParseEntities(s4);
    if !Fits(light) then Err(StringTooLong)
    else Ok((ChunkData(x, z, heightmaps, data, entities, light), []))
  }

  lemma HeightmapsRoundTrip(heightmaps: Bytes, tail: Bytes)
    requires IsCompound(heightmaps) && Fits(heightmaps)
    ensures ParseHeightmaps(heightmaps + tail) == Ok((heightmaps, tail))
  {
    ReadCharacterised(heightmaps + tail, heightmaps, tail);
  }

  lemma ByteArrayRoundTrip(value: Bytes, tail: Bytes)
    requires Fits(value)
    ensures P.ParseByteArray(P.Prefixed(value) + tail, MAX_CHUNK_DATA_SIZE) == Ok((value, tail))
  {
    P.ByteArrayRoundTrip(value, MAX_CHUNK_DATA_SIZE, tail);
  }

  lemma EntitiesRoundTrip(entities: seq<Bytes>, tail: Bytes)
    requires |entities| <= MAX_BLOCK_ENTITIES && forall be :: be in entities ==> Fits(be)
    ensures ParseEntities(EntitiesBytes(entities) + tail) == Ok((entities, tail))
  {
    hide P.Prefixed, P.ParseByteArray, ParseVarInt, VarIntBytes;
    var items := Many(P.Prefixed, entities);
    assert EntitiesBytes(entities) + tail == VarIntBytes(|entities|) + (items + tail);
    VarIntRoundTrip(|entities|, items + tail);
    forall be, after | be in entities ensures ParseEntity(P.Prefixed(be) + after) == Ok((be, after)) {
      ByteArrayRoundTrip(be, after);
    }
    ManyExact(P.Prefixed, ParseEntity, entities, tail);
  }

  lemma ChunkFieldsRoundTrip(p: ChunkData)
    requires Encodable(p) && IsCompound(p.heightmaps)
    ensures ParseChunkFields(ChunkFields(p).value) == Ok((p, []))
  {
    hide IsCompound, I32, ParseI32, ParseHeightmaps, P.Prefixed, P.ParseByteArray, EntitiesBytes, ParseEntities;
    var s5 := p.light;
    var s4 := EntitiesBytes(p.blockEntities) + s5;
    var s3 := P.Prefixed(p.data) + s4;
    var s2 := p.heightmaps + s3;
    var s1 := I32(p.z) + s2;
    I32RoundTrip(p.x, s1);
    I32RoundTrip(p.z, s2);
    HeightmapsRoundTrip(p.heightmaps, s3);
    ByteArrayRoundTrip(p.data, s4);
    EntitiesRoundTrip(p.blockEntities, s5);
  }

  lemma ParsedHeightmaps(s: Bytes)
    requires ParseChunkFields(s).Ok?
    ensures IsCompound(ParseChunkFields(s).value.0.heightmaps)
  {
    hide IsCompound, ParseI32, ParseNbt, P.ParseByteArray, ParseEntities;
    var s2 := ParseI32(ParseI32(s).value.1).value.1;
    ReadIsCompound(s2);
  }

  function ChunkBytes(p: ChunkData, maximum: usize): Result<Bytes, PacketError> {
    PacketBytes(CHUNK_DATA_PACKET_ID, ChunkFields(p), maximum)
  }

  function ParseChunk(s: Bytes, maximum: usize): Framed<ChunkData, PacketError> {
    ParsePacket(CHUNK_DATA_PACKET_ID, ParseChunkFields, s, maximum)
  }

  /** A written chunk is read back unchanged exactly when its heightmaps are one compound the skipper can delimit. */
  lemma ChunkRoundTrip(p: ChunkData, maximum: usize, tail: Bytes)
    requires ChunkBytes(p, maximum).Ok?
    ensures ParseChunk(ChunkBytes(p, maximum).value + tail, maximum) == Complete(p, tail)
       <==> IsCompound(p.heightmaps)
  {
    hide IsCompound, ParseChunkFields;
    var body := ChunkFields(p).value;
    PacketFields(CHUNK_DATA_PACKET_ID, ParseChunkFields, body, maximum, tail);
    if IsCompound(p.heightmaps) {
      ChunkFieldsRoundTrip(p);
    }
    if ParseChunkFields(body).Ok? {
      ParsedHeightmaps(body);
    }
  }

  // ---------------------------------------------------------------------------
  // The methods of the source
  // ---------------------------------------------------------------------------

  method EncodeChunkData(p: ChunkData, maximum: usize, output: Output) returns (r: Result<(), PacketError>)
    modifies output
    ensures match ChunkBytes(p, maximum)
            case Ok(b) => r == Ok(()) && output.bytes == old(output.bytes) + b
            case Err(e) => r == Err(e) && output.bytes == old(output.bytes)
  {
    hide FrameBytes, I32, VarIntBytes, EntitiesBytes, P.Prefixed;
    var body := new Output();
    body.bytes := body.bytes + I32(p.x);
    body.bytes := body.bytes + I32(p.z);
    if |p.heightmaps| > MAX_CHUNK_DATA_SIZE {
      return Err(Codec(StringTooLong));
    }
    body.bytes := body.bytes + p.heightmaps;
    var data := P.EncodeByteArray(p.data, MAX_CHUNK_DATA_SIZE, body);
    if data.Err? {
      return Err(FromCodec(data.error));
    }
    ghost var head := body.bytes;
    var entities := EncodeEntities(p.blockEntities, body);
    if entities.Err? {
      return Err(FromCodec(entities.error));
    }
    if |p.light| > MAX_CHUNK_DATA_SIZE {
      return Err(Codec(StringTooLong));
    }
    body.bytes := body.bytes + p.light;
    assert body.bytes == ChunkFields(p).value;
    r := WritePacket(CHUNK_DATA_PACKET_ID, body.bytes, maximum, output);
  }

  method EncodeEntities(entities: seq<Bytes>, body: Output) returns (r: Result<(), CodecError>)
    modifies body
    ensures r.Ok? <==> |entities| <= MAX_BLOCK_ENTITIES && forall be :: be in entities ==> Fits(be)
    ensures r.Ok? ==> body.bytes == old(body.bytes) + EntitiesBytes(entities)
    ensures r.Err? ==> r.error == if |entities| > I32_MAX then VarIntTooLong else StringTooLong
  {
    hide VarIntBytes, P.Prefixed;
    if |entities| > I32_MAX {
      return Err(VarIntTooLong);
    }
    if |entities| > MAX_BLOCK_ENTITIES {
      return Err(StringTooLong);
    }
    EncodeVarInt(|entities|, body);
    ghost var head := body.bytes;
    for i := 0 to |entities|
      invariant forall j :: 0 <= j < i ==> Fits(entities[j])
      invariant body.bytes == head + Many(P.Prefixed, entities[..i])
    {
      assert entities[i] in entities;
      var _ :- P.EncodeByteArray(entities[i], MAX_CHUNK_DATA_SIZE, body);
      ManyNext(P.Prefixed, entities, i);
    }
    assert entities[..|entities|] == entities;
    return Ok(());
  }

  method DecodeEntities(body: Input) returns (r: Result<seq<Bytes>, CodecError>)
    modifies body
    ensures Agrees(ParseEntities(old(body.rest)), r, body.rest)
  {
    hide ParseVarInt, ParseEntity;
    var count :- DecodeVarInt(body);
    if count < 0 {
      return Err(VarIntTooLong);
    }
    if count > MAX_BLOCK_ENTITIES {
      return Err(StringTooLong);
    }
    var entities := [];
    ghost var start := body.rest;
    ReadNone(ParseEntity, count, start);
    for i := 0 to count
      invariant |entities| == i
      invariant ReadSoFar(ParseEntity, count, start, entities, body.rest)
    {
      ReadOne(ParseEntity, count, start, entities, body.rest);
      var be :- DecodeEntity(body);
      entities := entities + [be];
    }
    ReadAll(ParseEntity, count, start, entities, body.rest);
    return Ok(entities);
  }

  method DecodeEntity(body: Input) returns (r: Result<Bytes, CodecError>)
    modifies body
    ensures Agrees(ParseEntity(old(body.rest)), r, body.rest)
  {
    r := P.DecodeByteArray(body, MAX_CHUNK_DATA_SIZE);
  }

  method DecodeChunkFields(body: Input) returns (r: Result<ChunkData, CodecError>)
    modifies body
    ensures Agrees(ParseChunkFields(old(body.rest)), r, body.rest)
  {
    hide ParseI32, ParseNbt, P.ParseByteArray, ParseEntities;
    var x :- DecodeI32(body);
    var z :- DecodeI32(body);
    var heightmaps :- ReadNbtCompound(body);
    if |heightmaps| > MAX_CHUNK_DATA_SIZE {
      return Err(StringTooLong);
    }
    var data :- P.DecodeByteArray(body, MAX_CHUNK_DATA_SIZE);
    var entities :- DecodeEntities(body);
    if |body.rest| > MAX_CHUNK_DATA_SIZE {
      return Err(StringTooLong);
    }
    r := Ok(ChunkData(x, z, heightmaps, data, entities, body.rest));
    body.rest := [];
  }

  method DecodeChunkData(input: Input, maximum: usize) returns (r: Outcome<ChunkData, PacketError>)
    modifies input
    ensures TransactionalFrame(ParseChunk(old(input.rest), maximum), r, old(input.rest), input.rest)
  {
    hide ParseChunkFields;
    var source := input.rest;
    var frame := OpenPacket(input, CHUNK_DATA_PACKET_ID, maximum);
    match frame {
      case NeedMore => return NeedMore;
      case Failed(e) => return Failed(e);
      case Decoded(payload) =>
        var body := new Input(payload);
        var fields := DecodeChunkFields(body);
        r := ClosePacket(input, source, fields, body);
    }
  }
}
