/** Whatever a packet decoder accepts, its encoder accepts too, under the same frame limit, and reads back as the same
    packet; and what the encoders accept at all. */
module Reencoding {
  import opened Wire
  import opened VarInt
  import opened Framing
  import opened Lists
  import opened Packets
  import opened Slots
  import opened Nbt
  import opened NbtTrees
  import opened Text
  import C = Containers
  import D = Chunks
  import H = Handshakes
  import J = JoinGames
  import L = Login
  import P = Primitives

  /** Fields that are not longer than the payload they were read from fit a frame again. */
  lemma Reframed(id: i32, body: Bytes, s: Bytes, maximum: usize)
    requires ParseFrame(s, maximum).Complete? && ParseFrame(s, maximum).value.packetId == id
    requires |body| <= |ParseFrame(s, maximum).value.payload|
    ensures FrameBytes(id, body, maximum).Ok?
  {
    hide FrameBytes, ParseFrame, VarIntBytes;
    var payload := ParseFrame(s, maximum).value.payload;
    FrameCanonical(s, maximum, []);
    FrameAcceptance(id, payload, maximum);
    FrameAcceptance(id, body, maximum);
  }

  lemma StringShrinks(s: Bytes, maxUnits: usize)
    requires ParseString(s, maxUnits).Ok?
    ensures var (t, rest) := ParseString(s, maxUnits).value; Accepted(t, maxUnits) && |Prefixed(t)| + |rest| <= |s|
  {
    hide ParseString, Accepted, Prefixed;
    StringMinimal(s, maxUnits);
    StringBytesAre(ParseString(s, maxUnits).value.0, maxUnits);
  }

  lemma StringBytesAre(t: Text, maxUnits: usize)
    requires StringBytes(t, maxUnits).Ok?
    ensures Accepted(t, maxUnits) && StringBytes(t, maxUnits) == Ok(Prefixed(t))
  {
  }

  lemma ByteArrayShrinks(s: Bytes, maximum: usize)
    requires P.ParseByteArray(s, maximum).Ok?
    ensures var (b, rest) := P.ParseByteArray(s, maximum).value;
            |b| <= maximum && |P.Prefixed(b)| + |rest| <= |s|
  {
    hide ParseVarInt, VarIntBytes;
    VarIntMinimal(s);
  }

  lemma SlotShrinks(s: Bytes)
    requires ParseSlot(s).Ok?
    ensures var (slot, rest) := ParseSlot(s).value; |SlotBytes(slot)| + |rest| <= |s|
  {
    hide ParseVarInt, VarIntBytes, ParseNbt;
    var (present, s1) := ParseBool(s).value;
    if present {
      VarIntMinimal(s1);
    }
  }

  /** Counts no list may have, whatever follows them. */
  lemma CountsRefused(n: i32, rest: Bytes)
    ensures var s := VarIntBytes(n) + rest;
            && (n < 0 ==> D.ParseEntities(s) == Err(VarIntTooLong))
            && (n < 0 ==> J.ParseNames(s) == Err(VarIntTooLong))
            && (n < 0 ==> L.ParseProperties(s) == Err(VarIntTooLong))
            && (n > 1024 ==> D.ParseEntities(s) == Err(StringTooLong))
            && (n > 256 ==> J.ParseNames(s) == Err(StringTooLong))
            && (n > 1024 ==> L.ParseProperties(s) == Err(StringTooLong))
  {
    hide VarIntBytes, ParseVarInt;
    VarIntRoundTrip(n, rest);
  }

  /** The same for the slots and changes of a container, behind the fields in front of them. */
  lemma SlotCountsRefused(windowId: byte, stateId: i32, mode: i32, n: i32, rest: Bytes)
    requires n < 0 || n > 256
    ensures C.ParseContentFields([windowId] + (VarIntBytes(stateId) + (VarIntBytes(n) + rest))) == Err(VarIntTooLong)
    ensures C.ParseClickTail(VarIntBytes(mode) + (VarIntBytes(n) + rest)) == Err(InvalidBoolean)
  {
    hide VarIntBytes, ParseVarInt;
    VarIntRoundTrip(n, rest);
    VarIntRoundTrip(stateId, VarIntBytes(n) + rest);
    VarIntRoundTrip(mode, VarIntBytes(n) + rest);
    var s1 := VarIntBytes(stateId) + (VarIntBytes(n) + rest);
    assert ([windowId] + s1)[1..] == s1;
  }

  // ---------------------------------------------------------------------------
  // Set Container Content
  // ---------------------------------------------------------------------------

  lemma ContentAcceptance(p: C.Content, maximum: usize)
    ensures C.ContentFields(p).Ok? <==> |p.slots| <= 256
    ensures C.ContentBytes(p, maximum).Ok?
       <==> |p.slots| <= 256 && FrameBytes(0x12, C.ContentFields(p).value, maximum).Ok?
  {
    hide FrameBytes, C.SlotsBytes, SlotBytes, VarIntBytes;
  }

  lemma ContentShrinks(s: Bytes)
    requires C.ParseContentFields(s).Ok?
    ensures var (p, rest) := C.ParseContentFields(s).value;
            C.ContentFields(p).Ok? && |C.ContentFields(p).value| + |rest| <= |s|
  {
    hide ParseSlot, SlotBytes, ParseVarInt, VarIntBytes;
    var s1 := ParseU8(s).value.1;
    var s2 := ParseVarInt(s1).value.1;
    var (count, s3) := ParseVarInt(s2).value;
    VarIntMinimal(s1);
    VarIntMinimal(s2);
    forall b | ParseSlot(b).Ok? ensures |SlotBytes(ParseSlot(b).value.0)| + |ParseSlot(b).value.1| <= |b| {
      SlotShrinks(b);
    }
    ManyShrinks(SlotBytes, ParseSlot, count, s3);
  }

  lemma ContentReencodes(s: Bytes, maximum: usize, tail: Bytes)
    requires C.ParseContent(s, maximum).Complete?
    ensures var p := C.ParseContent(s, maximum).value;
            && |p.slots| <= 256 && C.ContentBytes(p, maximum).Ok?
            && C.ParseContent(C.ContentBytes(p, maximum).value + tail, maximum) == Complete(p, tail)
  {
    hide C.ParseContentFields, C.ContentFields, C.NormalContent, ParseFrame, FrameBytes;
    var payload := ParseFrame(s, maximum).value.payload;
    var p := C.ParseContent(s, maximum).value;
    ContentShrinks(payload);
    ContentAcceptance(p, maximum);
    Reframed(0x12, C.ContentFields(p).value, s, maximum);
    C.ParsedContentNormal(payload);
    C.ContentRoundTrip(p, maximum, tail);
  }

  // ---------------------------------------------------------------------------
  // Click Container
  // ---------------------------------------------------------------------------

  /** The encoder accepts every click that fits a frame. */
  lemma ClickAcceptance(p: C.Click, maximum: usize)
    ensures C.ClickBytes(p, maximum).Ok? <==> FrameBytes(0x0B, C.ClickFields(p), maximum).Ok?
  {
    hide FrameBytes, C.ClickFields;
  }

  lemma ChangeShrinks(s: Bytes)
    requires C.ParseChange(s).Ok?
    ensures var (c, rest) := C.ParseChange(s).value; |C.ChangeBytes(c)| + |rest| <= |s|
  {
    hide ParseSlot, SlotBytes;
    SlotShrinks(ParseI16(s).value.1);
  }

  lemma ClickTailShrinks(s: Bytes, p: C.Click)
    requires C.ParseClickTail(s).Ok? && (p.mode, p.changes, p.cursor) == C.ParseClickTail(s).value.0
    ensures |p.changes| <= 256 && |C.ClickTail(p)| + |C.ParseClickTail(s).value.1| <= |s|
  {
    hide ParseSlot, SlotBytes, ParseVarInt, VarIntBytes, C.ParseChange, C.ChangeBytes;
    var s1 := ParseVarInt(s).value.1;
    var (count, s2) := ParseVarInt(s1).value;
    VarIntMinimal(s);
    VarIntMinimal(s1);
    forall b | C.ParseChange(b).Ok?
      ensures |C.ChangeBytes(C.ParseChange(b).value.0)| + |C.ParseChange(b).value.1| <= |b| {
      ChangeShrinks(b);
    }
    ManyShrinks(C.ChangeBytes, C.ParseChange, count, s2);
    SlotShrinks(ParseMany(C.ParseChange, count, s2).value.1);
  }

  lemma ClickShrinks(s: Bytes)
    requires C.ParseClickFields(s).Ok?
    ensures var (p, rest) := C.ParseClickFields(s).value; |p.changes| <= 256 && |C.ClickFields(p)| + |rest| <= |s|
  {
    hide C.ParseClickTail, C.ClickTail, ParseVarInt, VarIntBytes;
    var s1 := ParseU8(s).value.1;
    VarIntMinimal(s1);
    var s3 := ParseI16(ParseVarInt(s1).value.1).value.1;
    var s4 := ParseI8(s3).value.1;
    ClickTailShrinks(s4, C.ParseClickFields(s).value.0);
  }

  lemma ClickReencodes(s: Bytes, maximum: usize, tail: Bytes)
    requires C.ParseClick(s, maximum).Complete?
    ensures var p := C.ParseClick(s, maximum).value;
            && |p.changes| <= 256 && C.ClickBytes(p, maximum).Ok?
            && C.ParseClick(C.ClickBytes(p, maximum).value + tail, maximum) == Complete(p, tail)
  {
    hide C.ParseClickFields, C.ClickFields, C.NormalClick, ParseFrame, FrameBytes;
    var payload := ParseFrame(s, maximum).value.payload;
    var p := C.ParseClick(s, maximum).value;
    ClickShrinks(payload);
    ClickAcceptance(p, maximum);
    Reframed(0x0B, C.ClickFields(p), s, maximum);
    ParsedClickIsNormal(payload);
    C.ClickRoundTrip(p, maximum, tail);
  }

  lemma ParsedClickIsNormal(s: Bytes)
    requires C.ParseClickFields(s).Ok?
    ensures C.NormalClick(C.ParseClickFields(s).value.0)
  {
    hide C.ParseClickTail, ParseVarInt, Normal;
    var s3 := ParseI16(ParseVarInt(ParseU8(s).value.1).value.1).value.1;
    C.ParsedClickNormal(ParseI8(s3).value.1);
  }

  // ---------------------------------------------------------------------------
  // Chunk Data
  // ---------------------------------------------------------------------------

  lemma ChunkAcceptance(p: D.ChunkData, maximum: usize)
    ensures D.ChunkFields(p).Ok?
       <==> && |p.heightmaps| <= 0x10_0000 && |p.data| <= 0x10_0000 && |p.light| <= 0x10_0000
            && |p.blockEntities| <= 1024 && forall be :: be in p.blockEntities ==> |be| <= 0x10_0000
    ensures D.ChunkBytes(p, maximum).Ok?
       <==> D.ChunkFields(p).Ok? && FrameBytes(0x24, D.ChunkFields(p).value, maximum).Ok?
  {
    hide FrameBytes, D.EntitiesBytes, P.Prefixed, I32;
    assert forall be :: be in p.blockEntities ==> (D.Fits(be) <==> |be| <= 0x10_0000);
  }

  lemma EntitiesShrink(s: Bytes)
    requires D.ParseEntities(s).Ok?
    ensures var (entities, rest) := D.ParseEntities(s).value;
            && |entities| <= 1024 && (forall be :: be in entities ==> D.Fits(be))
            && |D.EntitiesBytes(entities)| + |rest| <= |s|
  {
    hide ParseVarInt, VarIntBytes, P.ParseByteArray, P.Prefixed, D.ParseEntity;
    var (count, s1) := ParseVarInt(s).value;
    VarIntMinimal(s);
    forall b | D.ParseEntity(b).Ok?
      ensures D.Fits(D.ParseEntity(b).value.0)
      ensures |P.Prefixed(D.ParseEntity(b).value.0)| + |D.ParseEntity(b).value.1| <= |b| {
      EntityShrinks(b);
    }
    ManyShrinks(P.Prefixed, D.ParseEntity, count, s1);
    ManyAll(D.ParseEntity, count, s1, D.Fits);
  }

  lemma EntityShrinks(b: Bytes)
    requires D.ParseEntity(b).Ok?
    ensures var (be, rest) := D.ParseEntity(b).value; D.Fits(be) && |P.Prefixed(be)| + |rest| <= |b|
  {
    hide P.ParseByteArray, P.Prefixed;
    ByteArrayShrinks(b, 0x10_0000);
  }

  lemma ChunkShrinks(s: Bytes)
    requires D.ParseChunkFields(s).Ok?
    ensures var (p, rest) := D.ParseChunkFields(s).value;
            D.ChunkFields(p).Ok? && |D.ChunkFields(p).value| + |rest| <= |s|
  {
    hide P.ParseByteArray, P.Prefixed, D.ParseEntities, D.EntitiesBytes, ParseNbt;
    var s2 := ParseI32(ParseI32(s).value.1).value.1;
    var (heightmaps, s3) := D.ParseHeightmaps(s2).value;
    assert heightmaps + s3 == s2;
    ByteArrayShrinks(s3, 0x10_0000);
    EntitiesShrink(P.ParseByteArray(s3, 0x10_0000).value.1);
  }

  lemma ChunkReencodes(s: Bytes, maximum: usize, tail: Bytes)
    requires D.ParseChunk(s, maximum).Complete?
    ensures var p := D.ParseChunk(s, maximum).value;
            && D.ChunkBytes(p, maximum).Ok?
            && D.ParseChunk(D.ChunkBytes(p, maximum).value + tail, maximum) == Complete(p, tail)
  {
    hide D.ParseChunkFields, D.ChunkFields, IsCompound, ParseFrame, FrameBytes;
    var payload := ParseFrame(s, maximum).value.payload;
    var p := D.ParseChunk(s, maximum).value;
    ChunkShrinks(payload);
    ChunkAcceptance(p, maximum);
    Reframed(0x24, D.ChunkFields(p).value, s, maximum);
    D.ParsedHeightmaps(payload);
    D.ChunkRoundTrip(p, maximum, tail);
  }

  // ---------------------------------------------------------------------------
  // Join Game
  // ---------------------------------------------------------------------------

  lemma JoinGameAcceptance(p: J.JoinGame, maximum: usize)
    ensures J.JoinGameFields(p).Ok?
       <==> && |p.worlds.names| <= 256 && |p.worlds.registry| <= 0x10_0000
            && (forall name :: name in p.worlds.names ==> Accepted(name, 32767))
            && Accepted(p.worlds.dimensionType, 32767) && Accepted(p.worlds.dimensionName, 32767)
            && (p.death.present ==> Accepted(p.death.dimensionName, 32767))
    ensures J.JoinGameBytes(p, maximum).Ok?
       <==> J.JoinGameFields(p).Ok? && FrameBytes(0x28, J.JoinGameFields(p).value, maximum).Ok?
  {
    hide FrameBytes, Accepted, J.PlayerBytes, J.WorldsBytes, J.RulesBytes, J.DeathBytes, VarIntBytes;
  }

  lemma PlayerShrinks(s: Bytes)
    requires J.ParsePlayer(s).Ok?
    ensures var (p, rest) := J.ParsePlayer(s).value; |J.PlayerBytes(p)| + |rest| <= |s|
  {
  }

  lemma NamesShrink(s: Bytes)
    requires J.ParseNames(s).Ok?
    ensures var (names, rest) := J.ParseNames(s).value; J.NamesFit(names) && |J.NamesBytes(names)| + |rest| <= |s|
  {
    hide ParseVarInt, VarIntBytes, J.ParseName, Accepted, Prefixed;
    var (count, s1) := ParseVarInt(s).value;
    VarIntMinimal(s);
    forall b | J.ParseName(b).Ok?
      ensures Accepted(J.ParseName(b).value.0, 32767)
      ensures |Prefixed(J.ParseName(b).value.0)| + |J.ParseName(b).value.1| <= |b| {
      NameShrinks(b);
    }
    ManyShrinks(Prefixed, J.ParseName, count, s1);
    ManyAll(J.ParseName, count, s1, (name: Text) => Accepted(name, 32767));
  }

  lemma NameShrinks(b: Bytes)
    requires J.ParseName(b).Ok?
    ensures var (name, rest) := J.ParseName(b).value; Accepted(name, 32767) && |Prefixed(name)| + |rest| <= |b|
  {
    hide ParseString, Accepted, Prefixed;
    StringShrinks(b, 32767);
  }

  lemma WorldsShrink(s: Bytes)
    requires J.ParseWorlds(s).Ok?
    ensures var (w, rest) := J.ParseWorlds(s).value; J.WorldsFit(w) && |J.WorldsBytes(w)| + |rest| <= |s|
  {
    hide J.ParseNames, J.NamesFit, J.NamesBytes, J.ParseName, Accepted, Prefixed, ParseNbt;
    NamesShrink(s);
    var s1 := J.ParseNames(s).value.1;
    var (registry, s2) := J.ParseRegistry(s1).value;
    assert registry + s2 == s1;
    NameShrinks(s2);
    NameShrinks(J.ParseName(s2).value.1);
  }

  lemma RulesShrink(s: Bytes)
    requires J.ParseRules(s).Ok?
    ensures var (r, rest) := J.ParseRules(s).value; |J.RulesBytes(r)| + |rest| <= |s|
  {
    hide ParseVarInt, VarIntBytes;
    var s1 := ParseI64(s).value.1;
    VarIntMinimal(s1);
    var s2 := ParseVarInt(s1).value.1;
    VarIntMinimal(s2);
    VarIntMinimal(ParseVarInt(s2).value.1);
  }

  lemma DeathShrinks(s: Bytes)
    requires J.ParseDeath(s).Ok?
    ensures var (d, rest) := J.ParseDeath(s).value;
            && (d.present ==> Accepted(d.dimensionName, 32767)) && |J.DeathBytes(d)| + |rest| <= |s|
  {
    hide J.ParseName, Accepted, Prefixed, P.PositionBytes, P.Unpack;
    var (present, s1) := ParseBool(s).value;
    if present {
      NameShrinks(s1);
    }
  }

  lemma JoinGameShrinks(s: Bytes)
    requires J.ParseJoinGameFields(s).Ok?
    ensures var (p, rest) := J.ParseJoinGameFields(s).value;
            J.JoinGameFields(p).Ok? && |J.JoinGameFields(p).value| + |rest| <= |s|
  {
    hide J.ParsePlayer, J.PlayerBytes, J.ParseWorlds, J.WorldsBytes, J.WorldsFit, J.ParseRules, J.RulesBytes,
         J.ParseDeath, J.DeathBytes, Accepted, ParseVarInt, VarIntBytes;
    PlayerShrinks(s);
    var s1 := J.ParsePlayer(s).value.1;
    WorldsShrink(s1);
    var s2 := J.ParseWorlds(s1).value.1;
    RulesShrink(s2);
    var s3 := J.ParseRules(s2).value.1;
    DeathShrinks(s3);
    VarIntMinimal(J.ParseDeath(s3).value.1);
  }

  lemma JoinGameReencodes(s: Bytes, maximum: usize, tail: Bytes)
    requires J.ParseJoinGame(s, maximum).Complete?
    ensures var p := J.ParseJoinGame(s, maximum).value;
            && J.JoinGameBytes(p, maximum).Ok?
            && J.ParseJoinGame(J.JoinGameBytes(p, maximum).value + tail, maximum) == Complete(p, tail)
  {
    hide J.ParseJoinGameFields, J.JoinGameFields, J.NormalJoinGame, ParseFrame, FrameBytes;
    var payload := ParseFrame(s, maximum).value.payload;
    var p := J.ParseJoinGame(s, maximum).value;
    JoinGameShrinks(payload);
    Reframed(0x28, J.JoinGameFields(p).value, s, maximum);
    J.ParsedJoinGameNormal(payload);
    J.JoinGameRoundTrip(p, maximum, tail);
  }

  // ---------------------------------------------------------------------------
  // Login Success
  // ---------------------------------------------------------------------------

  predicate PropertyAccepted(q: L.Property) {
    Accepted(q.name, 32767) && Accepted(q.value, 32767)
    && (q.signature.Some? ==> Accepted(q.signature.value, 32767))
  }

  lemma LoginSuccessAcceptance(p: L.LoginSuccess, maximum: usize)
    ensures L.LoginSuccessFields(p).Ok?
       <==> && Accepted(p.username, 16) && |p.properties| <= 1024
            && forall q :: q in p.properties ==> PropertyAccepted(q)
    ensures L.LoginSuccessBytes(p, maximum).Ok?
       <==> L.LoginSuccessFields(p).Ok? && FrameBytes(2, L.LoginSuccessFields(p).value, maximum).Ok?
  {
    hide FrameBytes, Accepted, Prefixed, L.PropertiesBytes, P.UuidBytes;
    assert forall q :: L.PropertyFits(q) <==> PropertyAccepted(q);
  }

  lemma PropertyShrinks(s: Bytes)
    requires L.ParseProperty(s).Ok?
    ensures var (q, rest) := L.ParseProperty(s).value; L.PropertyFits(q) && |L.PropertyBytes(q)| + |rest| <= |s|
  {
    hide ParseString, Accepted, Prefixed;
    StringShrinks(s, 32767);
    var s1 := ParseString(s, 32767).value.1;
    StringShrinks(s1, 32767);
    var s2 := ParseString(s1, 32767).value.1;
    var (present, s3) := ParseBool(s2).value;
    if present {
      StringShrinks(s3, 32767);
    }
  }

  lemma LoginSuccessShrinks(s: Bytes)
    requires L.ParseLoginSuccessFields(s).Ok?
    ensures var (p, rest) := L.ParseLoginSuccessFields(s).value;
            L.LoginSuccessFields(p).Ok? && |L.LoginSuccessFields(p).value| + |rest| <= |s|
  {
    hide ParseVarInt, VarIntBytes, ParseString, Accepted, Prefixed, L.ParseProperty, L.PropertyBytes, L.PropertyFits;
    var s1 := P.ParseUuid(s).value.1;
    StringShrinks(s1, 16);
    var s2 := ParseString(s1, 16).value.1;
    VarIntMinimal(s2);
    var (count, s3) := ParseVarInt(s2).value;
    forall b | L.ParseProperty(b).Ok?
      ensures L.PropertyFits(L.ParseProperty(b).value.0)
      ensures |L.PropertyBytes(L.ParseProperty(b).value.0)| + |L.ParseProperty(b).value.1| <= |b| {
      PropertyShrinks(b);
    }
    ManyShrinks(L.PropertyBytes, L.ParseProperty, count, s3);
    ManyAll(L.ParseProperty, count, s3, L.PropertyFits);
  }

  lemma LoginSuccessReencodes(s: Bytes, maximum: usize, tail: Bytes)
    requires L.ParseLoginSuccess(s, maximum).Complete?
    ensures var p := L.ParseLoginSuccess(s, maximum).value;
            && L.LoginSuccessBytes(p, maximum).Ok?
            && L.ParseLoginSuccess(L.LoginSuccessBytes(p, maximum).value + tail, maximum) == Complete(p, tail)
  {
    hide L.ParseLoginSuccessFields, L.LoginSuccessFields, ParseFrame, FrameBytes;
    var p := L.ParseLoginSuccess(s, maximum).value;
    LoginSuccessShrinks(ParseFrame(s, maximum).value.payload);
    Reframed(2, L.LoginSuccessFields(p).value, s, maximum);
    L.LoginSuccessRoundTrip(p, maximum, tail);
  }

  // ---------------------------------------------------------------------------
  // Handshake
  // ---------------------------------------------------------------------------

  lemma HandshakeAcceptance(h: H.Handshake, maximum: usize)
    ensures H.HandshakeBytes(h, maximum).Ok?
       <==> Accepted(h.address, 255) && FrameBytes(0, H.Fields(h), maximum).Ok?
  {
    hide FrameBytes, Accepted, H.Fields;
  }

  lemma HandshakeShrinks(frame: Frame)
    requires H.ParseBody(frame).Ok?
    ensures var h := H.ParseBody(frame).value;
            frame.packetId == 0 && Accepted(h.address, 255) && |H.Fields(h)| <= |frame.payload|
  {
    hide ParseVarInt, VarIntBytes, ParseString, Accepted, Prefixed;
    VarIntMinimal(frame.payload);
    var s1 := ParseVarInt(frame.payload).value.1;
    StringShrinks(s1, 255);
    var s3 := ParseU16(ParseString(s1, 255).value.1).value.1;
    VarIntMinimal(s3);
  }

  lemma HandshakeReencodes(s: Bytes, maximum: usize, tail: Bytes)
    requires H.ParseHandshake(s, maximum).Ok?
    ensures var h := H.ParseHandshake(s, maximum).value.0;
            && H.HandshakeBytes(h, maximum).Ok?
            && H.ParseHandshake(H.HandshakeBytes(h, maximum).value + tail, maximum) == Ok((h, tail))
  {
    hide H.ParseBody, H.Fields, ParseFrame, FrameBytes, Accepted;
    var h := H.ParseHandshake(s, maximum).value.0;
    HandshakeShrinks(ParseFrame(s, maximum).value);
    Reframed(0, H.Fields(h), s, maximum);
    HandshakeAcceptance(h, maximum);
    H.HandshakeRoundTrip(h, maximum, tail);
  }
}
