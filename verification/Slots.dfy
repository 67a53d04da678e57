/** Item slots on the wire (`encode_slot`, `decode_slot`). */
module Slots {
  import opened Wire
  import opened VarInt
  import opened Nbt
  import opened NbtTrees
  import opened NbtWalkers

  datatype Slot = Slot(present: bool, itemId: i32, count: i8, nbt: Bytes)

  const EMPTY_SLOT: Slot := Slot(false, 0, 0, [])

  function SlotBytes(slot: Slot): (b: Bytes)
    ensures b != []
  {
    if !slot.present then Bool(false)
    else Bool(true) + (VarIntBytes(slot.itemId) + (I8(slot.count) + (if slot.nbt == [] then [TAG_END] else slot.nbt)))
  }

  function ParseSlotNbt(s: Bytes): Parsed<Bytes> {
    if s == [] then Err(IncompleteInput)
    else if s[0] == TAG_END then Ok(([], s[1..]))
    else ParseNbt(s)
  }

  function ParseSlot(s: Bytes): Parsed<Slot> {
    var (present, s1) :- ParseBool(s);
    if !present then Ok((EMPTY_SLOT, s1))
    else
      var (itemId, s2) :- ParseVarInt(s1);
      var (count, s3) :- ParseI8(s2);
      var (nbt, s4) :- ParseSlotNbt(s3);
      Ok((Slot(true, itemId, count, nbt), s4))
  }

  /** An absent item has no other content, and NBT is either missing or one compound the skipper can delimit. */
  ghost predicate Normal(slot: Slot) {
    if slot.present then slot.nbt == [] || IsCompound(slot.nbt) else slot == EMPTY_SLOT
  }

  lemma SlotNbtRoundTrip(nbt: Bytes, tail: Bytes)
    requires nbt == [] || IsCompound(nbt)
    ensures ParseSlotNbt((if nbt == [] then [TAG_END] else nbt) + tail) == Ok((nbt, tail))
  {
    if nbt == [] {
      assert ([TAG_END] + tail)[1..] == tail;
    } else {
      ReadCharacterised(nbt + tail, nbt, tail);
    }
  }

  lemma SlotRoundTrip(slot: Slot, tail: Bytes)
    requires Normal(slot)
    ensures ParseSlot(SlotBytes(slot) + tail) == Ok((slot, tail))
  {
    hide Normal, IsCompound, ParseVarInt, ParseI8, ParseSlotNbt, VarIntBytes, I8;
    if slot.present {
      var nbt := if slot.nbt == [] then [TAG_END] else slot.nbt;
      var s3 := nbt + tail;
      var s2 := I8(slot.count) + s3;
      var s1 := VarIntBytes(slot.itemId) + s2;
      assert SlotBytes(slot) + tail == Bool(true) + s1;
      BoolRoundTrip(true, s1);
      VarIntRoundTrip(slot.itemId, s2);
      I8RoundTrip(slot.count, s3);
      NormalNbt(slot);
      SlotNbtRoundTrip(slot.nbt, tail);
    } else {
      BoolRoundTrip(false, tail);
      NormalNbt(slot);
    }
  }

  lemma NormalNbt(slot: Slot)
    requires Normal(slot)
    ensures if slot.present then slot.nbt == [] || IsCompound(slot.nbt) else slot == EMPTY_SLOT
  {
  }

  /** Only normal slots are ever read. */
  lemma ParsedSlotNormal(s: Bytes)
    requires ParseSlot(s).Ok?
    ensures Normal(ParseSlot(s).value.0)
  {
    hide IsCompound, ParseNbt;
    var slot := ParseSlot(s).value.0;
    if slot.present {
      var s1 := ParseBool(s).value.1;
      var s2 := ParseVarInt(s1).value.1;
      var s3 := ParseI8(s2).value.1;
      if s3[0] != TAG_END {
        ReadIsCompound(s3);
      }
    }
  }

  /** So a slot survives the wire exactly when it is normal. */
  lemma SlotExact(slot: Slot)
    ensures ParseSlot(SlotBytes(slot)) == Ok((slot, [])) <==> Normal(slot)
  {
    hide Normal, ParseSlot, SlotBytes;
    if Normal(slot) {
      SlotRoundTrip(slot, []);
      assert SlotBytes(slot) + [] == SlotBytes(slot);
    }
    if ParseSlot(SlotBytes(slot)) == Ok((slot, [])) {
      ParsedSlotNormal(SlotBytes(slot));
    }
  }

  // ---------------------------------------------------------------------------
  // The cursor after a failure
  // ---------------------------------------------------------------------------

  /** Where `decode_slot` leaves its cursor: behind the last field it could read. */
  function SlotCursor(s: Bytes): Bytes {
    match ParseBool(s)
    case Err(_) => s
    case Ok((present, s1)) =>
      if !present then s1
      else
        match ParseVarInt(s1)
        case Err(_) => s1
        case Ok((_, s2)) =>
          match ParseI8(s2)
          case Err(_) => s2
          case Ok((_, s3)) => if ParseSlotNbt(s3).Ok? then ParseSlotNbt(s3).value.1 else s3
  }

  /** A failure leaves the input as it was exactly when already the presence byte is missing or no Boolean. */
  lemma SlotRestored(s: Bytes)
    requires ParseSlot(s).Err?
    ensures SlotCursor(s) == s <==> s == [] || s[0] > 1
  {
    hide ParseSlotNbt;
    assert s != [] && s[0] == 1 ==> |SlotCursor(s)| < |s|;
  }

  /** For instance, a presence byte with nothing behind it is consumed, and the caller is told to wait for more. */
  lemma PresenceByteLost()
    ensures ParseSlot([1]) == Err(IncompleteInput) && SlotCursor([1]) == []
  {
  }

  method EncodeSlot(slot: Slot, output: Output)
    modifies output
    ensures output.bytes == old(output.bytes) + SlotBytes(slot)
  {
    output.bytes := output.bytes + Bool(slot.present);
    if slot.present {
      EncodeVarInt(slot.itemId, output);
      output.bytes := output.bytes + I8(slot.count);
      if slot.nbt == [] {
        output.bytes := output.bytes + [TAG_END];
      } else {
        output.bytes := output.bytes + slot.nbt;
      }
    }
  }

  /** The one decoder here that leaves its cursor wherever it failed. */
  method DecodeSlot(input: Input) returns (r: Result<Slot, CodecError>)
    modifies input
    ensures Agrees(ParseSlot(old(input.rest)), r, input.rest) && input.rest == SlotCursor(old(input.rest))
  {
    hide ParseVarInt, ParseI8, ParseNbt;
    var present :- DecodeBool(input);
    if !present {
      return Ok(EMPTY_SLOT);
    }
    var itemId :- DecodeVarInt(input);
    var count :- DecodeI8(input);
    if input.rest == [] {
      return Err(IncompleteInput);
    }
    if input.rest[0] == TAG_END {
      input.rest := input.rest[1..];
      return Ok(Slot(true, itemId, count, []));
    }
    var nbt :- ReadNbtCompound(input);
    return Ok(Slot(true, itemId, count, nbt));
  }
}
