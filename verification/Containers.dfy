/** Set Container Content and Click Container (`play.rs`). */
module Containers {
  import opened Wire
  import opened VarInt
  import opened Framing
  import opened Lists
  import opened Packets
  import opened Slots

  const MAX_CONTAINER_SLOTS: int := 256
  const SET_CONTAINER_CONTENT_PACKET_ID: i32 := 0x12
  const CLICK_CONTAINER_PACKET_ID: i32 := 0x0B

  ghost predicate AllNormal(slots: seq<Slot>) {
    forall slot :: slot in slots ==> Normal(slot)
  }

  function SlotsBytes(slots: seq<Slot>): Bytes {
    Many(SlotBytes, slots)
  }

  function ParseSlots(n: nat, s: Bytes): (r: Parsed<seq<Slot>>)
    ensures r.Ok? ==> |r.value.0| == n
  {
    ParseMany(ParseSlot, n, s)
  }

  lemma SlotsRoundTrip(slots: seq<Slot>, tail: Bytes)
    requires AllNormal(slots)
    ensures ParseSlots(|slots|, SlotsBytes(slots) + tail) == Ok((slots, tail))
  {
    hide Normal, ParseSlot, SlotBytes;
    forall slot, after | slot in slots ensures ParseSlot(SlotBytes(slot) + after) == Ok((slot, after)) {
      SlotRoundTrip(slot, after);
    }
    ManyExact(SlotBytes, ParseSlot, slots, tail);
  }

  lemma {:induction false} ParsedSlotsNormal(n: nat, s: Bytes)
    requires ParseSlots(n, s).Ok?
    ensures AllNormal(ParseSlots(n, s).value.0)
  {
    hide Normal, ParseSlot;
    if n > 0 {
      ParsedSlotNormal(s);
      ParsedSlotsNormal(n - 1, ParseSlot(s).value.1);
    }
  }

  // ---------------------------------------------------------------------------
  // Set Container Content
  // ---------------------------------------------------------------------------

  datatype Content = Content(windowId: byte, stateId: i32, slots: seq<Slot>, carried: Slot)

  function ContentFields(p: Content): Result<Bytes, CodecError> {
    if |p.slots| > MAX_CONTAINER_SLOTS then Err(VarIntTooLong)
    else Ok(U8(p.windowId) + (VarIntBytes(p.stateId)
            + (VarIntBytes(|p.slots|) + (SlotsBytes(p.slots) + SlotBytes(p.carried)))))
  }

  function ParseContentFields(s: Bytes): Parsed<Content> {
    var (windowId, s1) :- ParseU8(s);
    var (stateId, s2) :- ParseVarInt(s1);
    var (count, s3) :- ParseVarInt(s2);
    if count < 0 || count > MAX_CONTAINER_SLOTS then Err(VarIntTooLong)
    else
      var (slots, s4) :- ParseSlots(count, s3);
      var (carried, s5) :- ParseSlot(s4);
      Ok((Content(windowId, stateId, slots, carried), s5))
  }

  ghost predicate NormalContent(p: Content) {
    AllNormal(p.slots) && Normal(p.carried)
  }

  lemma ContentFieldsRoundTrip(p: Content)
    requires ContentFields(p).Ok? && NormalContent(p)
    ensures ParseContentFields(ContentFields(p).value) == Ok((p, []))
  {
    hide AllNormal, Normal, ParseSlots, ParseSlot, SlotsBytes, SlotBytes, ParseVarInt, VarIntBytes;
    var s4 := SlotBytes(p.carried);
    var s3 := SlotsBytes(p.slots) + s4;
    var s2 := VarIntBytes(|p.slots|) + s3;
    var s1 := VarIntBytes(p.stateId) + s2;
    assert (U8(p.windowId) + s1)[1..] == s1;
    VarIntRoundTrip(p.stateId, s2);
    VarIntRoundTrip(|p.slots|, s3);
    SlotsRoundTrip(p.slots, s4);
    SlotExact(p.carried);
  }

  lemma ParsedContentNormal(s: Bytes)
    requires ParseContentFields(s).Ok?
    ensures NormalContent(ParseContentFields(s).value.0)
  {
    hide AllNormal, Normal, ParseSlots, ParseSlot, ParseVarInt;
    var s1 := ParseU8(s).value.1;
    var s2 := ParseVarInt(s1).value.1;
    var (count, s3) := ParseVarInt(s2).value;
    ParsedSlotsNormal(count, s3);
    ParsedSlotNormal(ParseSlots(count, s3).value.1);
  }

  function ContentBytes(p: Content, maximum: usize): Result<Bytes, PacketError> {
    PacketBytes(SET_CONTAINER_CONTENT_PACKET_ID, ContentFields(p), maximum)
  }

  function ParseContent(s: Bytes, maximum: usize): Framed<Content, PacketError> {
    ParsePacket(SET_CONTAINER_CONTENT_PACKET_ID, ParseContentFields, s, maximum)
  }

  /** A written packet is read back unchanged exactly when all its slots are normal. */
  lemma ContentRoundTrip(p: Content, maximum: usize, tail: Bytes)
    requires ContentBytes(p, maximum).Ok?
    ensures ParseContent(ContentBytes(p, maximum).value + tail, maximum) == Complete(p, tail) <==> NormalContent(p)
  {
    hide NormalContent, ContentFields, ParseContentFields;
    var body := ContentFields(p).value;
    PacketFields(SET_CONTAINER_CONTENT_PACKET_ID, ParseContentFields, body, maximum, tail);
    if NormalContent(p) {
      ContentFieldsRoundTrip(p);
    }
    if ParseContentFields(body).Ok? {
      ParsedContentNormal(body);
    }
  }

  // ---------------------------------------------------------------------------
  // Click Container
  // ---------------------------------------------------------------------------

  datatype Change = Change(slot: i16, item: Slot)
  datatype Click = Click(windowId: byte, stateId: i32, slot: i16, button: i8, mode: i32, changes: seq<Change>,
                         cursor: Slot)

  function ChangeBytes(c: Change): Bytes {
    I16(c.slot) + SlotBytes(c.item)
  }

  function ParseChange(s: Bytes): Parsed<Change> {
    var (slot, s1) :- ParseI16(s);
    var (item, s2) :- ParseSlot(s1);
    Ok((Change(slot, item), s2))
  }

  /** `i32::try_from(len).unwrap_or(i32::MAX)`. */
  function ChangeCount(n: nat): i32 {
    if n > I32_MAX then I32_MAX else n
  }

  function ClickTail(p: Click): Bytes {
    VarIntBytes(p.mode) + (VarIntBytes(ChangeCount(|p.changes|)) + (Many(ChangeBytes, p.changes) + SlotBytes(p.cursor)))
  }

  /** The encoder does not bound the number of changes. */
  function ClickFields(p: Click): Bytes {
    U8(p.windowId) + (VarIntBytes(p.stateId) + (I16(p.slot) + (I8(p.button) + ClickTail(p))))
  }

  function ParseClickTail(s: Bytes): Parsed<(i32, seq<Change>, Slot)> {
    var (mode, s1) :- ParseVarInt(s);
    var (count, s2) :- ParseVarInt(s1);
    if count < 0 || count > MAX_CONTAINER_SLOTS then Err(InvalidBoolean)
    else
      var (changes, s3) :- ParseMany(ParseChange, count, s2);
      var (cursor, s4) :- ParseSlot(s3);
      Ok(((mode, changes, cursor), s4))
  }

  function ParseClickFields(s: Bytes): Parsed<Click> {
    var (windowId, s1) :- ParseU8(s);
    var (stateId, s2) :- ParseVarInt(s1);
    var (slot, s3) :- ParseI16(s2);
    var (button, s4) :- ParseI8(s3);
    var ((mode, changes, cursor), s5) :- ParseClickTail(s4);
    Ok((Click(windowId, stateId, slot, button, mode, changes, cursor), s5))
  }

  ghost predicate NormalClick(p: Click) {
    (forall c :: c in p.changes ==> Normal(c.item)) && Normal(p.cursor)
  }

  lemma ChangeRoundTrip(c: Change, tail: Bytes)
    requires Normal(c.item)
    ensures ParseChange(ChangeBytes(c) + tail) == Ok((c, tail))
  {
    hide Normal, ParseSlot, SlotBytes, ParseI16, I16;
    assert ChangeBytes(c) + tail == I16(c.slot) + (SlotBytes(c.item) + tail);
    I16RoundTrip(c.slot, SlotBytes(c.item) + tail);
    SlotRoundTrip(c.item, tail);
  }

  lemma {:induction false} ParsedChangesNormal(n: nat, s: Bytes)
    requires ParseMany(ParseChange, n, s).Ok?
    ensures forall c :: c in ParseMany(ParseChange, n, s).value.0 ==> Normal(c.item)
  {
    hide Normal, ParseSlot, ParseI16;
    if n > 0 {
      ParsedSlotNormal(ParseI16(s).value.1);
      ParsedChangesNormal(n - 1, ParseChange(s).value.1);
    }
  }

  lemma ClickTailRoundTrip(p: Click)
    requires NormalClick(p) && |p.changes| <= MAX_CONTAINER_SLOTS
    ensures ParseClickTail(ClickTail(p)) == Ok(((p.mode, p.changes, p.cursor), []))
  {
    hide Normal, ParseChange, ChangeBytes, ParseSlot, SlotBytes, ParseVarInt, VarIntBytes;
    var s3 := SlotBytes(p.cursor);
    var s2 := Many(ChangeBytes, p.changes) + s3;
    VarIntRoundTrip(p.mode, VarIntBytes(|p.changes|) + s2);
    VarIntRoundTrip(|p.changes|, s2);
    forall c, after | c in p.changes ensures ParseChange(ChangeBytes(c) + after) == Ok((c, after)) {
      ChangeRoundTrip(c, after);
    }
    ManyExact(ChangeBytes, ParseChange, p.changes, s3);
    SlotExact(p.cursor);
  }

  /** The fields before the mode never fail on what the encoder writes. */
  lemma ClickHead(p: Click)
    ensures ParseClickFields(ClickFields(p)) == match ParseClickTail(ClickTail(p))
                                                case Err(e) => Err(e)
                                                case Ok(((mode, changes, cursor), rest)) =>
                                                  Ok((p.(mode := mode, changes := changes, cursor := cursor), rest))
  {
    hide ParseClickTail, ClickTail, ParseVarInt, VarIntBytes, ParseI16, I16, ParseI8, I8;
    var s4 := ClickTail(p);
    var s3 := I8(p.button) + s4;
    var s2 := I16(p.slot) + s3;
    var s1 := VarIntBytes(p.stateId) + s2;
    assert (U8(p.windowId) + s1)[1..] == s1;
    VarIntRoundTrip(p.stateId, s2);
    I16RoundTrip(p.slot, s3);
    I8RoundTrip(p.button, s4);
  }

  lemma TooManyChanges(p: Click)
    requires |p.changes| > MAX_CONTAINER_SLOTS
    ensures ParseClickTail(ClickTail(p)) == Err(InvalidBoolean)
  {
    hide ParseVarInt, VarIntBytes;
    var count := ChangeCount(|p.changes|);
    var s2 := Many(ChangeBytes, p.changes) + SlotBytes(p.cursor);
    VarIntRoundTrip(p.mode, VarIntBytes(count) + s2);
    VarIntRoundTrip(count, s2);
  }

  lemma ParsedClickNormal(s: Bytes)
    requires ParseClickTail(s).Ok?
    ensures var (_, changes, cursor) := ParseClickTail(s).value.0;
            (forall c :: c in changes ==> Normal(c.item)) && Normal(cursor)
  {
    hide Normal, ParseChange, ParseSlot, ParseVarInt;
    var s1 := ParseVarInt(s).value.1;
    var (count, s2) := ParseVarInt(s1).value;
    ParsedChangesNormal(count, s2);
    ParsedSlotNormal(ParseMany(ParseChange, count, s2).value.1);
  }

  function ClickBytes(p: Click, maximum: usize): Result<Bytes, PacketError> {
    PacketBytes(CLICK_CONTAINER_PACKET_ID, Ok(ClickFields(p)), maximum)
  }

  function ParseClick(s: Bytes, maximum: usize): Framed<Click, PacketError> {
    ParsePacket(CLICK_CONTAINER_PACKET_ID, ParseClickFields, s, maximum)
  }

  /** A written click with more than 256 changes is refused for its count, whatever follows it. */
  lemma TooManyChangesRefused(p: Click, maximum: usize, tail: Bytes)
    requires |p.changes| > MAX_CONTAINER_SLOTS && ClickBytes(p, maximum).Ok?
    ensures ParseClick(ClickBytes(p, maximum).value + tail, maximum) == Malformed(Codec(InvalidBoolean))
  {
    hide ClickFields, ParseClickFields, ClickTail, ParseClickTail;
    PacketFields(CLICK_CONTAINER_PACKET_ID, ParseClickFields, ClickFields(p), maximum, tail);
    ClickHead(p);
    TooManyChanges(p);
  }

  /** A click that lists 257 unchanged slots. */
  function LargeClick(): Click {
    Click(0, 0, 0, 0, 0, seq(257, _ => Change(0, EMPTY_SLOT)), EMPTY_SLOT)
  }

  lemma {:induction false} BlankChangesLength(changes: seq<Change>)
    requires forall i :: 0 <= i < |changes| ==> changes[i] == Change(0, EMPTY_SLOT)
    ensures |Many(ChangeBytes, changes)| == 3 * |changes|
  {
    if changes != [] {
      BlankChangesLength(changes[1..]);
    }
  }

  /** A click the encoder writes and the decoder refuses. */
  lemma LargeClickRefused()
    ensures var written := ClickBytes(LargeClick(), PROTOCOL_MAX_FRAME_LENGTH);
            && written.Ok?
            && ParseClick(written.value, PROTOCOL_MAX_FRAME_LENGTH) == Malformed(Codec(InvalidBoolean))
  {
    hide ParseClick, VarIntBytes, ParseSlot;
    var p := LargeClick();
    BlankChangesLength(p.changes);
    FrameAcceptance(CLICK_CONTAINER_PACKET_ID, ClickFields(p), PROTOCOL_MAX_FRAME_LENGTH);
    TooManyChangesRefused(p, PROTOCOL_MAX_FRAME_LENGTH, []);
    var written := ClickBytes(p, PROTOCOL_MAX_FRAME_LENGTH).value;
    assert written + [] == written;
  }

  /** A written click is read back unchanged exactly when its slots are normal and it reports at most 256 changes. */
  lemma ClickRoundTrip(p: Click, maximum: usize, tail: Bytes)
    requires ClickBytes(p, maximum).Ok?
    ensures ParseClick(ClickBytes(p, maximum).value + tail, maximum) == Complete(p, tail)
       <==> NormalClick(p) && |p.changes| <= MAX_CONTAINER_SLOTS
  {
    hide ClickFields, ParseClickFields, ClickTail, ParseClickTail, Normal;
    PacketFields(CLICK_CONTAINER_PACKET_ID, ParseClickFields, ClickFields(p), maximum, tail);
    ClickHead(p);
    if |p.changes| > MAX_CONTAINER_SLOTS {
      TooManyChanges(p);
    } else if NormalClick(p) {
      ClickTailRoundTrip(p);
    } else if ParseClickTail(ClickTail(p)).Ok? {
      ParsedClickNormal(ClickTail(p));
    }
  }

  // ---------------------------------------------------------------------------
  // The methods of the source
  // ---------------------------------------------------------------------------

  method EncodeSlots(slots: seq<Slot>, body: Output)
    modifies body
    ensures body.bytes == old(body.bytes) + SlotsBytes(slots)
  {
    hide SlotBytes;
    for i := 0 to |slots|
      invariant body.bytes == old(body.bytes) + Many(SlotBytes, slots[..i])
    {
      EncodeSlot(slots[i], body);
      ManyNext(SlotBytes, slots, i);
    }
    assert slots[..|slots|] == slots;
  }

  method EncodeSetContainerContent(p: Content, maximum: usize, output: Output) returns (r: Result<(), PacketError>)
    modifies output
    ensures match ContentBytes(p, maximum)
            case Ok(b) => r == Ok(()) && output.bytes == old(output.bytes) + b
            case Err(e) => r == Err(e) && output.bytes == old(output.bytes)
  {
    hide FrameBytes, SlotBytes, VarIntBytes;
    var body := new Output();
    body.bytes := body.bytes + U8(p.windowId);
    EncodeVarInt(p.stateId, body);
    if |p.slots| > MAX_CONTAINER_SLOTS {
      return Err(Codec(VarIntTooLong));
    }
    EncodeVarInt(|p.slots|, body);
    EncodeSlots(p.slots, body);
    EncodeSlot(p.carried, body);
    assert body.bytes == ContentFields(p).value;
    r := WritePacket(SET_CONTAINER_CONTENT_PACKET_ID, body.bytes, maximum, output);
  }

  method DecodeSlots(n: nat, body: Input) returns (r: Result<seq<Slot>, CodecError>)
    modifies body
    ensures Agrees(ParseSlots(n, old(body.rest)), r, body.rest)
  {
    hide ParseSlot;
    var slots := [];
    ReadNone(ParseSlot, n, body.rest);
    for i := 0 to n
      invariant |slots| == i
      invariant ReadSoFar(ParseSlot, n, old(body.rest), slots, body.rest)
    {
      ReadOne(ParseSlot, n, old(body.rest), slots, body.rest);
      var slot :- DecodeSlot(body);
      slots := slots + [slot];
    }
    ReadAll(ParseSlot, n, old(body.rest), slots, body.rest);
    return Ok(slots);
  }

  method DecodeContentFields(body: Input) returns (r: Result<Content, CodecError>)
    modifies body
    ensures Agrees(ParseContentFields(old(body.rest)), r, body.rest)
  {
    hide ParseSlots, ParseSlot, ParseVarInt;
    var windowId :- DecodeU8(body);
    var stateId :- DecodeVarInt(body);
    var count :- DecodeVarInt(body);
    if count < 0 || count > MAX_CONTAINER_SLOTS {
      return Err(VarIntTooLong);
    }
    var slots :- DecodeSlots(count, body);
    var carried :- DecodeSlot(body);
    return Ok(Content(windowId, stateId, slots, carried));
  }

  method DecodeSetContainerContent(input: Input, maximum: usize) returns (r: Outcome<Content, PacketError>)
    modifies input
    ensures TransactionalFrame(ParseContent(old(input.rest), maximum), r, old(input.rest), input.rest)
  {
    hide ParseContentFields;
    var source := input.rest;
    var frame := OpenPacket(input, SET_CONTAINER_CONTENT_PACKET_ID, maximum);
    match frame {
      case NeedMore => return NeedMore;
      case Failed(e) => return Failed(e);
      case Decoded(payload) =>
        var body := new Input(payload);
        var fields := DecodeContentFields(body);
        r := ClosePacket(input, source, fields, body);
    }
  }

  method EncodeChanges(changes: seq<Change>, body: Output)
    modifies body
    ensures body.bytes == old(body.bytes) + Many(ChangeBytes, changes)
  {
    hide SlotBytes, I16;
    for i := 0 to |changes|
      invariant body.bytes == old(body.bytes) + Many(ChangeBytes, changes[..i])
    {
      body.bytes := body.bytes + I16(changes[i].slot);
      EncodeSlot(changes[i].item, body);
      ManyNext(ChangeBytes, changes, i);
    }
    assert changes[..|changes|] == changes;
  }

  method EncodeClickContainer(p: Click, maximum: usize, output: Output) returns (r: Result<(), PacketError>)
    modifies output
    ensures match ClickBytes(p, maximum)
            case Ok(b) => r == Ok(()) && output.bytes == old(output.bytes) + b
            case Err(e) => r == Err(e) && output.bytes == old(output.bytes)
  {
    hide FrameBytes, SlotBytes, VarIntBytes, I16, I8;
    var body := new Output();
    body.bytes := body.bytes + U8(p.windowId);
    EncodeVarInt(p.stateId, body);
    body.bytes := body.bytes + I16(p.slot);
    body.bytes := body.bytes + I8(p.button);
    ghost var head := body.bytes;
    EncodeVarInt(p.mode, body);
    EncodeVarInt(ChangeCount(|p.changes|), body);
    EncodeChanges(p.changes, body);
    EncodeSlot(p.cursor, body);
    assert body.bytes == head + ClickTail(p);
    assert body.bytes == ClickFields(p) by {
      hide ClickTail;
    }
    r := WritePacket(CLICK_CONTAINER_PACKET_ID, body.bytes, maximum, output);
  }

  method DecodeChanges(n: nat, body: Input) returns (r: Result<seq<Change>, CodecError>)
    modifies body
    ensures Agrees(ParseMany(ParseChange, n, old(body.rest)), r, body.rest)
  {
    hide ParseSlot, ParseI16;
    var changes := [];
    ReadNone(ParseChange, n, body.rest);
    for i := 0 to n
      invariant |changes| == i
      invariant ReadSoFar(ParseChange, n, old(body.rest), changes, body.rest)
    {
      ReadOne(ParseChange, n, old(body.rest), changes, body.rest);
      var slot :- DecodeI16(body);
      var item :- DecodeSlot(body);
      changes := changes + [Change(slot, item)];
    }
    ReadAll(ParseChange, n, old(body.rest), changes, body.rest);
    return Ok(changes);
  }

  method DecodeClickFields(body: Input) returns (r: Result<Click, CodecError>)
    modifies body
    ensures Agrees(ParseClickFields(old(body.rest)), r, body.rest)
  {
    hide ParseSlot, ParseVarInt, ParseI16, ParseI8, ParseChange;
    var windowId :- DecodeU8(body);
    var stateId :- DecodeVarInt(body);
    var slot :- DecodeI16(body);
    var button :- DecodeI8(body);
    var mode :- DecodeVarInt(body);
    var count :- DecodeVarInt(body);
    if count < 0 || count > MAX_CONTAINER_SLOTS {
      return Err(InvalidBoolean);
    }
    var changes :- DecodeChanges(count, body);
    var cursor :- DecodeSlot(body);
    return Ok(Click(windowId, stateId, slot, button, mode, changes, cursor));
  }

  method DecodeClickContainer(input: Input, maximum: usize) returns (r: Outcome<Click, PacketError>)
    modifies input
    ensures TransactionalFrame(ParseClick(old(input.rest), maximum), r, old(input.rest), input.rest)
  {
    hide ParseClickFields;
    var source := input.rest;
    var frame := OpenPacket(input, CLICK_CONTAINER_PACKET_ID, maximum);
    match frame {
      case NeedMore => return NeedMore;
      case Failed(e) => return Failed(e);
      case Decoded(payload) =>
        var body := new Input(payload);
        var fields := DecodeClickFields(body);
        r := ClosePacket(input, source, fields, body);
    }
  }
}
