/** Length-prefixed packet frames (`framing.rs`). */
module Framing {
  import opened Wire
  import opened VarInt

  const PROTOCOL_MAX_FRAME_LENGTH: usize := 0x1f_ffff
  const MAX_LENGTH_PREFIX_BYTES: nat := 3

  datatype Frame = Frame(packetId: i32, payload: Bytes)

  datatype FramingError =
    | LengthCodec(error: CodecError)
    | LengthPrefixTooLong(prefix: nat)
    | PacketIdCodec(error: CodecError)
    | NegativeFrameLength
    | ZeroFrameLength
    | FrameTooLong(length: nat, maximum: nat)
    | FrameLengthOverflow

  /** `Ok(DecodeOutcome::Complete)`, `Ok(DecodeOutcome::Incomplete)` or `Err` of a frame decoder. */
  datatype Framed<+T, +E> = Complete(value: T, rest: Bytes) | Incomplete | Malformed(error: E)

  /** The same decision on an input with `more` bytes at its end. */
  function Extend<T, E>(r: Framed<T, E>, more: Bytes): Framed<T, E> {
    match r
    case Complete(value, rest) => Complete(value, rest + more)
    case other => other
  }

  function EffectiveMax(callerMaximum: usize): (m: usize)
    ensures m == if callerMaximum <= 0x1f_ffff then callerMaximum else 0x1f_ffff
  {
    if callerMaximum < PROTOCOL_MAX_FRAME_LENGTH then callerMaximum else PROTOCOL_MAX_FRAME_LENGTH
  }

  /** `validated_frame_length`. */
  function ValidatedLength(packetId: i32, payloadLength: nat, maximum: usize): Result<i32, FramingError> {
    var length := VarIntLength(packetId) + payloadLength;
    if length > USIZE_MAX then Err(FrameLengthOverflow)
    else if length > EffectiveMax(maximum) then Err(FrameTooLong(length, EffectiveMax(maximum)))
    else Ok(length)
  }

  /** The bytes `encode_frame` appends. */
  function FrameBytes(packetId: i32, payload: Bytes, maximum: usize): Result<Bytes, FramingError> {
    var length :- ValidatedLength(packetId, |payload|, maximum);
    Ok(VarIntBytes(length) + VarIntBytes(packetId) + payload)
  }

  function ParseFrame(s: Bytes, maximum: usize): (r: Framed<Frame, FramingError>)
    ensures r.Complete? ==> |r.rest| < |s|
  {
    match ParseVarInt(s)
    case Err(e) => if e == IncompleteInput then Incomplete else Malformed(LengthCodec(e))
    case Ok((length, bodyAndTail)) =>
      if |s| - |bodyAndTail| > MAX_LENGTH_PREFIX_BYTES then Malformed(LengthPrefixTooLong(|s| - |bodyAndTail|))
      else if length < 0 then Malformed(NegativeFrameLength)
      else if length == 0 then Malformed(ZeroFrameLength)
      else if length > EffectiveMax(maximum) then Malformed(FrameTooLong(length, EffectiveMax(maximum)))
      else if |bodyAndTail| < length then Incomplete
      else
        match ParseVarInt(bodyAndTail[..length])
        case Err(e) => Malformed(PacketIdCodec(e))
        case Ok((packetId, payload)) => Complete(Frame(packetId, payload), bodyAndTail[length..])
  }

  // ---------------------------------------------------------------------------
  // Lemmas
  // ---------------------------------------------------------------------------

  /** A frame is written exactly when id and payload fit, and its length prefix never needs a fourth byte. */
  lemma FrameAcceptance(packetId: i32, payload: Bytes, maximum: usize)
    ensures FrameBytes(packetId, payload, maximum).Ok?
       <==> |VarIntBytes(packetId)| + |payload| <= EffectiveMax(maximum)
    ensures FrameBytes(packetId, payload, maximum).Ok? ==>
              var body := |VarIntBytes(packetId)| + |payload|;
              body < |FrameBytes(packetId, payload, maximum).value| <= MAX_LENGTH_PREFIX_BYTES + body
  {
    var body := |VarIntBytes(packetId)| + |payload|;
    if body <= EffectiveMax(maximum) {
      Powers();
      GroupsWidth(body, 3);
    }
  }

  lemma FrameRoundTrip(packetId: i32, payload: Bytes, maximum: usize, tail: Bytes)
    requires FrameBytes(packetId, payload, maximum).Ok?
    ensures ParseFrame(FrameBytes(packetId, payload, maximum).value + tail, maximum)
         == Complete(Frame(packetId, payload), tail)
  {
    var length := ValidatedLength(packetId, |payload|, maximum).value;
    var body := VarIntBytes(packetId) + payload;
    assert FrameBytes(packetId, payload, maximum).value + tail == VarIntBytes(length) + (body + tail);
    FrameAcceptance(packetId, payload, maximum);
    VarIntRoundTrip(length, body + tail);
    assert (body + tail)[..length] == body && (body + tail)[length..] == tail;
    VarIntRoundTrip(packetId, payload);
  }

  /** What a length in front of any bytes is refused for. */
  lemma LengthRefused(length: i32, rest: Bytes, maximum: usize)
    ensures var r := ParseFrame(VarIntBytes(length) + rest, maximum);
            && (length < 0 ==> r == Malformed(LengthPrefixTooLong(5)))
            && (length == 0 ==> r == Malformed(ZeroFrameLength))
            && (0x1f_ffff < length ==> r == Malformed(LengthPrefixTooLong(|VarIntBytes(length)|)))
            && (0 < length <= 0x1f_ffff && length > maximum ==> r == Malformed(FrameTooLong(length, maximum)))
  {
    hide VarIntBytes, ParseVarInt;
    VarIntRoundTrip(length, rest);
    LengthWidth(length);
  }

  lemma LengthWidth(length: i32)
    ensures length < 0 ==> |VarIntBytes(length)| == 5
    ensures length > 0x1f_ffff ==> |VarIntBytes(length)| > 3
    ensures 0 <= length <= 0x1f_ffff ==> |VarIntBytes(length)| <= 3
  {
    Powers();
    var n := Unsigned(length, TWO_32);
    GroupsWidth(n, 3);
    GroupsWidth(n, 4);
    GroupsFit(n, 5);
  }

  /** A length of more than three bytes is refused whatever it says, and one that does not end in five is malformed. */
  lemma LongPrefixRefused(s: Bytes, used: nat, maximum: usize)
    requires 4 <= used <= |s| && AllContinue(s[..used - 1])
    ensures used <= 5 && s[used - 1] < 128 ==> ParseFrame(s, maximum) == Malformed(LengthPrefixTooLong(used))
    ensures used == 6 ==> ParseFrame(s, maximum) == Malformed(LengthCodec(VarIntTooLong))
  {
    hide ParseVarInt;
    if used <= 5 && s[used - 1] < 128 {
      VarIntValue(s, used);
    }
    if used == 6 {
      VarIntRefused(s);
    }
  }

  /** The encoder names the length it refuses and the limit it exceeds. */
  lemma FrameRefused(packetId: i32, payload: Bytes, maximum: usize)
    requires |VarIntBytes(packetId)| + |payload| > EffectiveMax(maximum)
    requires |VarIntBytes(packetId)| + |payload| <= USIZE_MAX
    ensures FrameBytes(packetId, payload, maximum)
         == Err(FrameTooLong(|VarIntBytes(packetId)| + |payload|, EffectiveMax(maximum)))
  {
    hide VarIntBytes;
  }

  /** A decision, good or bad, is final: later bytes are only appended to what is left. */
  lemma FrameStable(s: Bytes, maximum: usize, more: Bytes)
    requires !ParseFrame(s, maximum).Incomplete?
    ensures ParseFrame(s + more, maximum) == Extend(ParseFrame(s, maximum), more)
  {
    VarIntStable(s, more);
    if ParseFrame(s, maximum).Complete? {
      var (length, bodyAndTail) := ParseVarInt(s).value;
      assert (bodyAndTail + more)[..length] == bodyAndTail[..length];
      assert (bodyAndTail + more)[length..] == bodyAndTail[length..] + more;
    } else if ParseFrame(s, maximum).error.PacketIdCodec? {
      var (length, bodyAndTail) := ParseVarInt(s).value;
      assert (bodyAndTail + more)[..length] == bodyAndTail[..length];
    }
  }

  /** Cut inside the frame: incomplete. Cut after it: the same frame. */
  lemma FrameCut(s: Bytes, maximum: usize, k: nat)
    requires ParseFrame(s, maximum).Complete? && k <= |s|
    ensures var used := |s| - |ParseFrame(s, maximum).rest|;
            ParseFrame(s[..k], maximum) ==
            if k < used then Incomplete else Complete(ParseFrame(s, maximum).value, s[used..k])
  {
    var (length, bodyAndTail) := ParseVarInt(s).value;
    var prefix := |s| - |bodyAndTail|;
    VarIntCut(s, k);
    if k >= prefix {
      var cut := s[prefix..k];
      assert bodyAndTail == s[prefix..] by {
        VarIntCut(s, |s|);
        assert s[..|s|] == s;
      }
      if |cut| >= length {
        assert cut[..length] == bodyAndTail[..length];
        assert cut[length..] == s[prefix + length..k];
      }
    }
  }

  /** What is left after a frame is the end of the input, so draining the used bytes leaves exactly that. */
  lemma FrameRest(s: Bytes, maximum: usize)
    requires ParseFrame(s, maximum).Complete?
    ensures var rest := ParseFrame(s, maximum).rest; s[|s| - |rest|..] == rest
  {
    hide ParseFrame;
    FrameCut(s, maximum, |s|);
    assert s[..|s|] == s;
  }

  /** A decoded frame can be written again, in no more bytes, and reads back as itself. */
  lemma FrameCanonical(s: Bytes, maximum: usize, tail: Bytes)
    requires ParseFrame(s, maximum).Complete?
    ensures var frame := ParseFrame(s, maximum).value;
            var again := FrameBytes(frame.packetId, frame.payload, maximum);
            && again.Ok?
            && |again.value| + |ParseFrame(s, maximum).rest| <= |s|
            && ParseFrame(again.value + tail, maximum) == Complete(frame, tail)
  {
    var frame := ParseFrame(s, maximum).value;
    var (length, bodyAndTail) := ParseVarInt(s).value;
    VarIntMinimal(bodyAndTail[..length]);
    FrameAcceptance(frame.packetId, frame.payload, maximum);
    FrameRoundTrip(frame.packetId, frame.payload, maximum, tail);
    var shorter := |VarIntBytes(frame.packetId)| + |frame.payload|;
    VarIntMinimal(s);
    GroupsWidth(shorter, |VarIntBytes(length)|);
    GroupsWidth(length, |VarIntBytes(length)|);
  }

  /** The negative-length error is dead: three groups hold 21 bits. */
  lemma NegativeLengthUnreachable(s: Bytes, maximum: usize)
    ensures ParseFrame(s, maximum) != Malformed(NegativeFrameLength)
  {
    if ParseVarInt(s).Ok? {
      var (raw, used) := Scan(s, 5, VarIntTooLong).value;
      ScanBound(s, 5, VarIntTooLong);
      Powers();
      assert used <= 3 ==> raw < 0x20_0000;
    }
  }

  // ---------------------------------------------------------------------------
  // Raw frames: a length and a body without a packet id
  // ---------------------------------------------------------------------------

  function RawFrameBytes(body: Bytes, maximum: usize): Result<Bytes, FramingError> {
    if |body| > EffectiveMax(maximum) then Err(FrameTooLong(|body|, EffectiveMax(maximum)))
    else Ok(VarIntBytes(|body|) + body)
  }

  function ParseRawFrame(s: Bytes, maximum: usize): (r: Framed<Bytes, FramingError>)
    ensures r.Complete? ==> |r.rest| < |s| && |r.value| <= EffectiveMax(maximum)
  {
    match ParseVarInt(s)
    case Err(e) => if e == IncompleteInput then Incomplete else Malformed(LengthCodec(e))
    case Ok((length, rest)) =>
      if length < 0 then Malformed(FrameLengthOverflow)
      else if length > EffectiveMax(maximum) then Malformed(FrameTooLong(length, EffectiveMax(maximum)))
      else if |rest| < length then Incomplete
      else Complete(rest[..length], rest[length..])
  }

  /** What a length in front of a raw body is refused for. */
  lemma RawLengthRefused(length: i32, rest: Bytes, maximum: usize)
    ensures var r := ParseRawFrame(VarIntBytes(length) + rest, maximum);
            && (length < 0 ==> r == Malformed(FrameLengthOverflow))
            && (length > EffectiveMax(maximum) ==> r == Malformed(FrameTooLong(length, EffectiveMax(maximum))))
  {
    hide VarIntBytes, ParseVarInt;
    VarIntRoundTrip(length, rest);
  }

  lemma RawFrameAcceptance(body: Bytes, maximum: usize)
    ensures RawFrameBytes(body, maximum).Ok? <==> |body| <= maximum && |body| <= 0x1f_ffff
  {
  }

  lemma RawFrameRoundTrip(body: Bytes, maximum: usize, tail: Bytes)
    requires RawFrameBytes(body, maximum).Ok?
    ensures ParseRawFrame(RawFrameBytes(body, maximum).value + tail, maximum) == Complete(body, tail)
  {
    assert VarIntBytes(|body|) + body + tail == VarIntBytes(|body|) + (body + tail);
    VarIntRoundTrip(|body|, body + tail);
    assert (body + tail)[..|body|] == body && (body + tail)[|body|..] == tail;
  }

  lemma RawFrameStable(s: Bytes, maximum: usize, more: Bytes)
    requires !ParseRawFrame(s, maximum).Incomplete?
    ensures ParseRawFrame(s + more, maximum) == Extend(ParseRawFrame(s, maximum), more)
  {
    VarIntStable(s, more);
    if ParseRawFrame(s, maximum).Complete? {
      var (length, rest) := ParseVarInt(s).value;
      assert (rest + more)[..length] == rest[..length];
      assert (rest + more)[length..] == rest[length..] + more;
    }
  }

  /** Where `decode_raw_frame` leaves its cursor. */
  function RawFrameCursor(s: Bytes, maximum: usize): Bytes {
    match ParseRawFrame(s, maximum)
    case Complete(_, rest) => rest
    case Incomplete => s
    case Malformed(e) => if e.LengthCodec? then s else ParseVarInt(s).value.1
  }

  /** A failure leaves the input as it was exactly when the length itself could not be read. */
  lemma RawFrameRestored(s: Bytes, maximum: usize)
    requires ParseRawFrame(s, maximum).Malformed?
    ensures RawFrameCursor(s, maximum) == s <==> ParseVarInt(s).Err?
  {
    hide ParseVarInt;
  }

  /** For instance, the length 2 under a maximum of 1 is refused and consumed, so a retry starts in the body. */
  lemma RefusedLengthLost(tail: Bytes)
    ensures ParseRawFrame([2] + tail, 1) == Malformed(FrameTooLong(2, 1)) && RawFrameCursor([2] + tail, 1) == tail
  {
    assert ([2] + tail)[1..] == tail;
    assert ParseVarInt([2] + tail) == Ok((2, tail));
  }

  // ---------------------------------------------------------------------------
  // The methods of the source
  // ---------------------------------------------------------------------------

  /** The two-level `Result<DecodeOutcome, _>` of the decoders, without the bytes left over. */
  datatype Outcome<+T, +E> = Decoded(value: T) | NeedMore | Failed(error: E)

  /** Agrees with the specification, and the cursor moves only on a complete packet. */
  ghost predicate TransactionalFrame<T, E>(spec: Framed<T, E>, r: Outcome<T, E>, before: Bytes, after: Bytes) {
    match spec
    case Complete(value, rest) => r == Decoded(value) && after == rest
    case Incomplete => r == NeedMore && after == before
    case Malformed(error) => r == Failed(error) && after == before
  }

  method DecodeFrame(input: Input, maximum: usize) returns (r: Outcome<Frame, FramingError>)
    modifies input
    ensures TransactionalFrame(ParseFrame(old(input.rest), maximum), r, old(input.rest), input.rest)
  {
    var bodyAndTail := new Input(input.rest);
    var length := DecodeVarInt(bodyAndTail);
    if length.Err? {
      return if length.error == IncompleteInput then NeedMore else Failed(LengthCodec(length.error));
    }
    var prefix := |input.rest| - |bodyAndTail.rest|;
    if prefix > MAX_LENGTH_PREFIX_BYTES {
      return Failed(LengthPrefixTooLong(prefix));
    }
    if length.value < 0 {
      return Failed(NegativeFrameLength);
    }
    if length.value == 0 {
      return Failed(ZeroFrameLength);
    }
    var bound := EffectiveMax(maximum);
    if length.value > bound {
      return Failed(FrameTooLong(length.value, bound));
    }
    if |bodyAndTail.rest| < length.value {
      return NeedMore;
    }
    var payload := new Input(bodyAndTail.rest[..length.value]);
    var packetId := DecodeVarInt(payload);
    if packetId.Err? {
      return Failed(PacketIdCodec(packetId.error));
    }
    input.rest := bodyAndTail.rest[length.value..];
    return Decoded(Frame(packetId.value, payload.rest));
  }

  method EncodeFrame(packetId: i32, payload: Bytes, maximum: usize, output: Output)
    returns (r: Result<(), FramingError>)
    modifies output
    ensures match FrameBytes(packetId, payload, maximum)
            case Ok(b) => r == Ok(()) && output.bytes == old(output.bytes) + b
            case Err(e) => r == Err(e) && output.bytes == old(output.bytes)
  {
    var length :- ValidatedLength(packetId, |payload|, maximum);
    EncodeVarInt(length, output);
    EncodeVarInt(packetId, output);
    output.bytes := output.bytes + payload;
    return Ok(());
  }

  method EncodeRawFrame(body: Bytes, maximum: usize, output: Output) returns (r: Result<(), FramingError>)
    modifies output
    ensures match RawFrameBytes(body, maximum)
            case Ok(b) => r == Ok(()) && output.bytes == old(output.bytes) + b
            case Err(e) => r == Err(e) && output.bytes == old(output.bytes)
  {
    var bound := EffectiveMax(maximum);
    if |body| > bound {
      return Err(FrameTooLong(|body|, bound));
    }
    EncodeVarInt(|body|, output);
    output.bytes := output.bytes + body;
    return Ok(());
  }

  /** Only success and "incomplete" settle the cursor: a refused length stays consumed. */
  method DecodeRawFrame(input: Input, maximum: usize) returns (r: Outcome<Bytes, FramingError>)
    modifies input
    ensures match ParseRawFrame(old(input.rest), maximum)
            case Complete(body, _) => r == Decoded(body)
            case Incomplete => r == NeedMore
            case Malformed(e) => r == Failed(e)
    ensures input.rest == RawFrameCursor(old(input.rest), maximum)
  {
    var source := input.rest;
    var length := DecodeVarInt(input);
    if length.Err? {
      return if length.error == IncompleteInput then NeedMore else Failed(LengthCodec(length.error));
    }
    if length.value < 0 {
      return Failed(FrameLengthOverflow);
    }
    var bound := EffectiveMax(maximum);
    if length.value > bound {
      return Failed(FrameTooLong(length.value, bound));
    }
    if |input.rest| < length.value {
      input.rest := source;
      return NeedMore;
    }
    r := Decoded(input.rest[..length.value]);
    input.rest := input.rest[length.value..];
  }
}
