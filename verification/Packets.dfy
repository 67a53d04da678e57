/** What every packet codec of `play.rs` and `login.rs` does around its fields: frame, packet id, nothing left over.

    `PlayError` and `LoginError` have the same shape and the same conversions; `PacketError` stands for both. */
module Packets {
  import opened Wire
  import opened Framing

  datatype PacketError =
    | Framing(framing: FramingError)
    | Codec(codec: CodecError)
    | WrongPacketId(received: i32, expected: i32)
    | TrailingBytes(count: nat)
    | IncompletePacket

  function FromFraming(e: FramingError): PacketError {
    if e == LengthCodec(IncompleteInput) || e == PacketIdCodec(IncompleteInput) then IncompletePacket else Framing(e)
  }

  function FromCodec(e: CodecError): PacketError {
    if e == IncompleteInput then IncompletePacket else Codec(e)
  }

  /** A frame around the fields, unless a field refused its value. */
  function PacketBytes(id: i32, fields: Result<Bytes, CodecError>, maximum: usize): Result<Bytes, PacketError> {
    match fields
    case Err(e) => Err(FromCodec(e))
    case Ok(body) =>
      match FrameBytes(id, body, maximum)
      case Err(e) => Err(FromFraming(e))
      case Ok(b) => Ok(b)
  }

  /** The fields must use up the body. */
  function WholeBody<T>(fields: Parsed<T>): Result<T, PacketError> {
    match fields
    case Err(e) => Err(FromCodec(e))
    case Ok((value, rest)) => if rest != [] then Err(TrailingBytes(|rest|)) else Ok(value)
  }

  function ParsePacket<T>(id: i32, fields: Bytes -> Parsed<T>, s: Bytes, maximum: usize): Framed<T, PacketError> {
    match ParseFrame(s, maximum)
    case Incomplete => Incomplete
    case Malformed(e) => Malformed(FromFraming(e))
    case Complete(frame, rest) =>
      if frame.packetId != id then Malformed(WrongPacketId(frame.packetId, id))
      else
        match WholeBody(fields(frame.payload))
        case Err(e) => Malformed(e)
        case Ok(value) => Complete(value, rest)
  }

  /** Reading a written packet is reading its fields, whatever follows the packet. */
  lemma PacketFields<T>(id: i32, fields: Bytes -> Parsed<T>, body: Bytes, maximum: usize, tail: Bytes)
    requires PacketBytes(id, Ok(body), maximum).Ok?
    ensures ParsePacket(id, fields, PacketBytes(id, Ok(body), maximum).value + tail, maximum)
         == match WholeBody(fields(body))
            case Ok(value) => Complete(value, tail)
            case Err(e) => Malformed(e)
  {
    FrameRoundTrip(id, body, maximum, tail);
  }

  /** A packet is decoded exactly when a frame with its id comes first and the fields use up the payload. */
  lemma PacketAccepted<T>(id: i32, fields: Bytes -> Parsed<T>, s: Bytes, maximum: usize, value: T, rest: Bytes)
    ensures ParsePacket(id, fields, s, maximum) == Complete(value, rest)
       <==> exists payload :: ParseFrame(s, maximum) == Complete(Frame(id, payload), rest)
                              && fields(payload) == Ok((value, []))
  {
    if ParsePacket(id, fields, s, maximum) == Complete(value, rest) {
      var payload := ParseFrame(s, maximum).value.payload;
      assert ParseFrame(s, maximum) == Complete(Frame(id, payload), rest);
    }
  }

  /** The two refusals of a packet whose frame is complete, told apart. */
  lemma PacketRefused<T>(id: i32, fields: Bytes -> Parsed<T>, s: Bytes, maximum: usize, received: i32, payload: Bytes,
                         rest: Bytes)
    requires ParseFrame(s, maximum) == Complete(Frame(received, payload), rest)
    ensures received != id ==> ParsePacket(id, fields, s, maximum) == Malformed(WrongPacketId(received, id))
    ensures received == id && fields(payload).Ok? && fields(payload).value.1 != [] ==>
              ParsePacket(id, fields, s, maximum) == Malformed(TrailingBytes(|fields(payload).value.1|))
    ensures received == id && fields(payload) == Err(IncompleteInput) ==>
              ParsePacket(id, fields, s, maximum) == Malformed(IncompletePacket)
    ensures received == id && fields(payload).Err? && fields(payload).error != IncompleteInput ==>
              ParsePacket(id, fields, s, maximum) == Malformed(Codec(fields(payload).error))
  {
  }

  /** A malformed frame is passed on as it is, but for an id that is cut short inside a complete frame. */
  lemma FrameErrorPassed<T>(id: i32, fields: Bytes -> Parsed<T>, s: Bytes, maximum: usize)
    requires ParseFrame(s, maximum).Malformed?
    ensures var e := ParseFrame(s, maximum).error;
            ParsePacket(id, fields, s, maximum) ==
            Malformed(if e == PacketIdCodec(IncompleteInput) then IncompletePacket else Framing(e))
  {
  }

  lemma PacketStable<T>(id: i32, fields: Bytes -> Parsed<T>, s: Bytes, maximum: usize, more: Bytes)
    requires !ParsePacket(id, fields, s, maximum).Incomplete?
    ensures ParsePacket(id, fields, s + more, maximum) == Extend(ParsePacket(id, fields, s, maximum), more)
  {
    FrameStable(s, maximum, more);
  }

  /** Cut anywhere inside, a packet is incomplete. */
  lemma PacketCut<T>(id: i32, fields: Bytes -> Parsed<T>, s: Bytes, maximum: usize, k: nat)
    requires ParsePacket(id, fields, s, maximum).Complete?
    requires k < |s| - |ParsePacket(id, fields, s, maximum).rest|
    ensures ParsePacket(id, fields, s[..k], maximum) == Incomplete
  {
    FrameCut(s, maximum, k);
  }

  // ---------------------------------------------------------------------------
  // The common parts of the methods
  // ---------------------------------------------------------------------------

  /** The opening of every decoder: one frame with the expected id, or the input untouched. */
  method OpenPacket(input: Input, id: i32, maximum: usize) returns (r: Outcome<Bytes, PacketError>)
    modifies input
    ensures match ParseFrame(old(input.rest), maximum)
            case Incomplete => r == NeedMore && input.rest == old(input.rest)
            case Malformed(e) => r == Failed(FromFraming(e)) && input.rest == old(input.rest)
            case Complete(frame, rest) =>
              if frame.packetId == id then r == Decoded(frame.payload) && input.rest == rest
              else r == Failed(WrongPacketId(frame.packetId, id)) && input.rest == old(input.rest)
  {
    var source := input.rest;
    var frame := DecodeFrame(input, maximum);
    match frame {
      case NeedMore => return NeedMore;
      case Failed(e) => return Failed(FromFraming(e));
      case Decoded(f) =>
        if f.packetId != id {
          input.rest := source;
          return Failed(WrongPacketId(f.packetId, id));
        }
        return Decoded(f.payload);
    }
  }

  /** The closing of every decoder: `input` goes back to `source` unless the fields were read to the end of `body`. */
  method ClosePacket<T>(input: Input, source: Bytes, fields: Result<T, CodecError>, body: Input)
    returns (r: Outcome<T, PacketError>)
    requires input != body
    modifies input
    ensures fields.Err? ==> r == Failed(FromCodec(fields.error)) && input.rest == source
    ensures fields.Ok? && body.rest != [] ==> r == Failed(TrailingBytes(|body.rest|)) && input.rest == source
    ensures fields.Ok? && body.rest == [] ==> r == Decoded(fields.value) && input.rest == old(input.rest)
  {
    match fields {
      case Err(e) =>
        input.rest := source;
        return Failed(FromCodec(e));
      case Ok(value) =>
        if body.rest != [] {
          input.rest := source;
          return Failed(TrailingBytes(|body.rest|));
        }
        return Decoded(value);
    }
  }

  /** The closing of every encoder. */
  method WritePacket(id: i32, body: Bytes, maximum: usize, output: Output) returns (r: Result<(), PacketError>)
    modifies output
    ensures match PacketBytes(id, Ok(body), maximum)
            case Ok(b) => r == Ok(()) && output.bytes == old(output.bytes) + b
            case Err(e) => r == Err(e) && output.bytes == old(output.bytes)
  {
    var written := EncodeFrame(id, body, maximum, output);
    return if written.Err? then Err(FromFraming(written.error)) else Ok(());
  }
}
