/** Status Request, Status Response, Ping and Pong (`status.rs`). The JSON text itself is a parameter. */
module StatusPing {
  import opened Wire
  import opened Framing
  import opened Text

  const STATUS_PACKET_ID: i32 := 0x00
  const PING_PACKET_ID: i32 := 0x01
  const MAX_STATUS_JSON_UTF16_UNITS: usize := 32767

  datatype StatusError =
    | Codec(codec: CodecError)
    | PayloadNotEmpty(count: nat)
    | WrongPacketId(received: i32, expected: i32)
    | JsonTooLong
    | IncompleteStatus

  function ParseStatusRequest(s: Bytes, maximum: usize): Framed<(), StatusError> {
    match ParseFrame(s, maximum)
    case Incomplete => Incomplete
    case Malformed(_) => Malformed(IncompleteStatus)
    case Complete(frame, rest) =>
      if frame.packetId != STATUS_PACKET_ID then Malformed(WrongPacketId(frame.packetId, STATUS_PACKET_ID))
      else if frame.payload != [] then Malformed(PayloadNotEmpty(|frame.payload|))
      else Complete((), rest)
  }

  function ParsePingBody(frame: Frame): Result<i64, StatusError> {
    if frame.packetId != PING_PACKET_ID then Err(WrongPacketId(frame.packetId, PING_PACKET_ID))
    else
      match ParseI64(frame.payload)
      case Err(e) => Err(if e == IncompleteInput then IncompleteStatus else Codec(e))
      case Ok((value, rest)) => if rest != [] then Err(PayloadNotEmpty(|rest|)) else Ok(value)
  }

  function ParsePing(s: Bytes, maximum: usize): Framed<i64, StatusError> {
    match ParseFrame(s, maximum)
    case Incomplete => Incomplete
    case Malformed(_) => Malformed(IncompleteStatus)
    case Complete(frame, rest) =>
      match ParsePingBody(frame)
      case Err(e) => Malformed(e)
      case Ok(value) => Complete(value, rest)
  }

  /** Pong and Ping have the same bytes. */
  function PongBytes(payload: i64, maximum: usize): Result<Bytes, StatusError> {
    match FrameBytes(PING_PACKET_ID, I64(payload), maximum)
    case Ok(b) => Ok(b)
    case Err(_) => Err(IncompleteStatus)
  }

  function StatusResponseBytes(json: Text, maximum: usize): Result<Bytes, StatusError> {
    if !Accepted(json, MAX_STATUS_JSON_UTF16_UNITS) then Err(JsonTooLong)
    else
      match FrameBytes(STATUS_PACKET_ID, Prefixed(json), maximum)
      case Ok(b) => Ok(b)
      case Err(_) => Err(IncompleteStatus)
  }

  lemma PongRoundTrip(payload: i64, maximum: usize, tail: Bytes)
    requires PongBytes(payload, maximum).Ok?
    ensures ParsePing(PongBytes(payload, maximum).value + tail, maximum) == Complete(payload, tail)
  {
    hide I64, ParseI64, FrameBytes, ParseFrame;
    FrameRoundTrip(PING_PACKET_ID, I64(payload), maximum, tail);
    I64RoundTrip(payload, []);
    assert I64(payload) + [] == I64(payload);
  }

  /** A status request is a frame with id 0 and no payload. */
  lemma StatusRequestAccepted(s: Bytes, maximum: usize, rest: Bytes)
    ensures ParseStatusRequest(s, maximum) == Complete((), rest)
       <==> ParseFrame(s, maximum) == Complete(Frame(0, []), rest)
  {
    hide ParseFrame;
  }

  /** A ping is a frame with id 1 and the eight bytes of a number. */
  lemma PingAccepted(s: Bytes, maximum: usize, payload: i64, rest: Bytes)
    ensures ParsePing(s, maximum) == Complete(payload, rest)
       <==> ParseFrame(s, maximum) == Complete(Frame(1, I64(payload)), rest)
  {
    hide ParseFrame, I64, ParseI64;
    I64RoundTrip(payload, []);
    assert I64(payload) + [] == I64(payload);
    if ParsePing(s, maximum) == Complete(payload, rest) {
      EightBytes(ParseFrame(s, maximum).value.payload, payload);
    }
  }

  lemma EightBytes(b: Bytes, payload: i64)
    requires ParseI64(b) == Ok((payload, []))
    ensures b == I64(payload)
  {
    Widths();
    BigEndianOnto(b);
    assert b[..8] == b;
  }

  /** `json` is the serialised response. */
  method EncodeStatusResponse(json: Text, maximum: usize, output: Output) returns (r: Result<(), StatusError>)
    modifies output
    ensures match StatusResponseBytes(json, maximum)
            case Ok(b) => r == Ok(()) && output.bytes == old(output.bytes) + b
            case Err(e) => r == Err(e) && output.bytes == old(output.bytes)
  {
    hide Accepted, Prefixed, FrameBytes;
    var body := new Output();
    var written := EncodeString(json, MAX_STATUS_JSON_UTF16_UNITS, body);
    if written.Err? {
      return Err(JsonTooLong);
    }
    assert body.bytes == Prefixed(json);
    var framed := EncodeFrame(STATUS_PACKET_ID, body.bytes, maximum, output);
    return if framed.Err? then Err(IncompleteStatus) else Ok(());
  }

  method EncodePongResponse(payload: i64, maximum: usize, output: Output) returns (r: Result<(), StatusError>)
    modifies output
    ensures match PongBytes(payload, maximum)
            case Ok(b) => r == Ok(()) && output.bytes == old(output.bytes) + b
            case Err(e) => r == Err(e) && output.bytes == old(output.bytes)
  {
    hide I64, FrameBytes;
    var framed := EncodeFrame(PING_PACKET_ID, I64(payload), maximum, output);
    return if framed.Err? then Err(IncompleteStatus) else Ok(());
  }

  method DecodeStatusRequest(input: Input, maximum: usize) returns (r: Outcome<(), StatusError>)
    modifies input
    ensures TransactionalFrame(ParseStatusRequest(old(input.rest), maximum), r, old(input.rest), input.rest)
  {
    hide ParseFrame;
    var source := input.rest;
    var frame := DecodeFrame(input, maximum);
    match frame {
      case NeedMore => return NeedMore;
      case Failed(_) => return Failed(IncompleteStatus);
      case Decoded(f) =>
        if f.packetId != STATUS_PACKET_ID {
          input.rest := source;
          return Failed(WrongPacketId(f.packetId, STATUS_PACKET_ID));
        }
        if f.payload != [] {
          input.rest := source;
          return Failed(PayloadNotEmpty(|f.payload|));
        }
        return Decoded(());
    }
  }

  method DecodePingRequest(input: Input, maximum: usize) returns (r: Outcome<i64, StatusError>)
    modifies input
    ensures TransactionalFrame(ParsePing(old(input.rest), maximum), r, old(input.rest), input.rest)
  {
    hide ParseFrame, ParseI64;
    var source := input.rest;
    var frame := DecodeFrame(input, maximum);
    match frame {
      case NeedMore => return NeedMore;
      case Failed(_) => return Failed(IncompleteStatus);
      case Decoded(f) =>
        if f.packetId != PING_PACKET_ID {
          input.rest := source;
          return Failed(WrongPacketId(f.packetId, PING_PACKET_ID));
        }
        var body := new Input(f.payload);
        var value := DecodeI64(body);
        if value.Err? {
          input.rest := source;
          return Failed(if value.error == IncompleteInput then IncompleteStatus else Codec(value.error));
        }
        if body.rest != [] {
          input.rest := source;
          return Failed(PayloadNotEmpty(|body.rest|));
        }
        return Decoded(value.value);
    }
  }
}
