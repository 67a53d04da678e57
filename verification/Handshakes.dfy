/** The Handshaking packet (`handshake.rs`). */
module Handshakes {
  import opened Wire
  import opened VarInt
  import opened Framing
  import opened Text

  const HANDSHAKE_PACKET_ID: i32 := 0x00
  const MAX_SERVER_ADDRESS_UTF16_UNITS: usize := 255

  datatype NextState = ToStatus | ToLogin

  function WireValue(n: NextState): i32 {
    if n == ToStatus then 1 else 2
  }

  datatype Handshake = Handshake(protocolVersion: i32, address: Text, port: u16, next: NextState)

  datatype HandshakeError =
    | WrongPacketId(received: i32)
    | Codec(codec: CodecError)
    | AddressTooLong
    | InvalidNextState(value: i32)
    | TrailingBytes(count: nat)
    | IncompleteHandshake

  function FromCodec(e: CodecError): HandshakeError {
    if e == IncompleteInput then IncompleteHandshake else Codec(e)
  }

  function Lift<T>(r: Parsed<T>): Result<(T, Bytes), HandshakeError> {
    match r
    case Ok(v) => Ok(v)
    case Err(e) => Err(FromCodec(e))
  }

  function AddressError(e: CodecError): HandshakeError {
    if e == StringTooLong then AddressTooLong else FromCodec(e)
  }

  function ParseAddress(s: Bytes): Result<(Text, Bytes), HandshakeError> {
    match ParseString(s, MAX_SERVER_ADDRESS_UTF16_UNITS)
    case Ok(v) => Ok(v)
    case Err(e) => Err(AddressError(e))
  }

  function ParseNext(s: Bytes): Result<(NextState, Bytes), HandshakeError> {
    var (raw, rest) :- Lift(ParseVarInt(s));
    if raw == 1 then Ok((ToStatus, rest)) else if raw == 2 then Ok((ToLogin, rest)) else Err(InvalidNextState(raw))
  }

  /** `parse_handshake_body`. */
  function ParseBody(frame: Frame): Result<Handshake, HandshakeError> {
    if frame.packetId != HANDSHAKE_PACKET_ID then Err(WrongPacketId(frame.packetId))
    else
      var (protocolVersion, s1) :- Lift(ParseVarInt(frame.payload));
      var (address, s2) :- ParseAddress(s1);
      var (port, s3) :- Lift(ParseU16(s2));
      var (next, s4) :- ParseNext(s3);
      if s4 != [] then Err(TrailingBytes(|s4|)) else Ok(Handshake(protocolVersion, address, port, next))
  }

  /** Unlike the other decoders this one reports a malformed frame as incomplete. */
  function ParseHandshake(s: Bytes, maximum: usize): (r: Result<(Handshake, Bytes), HandshakeError>)
    ensures r.Ok? ==> |r.value.1| < |s|
  {
    match ParseFrame(s, maximum)
    case Incomplete => Err(IncompleteHandshake)
    case Malformed(_) => Err(IncompleteHandshake)
    case Complete(frame, rest) =>
      var h :- ParseBody(frame);
      Ok((h, rest))
  }

  function Fields(h: Handshake): Bytes {
    VarIntBytes(h.protocolVersion) + (Prefixed(h.address) + (U16(h.port) + VarIntBytes(WireValue(h.next))))
  }

  /** A frame that is refused for its length is reported as incomplete here too. */
  function HandshakeBytes(h: Handshake, maximum: usize): Result<Bytes, HandshakeError> {
    if !Accepted(h.address, MAX_SERVER_ADDRESS_UTF16_UNITS) then Err(AddressTooLong)
    else
      match FrameBytes(HANDSHAKE_PACKET_ID, Fields(h), maximum)
      case Ok(b) => Ok(b)
      case Err(_) => Err(IncompleteHandshake)
  }

  lemma BodyRoundTrip(h: Handshake)
    requires Accepted(h.address, MAX_SERVER_ADDRESS_UTF16_UNITS)
    ensures ParseBody(Frame(HANDSHAKE_PACKET_ID, Fields(h))) == Ok(h)
  {
    hide Accepted, Prefixed, ParseString, VarIntBytes, ParseVarInt, U16, ParseU16;
    var s3 := VarIntBytes(WireValue(h.next));
    var s2 := U16(h.port) + s3;
    var s1 := Prefixed(h.address) + s2;
    VarIntRoundTrip(h.protocolVersion, s1);
    StringRoundTrip(h.address, MAX_SERVER_ADDRESS_UTF16_UNITS, s2);
    U16RoundTrip(h.port, s3);
    VarIntRoundTrip(WireValue(h.next), []);
    assert s3 + [] == s3;
  }

  lemma HandshakeRoundTrip(h: Handshake, maximum: usize, tail: Bytes)
    requires HandshakeBytes(h, maximum).Ok?
    ensures ParseHandshake(HandshakeBytes(h, maximum).value + tail, maximum) == Ok((h, tail))
  {
    hide Fields, ParseBody, FrameBytes, ParseFrame;
    FrameRoundTrip(HANDSHAKE_PACKET_ID, Fields(h), maximum, tail);
    BodyRoundTrip(h);
  }

  /** Bytes behind the last field are refused and counted. */
  lemma TrailingRefused(h: Handshake, extra: Bytes)
    requires Accepted(h.address, MAX_SERVER_ADDRESS_UTF16_UNITS) && extra != []
    ensures ParseBody(Frame(HANDSHAKE_PACKET_ID, Fields(h) + extra)) == Err(TrailingBytes(|extra|))
  {
    hide Accepted, Prefixed, ParseString, VarIntBytes, ParseVarInt, U16, ParseU16;
    var s3 := VarIntBytes(WireValue(h.next)) + extra;
    var s2 := U16(h.port) + s3;
    var s1 := Prefixed(h.address) + s2;
    assert Fields(h) + extra == VarIntBytes(h.protocolVersion) + s1;
    VarIntRoundTrip(h.protocolVersion, s1);
    StringRoundTrip(h.address, MAX_SERVER_ADDRESS_UTF16_UNITS, s2);
    U16RoundTrip(h.port, s3);
    VarIntRoundTrip(WireValue(h.next), extra);
  }

  /** So are other packet ids and next states, and addresses of more than 255 UTF-16 units. */
  lemma HandshakeRefusals(id: i32, version: i32, address: Text, port: u16, next: i32, payload: Bytes)
    requires |Utf8(address)| <= I32_MAX && id != 0 && next != 1 && next != 2
    ensures ParseBody(Frame(id, payload)) == Err(WrongPacketId(id))
    ensures var fields := VarIntBytes(version) + (Prefixed(address) + (U16(port) + VarIntBytes(next)));
            ParseBody(Frame(0, fields)) ==
            Err(if |Utf16(address)| > 255 then AddressTooLong else InvalidNextState(next))
  {
    hide Prefixed, Accepted, ParseString, VarIntBytes, ParseVarInt, U16, ParseU16, Utf8, Utf16;
    var s3 := VarIntBytes(next);
    var s2 := U16(port) + s3;
    var s1 := Prefixed(address) + s2;
    VarIntRoundTrip(version, s1);
    StringAcceptance(address, 255);
    if |Utf16(address)| > 255 {
      LongStringRefused(address, 255, s2);
    } else {
      StringRoundTrip(address, 255, s2);
      U16RoundTrip(port, s3);
      VarIntRoundTrip(next, []);
      assert s3 + [] == s3;
    }
  }

  lemma HandshakeStable(s: Bytes, maximum: usize, more: Bytes)
    requires ParseHandshake(s, maximum) != Err(IncompleteHandshake)
    ensures ParseHandshake(s + more, maximum) == match ParseHandshake(s, maximum)
                                                 case Ok((h, rest)) => Ok((h, rest + more))
                                                 case Err(e) => Err(e)
  {
    hide ParseBody, ParseFrame;
    FrameStable(s, maximum, more);
  }

  // ---------------------------------------------------------------------------
  // Fields that are cut short
  // ---------------------------------------------------------------------------

  /** The length of the address is cut, or the address ends before an acceptable length says it does. */
  predicate AddressCut(s: Bytes) {
    || Unfinished(s)
    || (ParseVarInt(s).Ok?
        && var (length, rest) := ParseVarInt(s).value; |rest| < length <= 3 * MAX_SERVER_ADDRESS_UTF16_UNITS)
  }

  /** The two bytes of the port or the next state behind them are cut. */
  predicate PortOrNextCut(s: Bytes) {
    |s| < 2 || Unfinished(s[2..])
  }

  /** The payload ends inside one of the four fields. */
  predicate FieldsCut(payload: Bytes) {
    || Unfinished(payload)
    || (ParseVarInt(payload).Ok?
        && var s1 := ParseVarInt(payload).value.1;
           || AddressCut(s1)
           || (ParseString(s1, MAX_SERVER_ADDRESS_UTF16_UNITS).Ok?
               && PortOrNextCut(ParseString(s1, MAX_SERVER_ADDRESS_UTF16_UNITS).value.1)))
  }

  lemma AddressIncomplete(s: Bytes)
    ensures ParseAddress(s) == Err(IncompleteHandshake) <==> AddressCut(s)
  {
    hide ParseVarInt, Unfinished, FromUtf8;
    VarIntUnfinished(s);
  }

  lemma PortOrNextIncomplete(s: Bytes)
    ensures PortOrNextCut(s)
       <==> match ParseU16(s)
            case Err(e) => e == IncompleteInput
            case Ok((_, rest)) => ParseNext(rest) == Err(IncompleteHandshake)
  {
    hide ParseVarInt, Unfinished;
    if |s| >= 2 {
      VarIntUnfinished(s[2..]);
    }
  }

  /** The body is reported incomplete exactly when it is a handshake whose payload ends inside a field. */
  lemma BodyIncomplete(frame: Frame)
    ensures ParseBody(frame) == Err(IncompleteHandshake)
       <==> frame.packetId == HANDSHAKE_PACKET_ID && FieldsCut(frame.payload)
  {
    hide ParseVarInt, Unfinished, ParseString, ParseU16, ParseNext, AddressCut, PortOrNextCut;
    VarIntUnfinished(frame.payload);
    if ParseVarInt(frame.payload).Ok? {
      var s1 := ParseVarInt(frame.payload).value.1;
      AddressIncomplete(s1);
      if ParseString(s1, MAX_SERVER_ADDRESS_UTF16_UNITS).Ok? {
        PortOrNextIncomplete(ParseString(s1, MAX_SERVER_ADDRESS_UTF16_UNITS).value.1);
      }
    }
  }

  /** Every proper prefix of the fields of every handshake ends inside a field. */
  lemma CutFields(h: Handshake, k: nat)
    requires Accepted(h.address, MAX_SERVER_ADDRESS_UTF16_UNITS) && k < |Fields(h)|
    ensures ParseBody(Frame(HANDSHAKE_PACKET_ID, Fields(h)[..k])) == Err(IncompleteHandshake)
  {
    hide Accepted, Prefixed, ParseString, VarIntBytes, ParseVarInt, U16, ParseU16;
    var version, address := VarIntBytes(h.protocolVersion), Prefixed(h.address);
    var s2 := U16(h.port) + VarIntBytes(WireValue(h.next));
    var payload := Fields(h)[..k];
    if k < |version| {
      assert payload == version[..k];
      VarIntPrefixIncomplete(h.protocolVersion, k);
    } else {
      var k1 := k - |version|;
      assert payload == version + (address + s2)[..k1];
      VarIntRoundTrip(h.protocolVersion, (address + s2)[..k1]);
      if k1 < |address| {
        assert (address + s2)[..k1] == address[..k1];
        StringCut(h.address, MAX_SERVER_ADDRESS_UTF16_UNITS, k1);
      } else {
        assert (address + s2)[..k1] == address + s2[..k1 - |address|];
        StringRoundTrip(h.address, MAX_SERVER_ADDRESS_UTF16_UNITS, s2[..k1 - |address|]);
        PortOrNextCutAt(h, k1 - |address|);
      }
    }
  }

  lemma PortOrNextCutAt(h: Handshake, k: nat)
    requires k < 2 + |VarIntBytes(WireValue(h.next))|
    ensures var s := (U16(h.port) + VarIntBytes(WireValue(h.next)))[..k];
            match ParseU16(s)
            case Err(e) => e == IncompleteInput
            case Ok((_, rest)) => ParseNext(rest) == Err(IncompleteHandshake)
  {
    hide ParseVarInt, VarIntBytes;
    var next := VarIntBytes(WireValue(h.next));
    if k >= 2 {
      assert (U16(h.port) + next)[..k] == U16(h.port) + next[..k - 2];
      U16RoundTrip(h.port, next[..k - 2]);
      VarIntPrefixIncomplete(WireValue(h.next), k - 2);
    }
  }

  // ---------------------------------------------------------------------------
  // The methods of the source
  // ---------------------------------------------------------------------------

  method EncodeHandshake(h: Handshake, maximum: usize, output: Output) returns (r: Result<(), HandshakeError>)
    modifies output
    ensures match HandshakeBytes(h, maximum)
            case Ok(b) => r == Ok(()) && output.bytes == old(output.bytes) + b
            case Err(e) => r == Err(e) && output.bytes == old(output.bytes)
  {
    hide Accepted, Prefixed, VarIntBytes, U16, FrameBytes;
    var body := new Output();
    EncodeVarInt(h.protocolVersion, body);
    var address := EncodeString(h.address, MAX_SERVER_ADDRESS_UTF16_UNITS, body);
    if address.Err? {
      return Err(AddressError(address.error));
    }
    body.bytes := body.bytes + U16(h.port);
    EncodeVarInt(WireValue(h.next), body);
    assert body.bytes == Fields(h);
    var framed := EncodeFrame(HANDSHAKE_PACKET_ID, body.bytes, maximum, output);
    return if framed.Err? then Err(IncompleteHandshake) else Ok(());
  }

  method ParseHandshakeBody(frame: Frame) returns (r: Result<Handshake, HandshakeError>)
    ensures r == ParseBody(frame)
  {
    hide ParseString, ParseVarInt, ParseU16;
    if frame.packetId != HANDSHAKE_PACKET_ID {
      return Err(WrongPacketId(frame.packetId));
    }
    var body := new Input(frame.payload);
    var protocolVersion := DecodeVarInt(body);
    if protocolVersion.Err? {
      return Err(FromCodec(protocolVersion.error));
    }
    var address := DecodeString(body, MAX_SERVER_ADDRESS_UTF16_UNITS);
    if address.Err? {
      return Err(AddressError(address.error));
    }
    var port := DecodeU16(body);
    if port.Err? {
      return Err(FromCodec(port.error));
    }
    var rawNext := DecodeVarInt(body);
    if rawNext.Err? {
      return Err(FromCodec(rawNext.error));
    }
    if rawNext.value != 1 && rawNext.value != 2 {
      return Err(InvalidNextState(rawNext.value));
    }
    if body.rest != [] {
      return Err(TrailingBytes(|body.rest|));
    }
    return Ok(Handshake(protocolVersion.value, address.value, port.value,
                        if rawNext.value == 1 then ToStatus else ToLogin));
  }

  method DecodeHandshake(input: Input, maximum: usize) returns (r: Result<Handshake, HandshakeError>)
    modifies input
    ensures Transactional(ParseHandshake(old(input.rest), maximum), r, old(input.rest), input.rest)
  {
    hide ParseBody, ParseFrame;
    var source := input.rest;
    var frame := DecodeFrame(input, maximum);
    if !frame.Decoded? {
      return Err(IncompleteHandshake);
    }
    r := ParseHandshakeBody(frame.value);
    if r.Err? {
      input.rest := source;
    }
  }
}
