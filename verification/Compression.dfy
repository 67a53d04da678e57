/** Compressed packet frames (`compression.rs`). zlib itself is a parameter. */
module Compression {
  import opened Wire
  import opened VarInt
  import opened Framing

  const MAX_DECOMPRESSED_SIZE: usize := PROTOCOL_MAX_FRAME_LENGTH

  /** A compressor and its decompressor, which fails on streams that are not zlib. */
  datatype Zlib = Zlib(deflate: Bytes -> Bytes, inflate: Bytes -> Option<Bytes>) {
    ghost predicate Inverse() {
      forall b :: inflate(deflate(b)) == Some(b)
    }
  }

  datatype CompressionError =
    | Framing(framing: FramingError)
    | Codec(codec: CodecError)
    | ZlibError
    | DecompressedTooLarge(size: nat)
    | DataLengthMismatch(declared: nat, actual: nat)
    | IncompletePacket

  function FromFraming(e: FramingError): CompressionError {
    if e == LengthCodec(IncompleteInput) then IncompletePacket else Framing(e)
  }

  function FromCodec(e: CodecError): CompressionError {
    if e == IncompleteInput then IncompletePacket else Codec(e)
  }

  /** The raw-frame body the encoder builds when compression is enabled. */
  function CompressedBody(zlib: Zlib, packetId: i32, payload: Bytes, threshold: nat): Bytes {
    var body := VarIntBytes(packetId) + payload;
    if |body| > threshold then VarIntBytes(AsI32(|body|)) + zlib.deflate(body)
    else VarIntBytes(0) + body
  }

  function CompressedFrameBytes(zlib: Zlib, packetId: i32, payload: Bytes, threshold: i32, maximum: usize)
    : Result<Bytes, CompressionError>
  {
    match if threshold < 0 then FrameBytes(packetId, payload, maximum)
          else RawFrameBytes(CompressedBody(zlib, packetId, payload, threshold), maximum)
    case Ok(b) => Ok(b)
    case Err(e) => Err(FromFraming(e))
  }

  function ParsePacket(body: Bytes): Result<Frame, CompressionError> {
    match ParseVarInt(body)
    case Err(e) => Err(FromCodec(e))
    case Ok((packetId, payload)) => Ok(Frame(packetId, payload))
  }

  /** The packet inside a raw-frame body. */
  function ParseCompressedBody(zlib: Zlib, raw: Bytes): Result<Frame, CompressionError> {
    match ParseVarInt(raw)
    case Err(e) => Err(FromCodec(e))
    case Ok((dataLength, body)) =>
      if dataLength < 0 then Err(Codec(VarIntTooLong))
      else if dataLength == 0 then ParsePacket(body)
      else if dataLength > MAX_DECOMPRESSED_SIZE then Err(DecompressedTooLarge(dataLength))
      else
        match zlib.inflate(body)
        case None => Err(ZlibError)
        case Some(decompressed) =>
          if |decompressed| != dataLength then Err(DataLengthMismatch(dataLength, |decompressed|))
          else ParsePacket(decompressed)
  }

  function ParseCompressedFrame(zlib: Zlib, s: Bytes, threshold: i32, maximum: usize): Framed<Frame, CompressionError> {
    if threshold < 0 then
      match ParseFrame(s, maximum)
      case Complete(frame, rest) => Complete(frame, rest)
      case Incomplete => Incomplete
      case Malformed(e) => Malformed(FromFraming(e))
    else
      match ParseRawFrame(s, maximum)
      case Incomplete => Incomplete
      case Malformed(e) => Malformed(FromFraming(e))
      case Complete(raw, rest) =>
        match ParseCompressedBody(zlib, raw)
        case Ok(frame) => Complete(frame, rest)
        case Err(e) => Malformed(e)
  }

  lemma PacketRoundTrip(packetId: i32, payload: Bytes)
    ensures ParsePacket(VarIntBytes(packetId) + payload) == Ok(Frame(packetId, payload))
  {
    VarIntRoundTrip(packetId, payload);
  }

  /** Within the decompression limit, the body the encoder builds is read back, compressed or not. */
  lemma BodyRoundTrip(zlib: Zlib, packetId: i32, payload: Bytes, threshold: nat)
    requires zlib.Inverse()
    requires |VarIntBytes(packetId)| + |payload| <= MAX_DECOMPRESSED_SIZE
    ensures ParseCompressedBody(zlib, CompressedBody(zlib, packetId, payload, threshold))
         == Ok(Frame(packetId, payload))
  {
    hide VarIntBytes, ParseVarInt, ParsePacket;
    var body := VarIntBytes(packetId) + payload;
    PacketRoundTrip(packetId, payload);
    if |body| > threshold {
      VarIntRoundTrip(|body|, zlib.deflate(body));
    } else {
      VarIntRoundTrip(0, body);
    }
  }

  /** Beyond the limit no body is read back, not even where the 32-bit data length wraps to a small number. */
  lemma OversizedBodyLost(zlib: Zlib, packetId: i32, payload: Bytes, threshold: nat)
    requires zlib.Inverse()
    requires |VarIntBytes(packetId)| + |payload| > MAX_DECOMPRESSED_SIZE
    requires |CompressedBody(zlib, packetId, payload, threshold)| <= MAX_DECOMPRESSED_SIZE
    ensures ParseCompressedBody(zlib, CompressedBody(zlib, packetId, payload, threshold))
         != Ok(Frame(packetId, payload))
  {
    var body := VarIntBytes(packetId) + payload;
    assert |body| > threshold;
    var dataLength := AsI32(|body|);
    VarIntRoundTrip(dataLength, zlib.deflate(body));
    if dataLength == 0 {
      assert |zlib.deflate(body)| < TWO_32 / 2 <= |body| - 5;
    }
  }

  /** What `encode_compressed_frame` writes is read back as the same packet exactly when id and payload fit the
      decompression limit; any tail is left alone, and the reader's own threshold only matters by its sign. */
  lemma CompressedRoundTrip(zlib: Zlib, packetId: i32, payload: Bytes, threshold: i32, readThreshold: i32,
                            maximum: usize, tail: Bytes)
    requires zlib.Inverse()
    requires CompressedFrameBytes(zlib, packetId, payload, threshold, maximum).Ok?
    requires threshold < 0 <==> readThreshold < 0
    ensures ParseCompressedFrame(zlib, CompressedFrameBytes(zlib, packetId, payload, threshold, maximum).value + tail,
                                 readThreshold, maximum)
         == Complete(Frame(packetId, payload), tail)
       <==> |VarIntBytes(packetId)| + |payload| <= MAX_DECOMPRESSED_SIZE
  {
    if threshold < 0 {
      FrameAcceptance(packetId, payload, maximum);
      FrameRoundTrip(packetId, payload, maximum, tail);
    } else {
      RawFrameRoundTrip(CompressedBody(zlib, packetId, payload, threshold), maximum, tail);
      if |VarIntBytes(packetId)| + |payload| <= MAX_DECOMPRESSED_SIZE {
        BodyRoundTrip(zlib, packetId, payload, threshold);
      } else {
        OversizedBodyLost(zlib, packetId, payload, threshold);
      }
    }
  }

  /** 2^21 bytes, one more than the limit with any id in front. */
  function OversizedPayload(): (b: Bytes)
    ensures |b| == 0x20_0000
  {
    seq(0x20_0000, _ => 0)
  }

  /** A compressor that does well on that one packet. */
  function OneTrick(big: Bytes): Zlib {
    Zlib((b: Bytes) => if b == big then [] else [1] + b,
         (z: Bytes) => if z == [] then Some(big) else if z[0] == 1 then Some(z[1..]) else None)
  }

  lemma OneTrickInverse(big: Bytes)
    ensures OneTrick(big).Inverse()
  {
    forall b: Bytes ensures ([1] + b)[1..] == b {
    }
  }

  /** A packet that is written, in a frame of six bytes, and refused when it is read. */
  lemma OversizedWritten()
    ensures var zlib := OneTrick(VarIntBytes(0) + OversizedPayload());
            var written := CompressedFrameBytes(zlib, 0, OversizedPayload(), 0, PROTOCOL_MAX_FRAME_LENGTH);
            && zlib.Inverse() && written.Ok?
            && ParseCompressedFrame(zlib, written.value, 0, PROTOCOL_MAX_FRAME_LENGTH)
               == Malformed(DecompressedTooLarge(0x20_0001))
  {
    hide VarIntBytes, ParseVarInt, OversizedPayload, Zlib.Inverse;
    var payload := OversizedPayload();
    ZeroIsOneByte();
    var big := VarIntBytes(0) + payload;
    var zlib := OneTrick(big);
    OneTrickInverse(big);
    var raw := CompressedBody(zlib, 0, payload, 0);
    assert |big| == 0x20_0001 && zlib.deflate(big) == [];
    assert raw == VarIntBytes(0x20_0001) + [];
    VarIntRoundTrip(0x20_0001, []);
    var written := CompressedFrameBytes(zlib, 0, payload, 0, PROTOCOL_MAX_FRAME_LENGTH);
    RawFrameRoundTrip(raw, PROTOCOL_MAX_FRAME_LENGTH, []);
    assert written.value + [] == written.value;
  }

  lemma ZeroIsOneByte()
    ensures |VarIntBytes(0)| == 1
  {
  }

  /** A decoded packet and an error are final: later bytes are only appended to what is left. */
  lemma CompressedStable(zlib: Zlib, s: Bytes, threshold: i32, maximum: usize, more: Bytes)
    requires !ParseCompressedFrame(zlib, s, threshold, maximum).Incomplete?
    ensures ParseCompressedFrame(zlib, s + more, threshold, maximum)
         == Extend(ParseCompressedFrame(zlib, s, threshold, maximum), more)
  {
    hide ParseFrame, ParseRawFrame, ParseCompressedBody;
    if threshold < 0 {
      FrameStable(s, maximum, more);
    } else {
      RawFrameStable(s, maximum, more);
    }
  }

  /** Cut anywhere inside, a compressed frame is incomplete, so it decodes alike however TCP splits it. */
  lemma CompressedCut(zlib: Zlib, s: Bytes, threshold: i32, maximum: usize, k: nat)
    requires ParseCompressedFrame(zlib, s, threshold, maximum).Complete?
    requires k < |s| - |ParseCompressedFrame(zlib, s, threshold, maximum).rest|
    ensures ParseCompressedFrame(zlib, s[..k], threshold, maximum).Incomplete?
  {
    hide ParseFrame, ParseRawFrame, ParseCompressedBody;
    assert s[..k] + s[k..] == s;
    if !ParseCompressedFrame(zlib, s[..k], threshold, maximum).Incomplete? {
      CompressedStable(zlib, s[..k], threshold, maximum, s[k..]);
    }
  }

  /** The body of a packet is accepted exactly in two forms: a data length of zero and the packet itself, or a data
      length up to 2^21-1 and a stream that inflates to a packet of just that length. */
  lemma BodyAccepted(zlib: Zlib, raw: Bytes, packet: Frame)
    ensures ParseCompressedBody(zlib, raw) == Ok(packet)
       <==> && ParseVarInt(raw).Ok?
            && var (length, body) := ParseVarInt(raw).value;
               exists inner :: ParseVarInt(inner) == Ok((packet.packetId, packet.payload))
                               && if length == 0 then inner == body
                                  else 0 < length <= 0x1f_ffff && zlib.inflate(body) == Some(inner) && |inner| == length
  {
    hide ParseVarInt;
    if ParseCompressedBody(zlib, raw) == Ok(packet) {
      var (length, body) := ParseVarInt(raw).value;
      var inner := if length == 0 then body else zlib.inflate(body).value;
      assert ParseVarInt(inner) == Ok((packet.packetId, packet.payload));
    }
  }

  /** The refusals of a body whose data length is a positive number. */
  lemma BodyRefused(zlib: Zlib, length: i32, body: Bytes)
    ensures var r := ParseCompressedBody(zlib, VarIntBytes(length) + body);
            && (length < 0 ==> r == Err(Codec(VarIntTooLong)))
            && (length > 0x1f_ffff ==> r == Err(DecompressedTooLarge(length)))
            && (0 < length <= 0x1f_ffff && zlib.inflate(body).None? ==> r == Err(ZlibError))
            && (0 < length <= 0x1f_ffff && zlib.inflate(body).Some? && |zlib.inflate(body).value| != length ==>
                  r == Err(DataLengthMismatch(length, |zlib.inflate(body).value|)))
  {
    hide VarIntBytes, ParseVarInt;
    VarIntRoundTrip(length, body);
  }

  /** Errors of the frame and of its body are reported as such, and only an incomplete frame is incomplete. */
  lemma ErrorsReported(zlib: Zlib, s: Bytes, threshold: i32, maximum: usize)
    ensures var r := ParseCompressedFrame(zlib, s, threshold, maximum);
            if threshold < 0 then
              && (r.Incomplete? <==> ParseFrame(s, maximum).Incomplete?)
              && (ParseFrame(s, maximum).Malformed? ==> r == Malformed(Framing(ParseFrame(s, maximum).error)))
            else
              && (r.Incomplete? <==> ParseRawFrame(s, maximum).Incomplete?)
              && (ParseRawFrame(s, maximum).Malformed? ==> r == Malformed(Framing(ParseRawFrame(s, maximum).error)))
              && (ParseRawFrame(s, maximum).Complete? ==>
                    var body := ParseCompressedBody(zlib, ParseRawFrame(s, maximum).value);
                    body.Err? ==> r == Malformed(body.error))
  {
    hide ParseVarInt, ParseCompressedBody;
  }

  /** Below or at the threshold the body starts with a zero byte, above it (and within the limit) it never does. */
  lemma DataLengthZeroMeansUncompressed(zlib: Zlib, packetId: i32, payload: Bytes, threshold: nat)
    requires |VarIntBytes(packetId)| + |payload| <= MAX_DECOMPRESSED_SIZE
    ensures CompressedBody(zlib, packetId, payload, threshold)[0] == 0
       <==> |VarIntBytes(packetId)| + |payload| <= threshold
  {
  }

  // ---------------------------------------------------------------------------
  // The methods of the source
  // ---------------------------------------------------------------------------

  method EncodeCompressedFrame(zlib: Zlib, packetId: i32, payload: Bytes, threshold: i32, maximum: usize,
                               output: Output)
    returns (r: Result<(), CompressionError>)
    modifies output
    ensures match CompressedFrameBytes(zlib, packetId, payload, threshold, maximum)
            case Ok(b) => r == Ok(()) && output.bytes == old(output.bytes) + b
            case Err(e) => r == Err(e) && output.bytes == old(output.bytes)
  {
    hide VarIntBytes, FrameBytes, RawFrameBytes, CompressedBody;
    var uncompressed := new Output();
    EncodeVarInt(packetId, uncompressed);
    uncompressed.bytes := uncompressed.bytes + payload;
    assert uncompressed.bytes == VarIntBytes(packetId) + payload;
    var written;
    if threshold < 0 {
      written := EncodeFrame(packetId, payload, maximum, output);
    } else {
      var body := new Output();
      BodyCases(zlib, packetId, payload, threshold);
      if |uncompressed.bytes| > threshold {
        EncodeVarInt(AsI32(|uncompressed.bytes|), body);
        body.bytes := body.bytes + zlib.deflate(uncompressed.bytes);
      } else {
        EncodeVarInt(0, body);
        body.bytes := body.bytes + uncompressed.bytes;
      }
      assert body.bytes == CompressedBody(zlib, packetId, payload, threshold);
      written := EncodeRawFrame(body.bytes, maximum, output);
    }
    return if written.Err? then Err(FromFraming(written.error)) else Ok(());
  }

  lemma BodyCases(zlib: Zlib, packetId: i32, payload: Bytes, threshold: nat)
    ensures var body := VarIntBytes(packetId) + payload;
            CompressedBody(zlib, packetId, payload, threshold) ==
            if |body| > threshold then VarIntBytes(AsI32(|body|)) + zlib.deflate(body) else VarIntBytes(0) + body
  {
    hide VarIntBytes;
  }

  method DecodeCompressedFrame(zlib: Zlib, input: Input, threshold: i32, maximum: usize)
    returns (r: Outcome<Frame, CompressionError>)
    modifies input
    ensures TransactionalFrame(ParseCompressedFrame(zlib, old(input.rest), threshold, maximum), r,
                               old(input.rest), input.rest)
  {
    var source := input.rest;
    if threshold < 0 {
      var frame := DecodeFrame(input, maximum);
      match frame {
        case Decoded(f) => return Decoded(f);
        case NeedMore => return NeedMore;
        case Failed(e) => return Failed(FromFraming(e));
      }
    }
    var raw := DecodeRawFrame(input, maximum);
    match raw {
      case NeedMore => return NeedMore;
      case Failed(e) =>
        input.rest := source;
        return Failed(FromFraming(e));
      case Decoded(bytes) =>
        var packet := DecodeCompressedBody(zlib, bytes);
        if packet.Err? {
          input.rest := source;
          return Failed(packet.error);
        }
        return Decoded(packet.value);
    }
  }

  method DecodeCompressedBody(zlib: Zlib, raw: Bytes) returns (r: Result<Frame, CompressionError>)
    ensures r == ParseCompressedBody(zlib, raw)
  {
    var body := new Input(raw);
    var dataLength := DecodeVarInt(body);
    if dataLength.Err? {
      return Err(FromCodec(dataLength.error));
    }
    if dataLength.value < 0 {
      return Err(Codec(VarIntTooLong));
    }
    if dataLength.value != 0 {
      if dataLength.value > MAX_DECOMPRESSED_SIZE {
        return Err(DecompressedTooLarge(dataLength.value));
      }
      var decompressed := zlib.inflate(body.rest);
      if decompressed.None? {
        return Err(ZlibError);
      }
      if |decompressed.value| != dataLength.value {
        return Err(DataLengthMismatch(dataLength.value, |decompressed.value|));
      }
      body.rest := decompressed.value;
    }
    var packetId := DecodeVarInt(body);
    if packetId.Err? {
      return Err(FromCodec(packetId.error));
    }
    return Ok(Frame(packetId.value, body.rest));
  }
}
