/** What every run of the connection driver keeps, over all client streams and all ways of splitting them. */
module ConnectionRuns {
  import opened Wire
  import opened Framing
  import opened Text
  import opened Login
  import opened Connection
  import C = Compression
  import H = Handshakes
  import K = Packets
  import S = StatusPing
  import V = VarInt

  // ---------------------------------------------------------------------------
  // Transitions
  // ---------------------------------------------------------------------------

  function Target(h: H.Handshake): ProtocolState {
    if h.next.ToStatus? then Status else LoginState
  }

  /** The first event is a handshake, and all later ones happen in the state it asked for. */
  ghost predicate FollowsHandshake(events: seq<Event>) {
    events != [] ==>
      && events[0].state == Handshaking && events[0].packet.HandshakePacket?
      && forall i :: 0 < i < |events| ==> events[i].state == Target(events[0].packet.handshake)
  }

  lemma {:induction false} StatesStay(config: Config, n: nat, state: ProtocolState, buffer: Bytes)
    requires state == Status || state == LoginState
    ensures forall e :: e in Drain(config, n, state, buffer).events ==> e.state == state
    decreases |buffer|
  {
    hide TryDecode, Route;
    var decoded := TryDecode(buffer, state, config.maximum);
    if decoded.Complete? {
      NextState(config, n, state, decoded.value);
      var step := Route(config, n, state, decoded.value);
      if step.next.Continue? {
        StatesStay(config, n + 1, step.next.state, decoded.rest);
      }
    }
  }

  lemma NextState(config: Config, n: nat, state: ProtocolState, packet: Packet)
    requires state == Status || state == LoginState
    ensures Route(config, n, state, packet).next.Continue? ==> Route(config, n, state, packet).next.state == state
  {
    hide Rewrap, SetCompressionBytes, LoginStartBytes, LoginSuccessBytes, EncryptionRequestBytes, ParseLoginStart,
         S.StatusResponseBytes, S.PongBytes;
  }

  /** Every run, however its bytes were split. */
  lemma RunFollowsHandshake(config: Config, chunks: seq<Chunk>)
    ensures FollowsHandshake(Serve(config, 0, Handshaking, [], chunks).events)
  {
    hide Serve, H.ParseHandshake, ParseLoginStart, RouteLogin, S.ParseStatusRequest, S.ParsePing, S.StatusResponseBytes,
         S.PongBytes;
    ChunkingIrrelevant(config, 0, Handshaking, [], chunks);
    var stream := [] + Concat(chunks);
    var decoded := TryDecode(stream, Handshaking, config.maximum);
    if decoded.Complete? {
      StatesStay(config, 1, Target(decoded.value.handshake), decoded.rest);
    }
  }

  // ---------------------------------------------------------------------------
  // The pong
  // ---------------------------------------------------------------------------

  /** A ping is the last event. Its answer is one frame with id 1 and the very same payload, after which the server
      closes; if the configured maximum is too small for that frame, nothing is sent and the run ends in an error. */
  ghost predicate PongIsLast(config: Config, run: Run) {
    forall i :: 0 <= i < |run.events| && run.events[i].packet.Ping? ==>
      var payload := run.events[i].packet.payload;
      && i == |run.events| - 1 && run.progress.Finished?
      && if config.maximum >= 9
         then run.progress.end == ServerClosed
              && run.events[i].step.replies == [V.VarIntBytes(9) + (V.VarIntBytes(1) + I64(payload))]
         else run.progress.end.Errored? && run.events[i].step.replies == []
  }

  lemma PongFrame(payload: i64, maximum: usize)
    ensures S.PongBytes(payload, maximum).Ok? <==> maximum >= 9
    ensures S.PongBytes(payload, maximum).Ok? ==>
              S.PongBytes(payload, maximum).value == V.VarIntBytes(9) + (V.VarIntBytes(1) + I64(payload))
  {
    hide I64;
    FrameAcceptance(1, I64(payload), maximum);
  }

  /** What one ping does, and that nothing else closes a run from the server's side. */
  lemma PingStep(config: Config, n: nat, state: ProtocolState, packet: Packet)
    requires TryDecodable(state, packet)
    ensures var step := Route(config, n, state, packet);
            var end := if step.next.Stop? then step.next.end else ServerClosed;
            && (packet.Ping? ==> step.next.Stop?
                                 && PongIsLast(config, Run([Event(state, packet, step)], Finished(end, [], []))))
            && (step.next == Stop(ServerClosed) ==> packet.Ping?)
  {
    hide Rewrap, SetCompressionBytes, LoginStartBytes, LoginSuccessBytes, EncryptionRequestBytes, ParseLoginStart,
         S.StatusResponseBytes, S.PongBytes, V.VarIntBytes, I64;
    if packet.Ping? {
      PongFrame(packet.payload, config.maximum);
    }
  }

  /** The packets a state can yield. */
  predicate TryDecodable(state: ProtocolState, packet: Packet) {
    match state
    case Handshaking => packet.HandshakePacket?
    case Status => packet.StatusRequest? || packet.Ping?
    case LoginState => packet.LoginStartPacket?
    case _ => false
  }

  lemma {:induction false} DrainPong(config: Config, n: nat, state: ProtocolState, buffer: Bytes)
    ensures var run := Drain(config, n, state, buffer);
            && PongIsLast(config, run)
            && (run.progress.Finished? && run.progress.end == ServerClosed ==>
                  run.events != [] && run.events[|run.events| - 1].packet.Ping?)
    decreases |buffer|
  {
    hide Route, H.ParseHandshake, ParseLoginStart, ParseFrame, S.ParsePingBody, V.VarIntBytes, I64;
    var decoded := TryDecode(buffer, state, config.maximum);
    if decoded.Complete? {
      PingStep(config, n, state, decoded.value);
      var step := Route(config, n, state, decoded.value);
      if step.next.Continue? {
        DrainPong(config, n + 1, step.next.state, decoded.rest);
      }
    }
  }

  lemma RunPong(config: Config, chunks: seq<Chunk>)
    ensures var run := Serve(config, 0, Handshaking, [], chunks);
            && PongIsLast(config, run)
            && (run.progress.Finished? && run.progress.end == ServerClosed ==>
                  run.events != [] && run.events[|run.events| - 1].packet.Ping?)
  {
    hide Serve, Drain, V.VarIntBytes, I64;
    ChunkingIrrelevant(config, 0, Handshaking, [], chunks);
    DrainPong(config, 0, Handshaking, [] + Concat(chunks));
  }

  // ---------------------------------------------------------------------------
  // Malformed frames
  // ---------------------------------------------------------------------------

  /** Whatever else arrives, the driver goes on waiting for the rest of a handshake. */
  ghost predicate Stuck(s: Bytes, maximum: usize) {
    forall more :: TryDecode(s + more, Handshaking, maximum) == Incomplete
  }

  /** Once a frame is decided, the connection is stuck exactly when the frame was malformed or is a handshake whose
      payload ends inside a field. It is then neither served nor refused. */
  lemma HandshakeStuck(s: Bytes, maximum: usize)
    requires !ParseFrame(s, maximum).Incomplete?
    ensures Stuck(s, maximum)
       <==> match ParseFrame(s, maximum)
            case Complete(frame, _) => frame.packetId == H.HANDSHAKE_PACKET_ID && H.FieldsCut(frame.payload)
            case _ => true
  {
    hide ParseFrame, H.ParseBody, H.FieldsCut;
    forall more ensures ParseFrame(s + more, maximum) == Extend(ParseFrame(s, maximum), more) {
      FrameStable(s, maximum, more);
    }
    assert s + [] == s;
    if ParseFrame(s, maximum).Complete? {
      H.BodyIncomplete(ParseFrame(s, maximum).value);
    }
  }

  /** Any handshake at all, cut anywhere in its fields and framed as it then is, is such an input. */
  lemma CutHandshakeStuck(h: H.Handshake, k: nat, maximum: usize)
    requires Accepted(h.address, H.MAX_SERVER_ADDRESS_UTF16_UNITS) && k < |H.Fields(h)|
    requires FrameBytes(H.HANDSHAKE_PACKET_ID, H.Fields(h)[..k], maximum).Ok?
    ensures Stuck(FrameBytes(H.HANDSHAKE_PACKET_ID, H.Fields(h)[..k], maximum).value, maximum)
  {
    hide ParseFrame, FrameBytes, H.ParseBody, H.Fields, H.FieldsCut, Stuck, Accepted;
    var payload := H.Fields(h)[..k];
    var wire := FrameBytes(H.HANDSHAKE_PACKET_ID, payload, maximum).value;
    FrameRoundTrip(H.HANDSHAKE_PACKET_ID, payload, maximum, []);
    assert wire + [] == wire;
    H.CutFields(h, k);
    H.BodyIncomplete(Frame(H.HANDSHAKE_PACKET_ID, payload));
    HandshakeStuck(wire, maximum);
  }

  /** A frame of no bytes, and a frame with a packet id and nothing else. */
  lemma StuckInputs(maximum: usize)
    requires maximum >= 1
    ensures ParseFrame([0], maximum) == Malformed(ZeroFrameLength) && Stuck([0], maximum)
    ensures ParseFrame([1, 0], maximum) == Complete(Frame(0, []), []) && Stuck([1, 0], maximum)
  {
    hide Stuck;
    assert [1, 0][1..] == [0] && [0][..1] == [0] && [0][1..] == [];
    assert ParseFrame([1, 0], maximum) == Complete(Frame(0, []), []);
    HandshakeStuck([0], maximum);
    HandshakeStuck([1, 0], maximum);
  }

  /** A client that opens with such an input gets no event and no end, whatever it sends afterwards. */
  lemma StuckRun(config: Config, s: Bytes, chunks: seq<Chunk>)
    requires Stuck(s, config.maximum) && s <= Concat(chunks)
    ensures Serve(config, 0, Handshaking, [], chunks) == Run([], Waiting(Handshaking, Concat(chunks)))
  {
    hide TryDecode, Serve;
    var stream := Concat(chunks);
    assert stream == s + stream[|s|..];
    assert [] + stream == stream;
    ChunkingIrrelevant(config, 0, Handshaking, [], chunks);
  }

  /** What the other states make of a malformed frame. */
  function MalformedError(state: ProtocolState, e: FramingError): ConnectionError {
    if state == Status then StatusFailed(S.IncompleteStatus) else LoginFailed(K.FromFraming(e))
  }

  /** The same malformed frame behind a handshake ends the run with an error, however the bytes were split and
      whatever follows them. */
  lemma MalformedFrameReported(config: Config, h: H.Handshake, s: Bytes, chunks: seq<Chunk>)
    requires H.HandshakeBytes(h, config.maximum).Ok? && ParseFrame(s, config.maximum).Malformed?
    requires H.HandshakeBytes(h, config.maximum).value + s <= Concat(chunks)
    ensures var run := Serve(config, 0, Handshaking, [], chunks);
            && |run.events| == 1 && run.progress.Finished?
            && run.progress.end == Errored(MalformedError(Target(h), ParseFrame(s, config.maximum).error))
  {
    hide Serve, H.HandshakeBytes, H.ParseHandshake, ParseFrame;
    var first, stream := H.HandshakeBytes(h, config.maximum).value, Concat(chunks);
    var rest := s + stream[|first + s|..];
    assert [] + stream == first + rest;
    ChunkingIrrelevant(config, 0, Handshaking, [], chunks);
    H.HandshakeRoundTrip(h, config.maximum, rest);
    FrameStable(s, config.maximum, stream[|first + s|..]);
    assert TryDecode(rest, Target(h), config.maximum)
        == Malformed(MalformedError(Target(h), ParseFrame(s, config.maximum).error));
  }

  // ---------------------------------------------------------------------------
  // Login replies
  // ---------------------------------------------------------------------------

  /** The re-encoding and re-decoding of a Login Start never changes it and never fails in the state machine. */
  lemma LoginReencoded(config: Config, start: LoginStart)
    requires LoginStartBytes(start, config.maximum).Ok?
    ensures ParseLoginStart(LoginStartBytes(start, config.maximum).value, config.maximum) == Complete(start, [])
  {
    hide LoginStartBytes, ParseLoginStart;
    LoginStartRoundTrip(start, config.maximum, []);
    var wire := LoginStartBytes(start, config.maximum).value;
    assert wire + [] == wire;
  }

  /** The Login Success of an offline login, as the client reads it after whatever wrapping the configuration asks
      for: same id, same payload, the name that was sent. */
  ghost predicate ClientReads(config: Config, username: Text, wire: Bytes) {
    forall tail, readThreshold: i32 :: (config.threshold < 0 <==> readThreshold < 0) ==>
      var read := C.ParseCompressedFrame(config.zlib, wire + tail, readThreshold, config.maximum);
      && read.Complete? && read.rest == tail && read.value.packetId == LOGIN_SUCCESS_PACKET_ID
      && K.WholeBody(ParseLoginSuccessFields(read.value.payload)) == Ok(LoginSuccess(NIL_UUID, username, []))
  }

  lemma SuccessBody(p: LoginSuccess, maximum: usize)
    requires LoginSuccessBytes(p, maximum).Ok?
    ensures LoginSuccessFields(p).Ok?
    ensures var body := LoginSuccessFields(p).value;
            && FrameBytes(LOGIN_SUCCESS_PACKET_ID, body, maximum) == Ok(LoginSuccessBytes(p, maximum).value)
            && K.WholeBody(ParseLoginSuccessFields(body)) == Ok(p)
            && |V.VarIntBytes(LOGIN_SUCCESS_PACKET_ID)| + |body| <= PROTOCOL_MAX_FRAME_LENGTH
  {
    hide LoginSuccessFields, ParseLoginSuccessFields, FrameBytes;
    var body := LoginSuccessFields(p).value;
    LoginSuccessRoundTrip(p, maximum, []);
    K.PacketFields(LOGIN_SUCCESS_PACKET_ID, ParseLoginSuccessFields, body, maximum, []);
    FrameAcceptance(LOGIN_SUCCESS_PACKET_ID, body, maximum);
  }

  lemma PlainSuccessRead(config: Config, username: Text, wire: Bytes)
    requires config.threshold < 0
    requires LoginSuccessBytes(LoginSuccess(NIL_UUID, username, []), config.maximum) == Ok(wire)
    ensures ClientReads(config, username, wire)
  {
    hide LoginSuccessBytes, LoginSuccessFields, ParseLoginSuccessFields, FrameBytes, ParseFrame;
    var p := LoginSuccess(NIL_UUID, username, []);
    SuccessBody(p, config.maximum);
    forall tail ensures ParseFrame(wire + tail, config.maximum)
                     == Complete(Frame(LOGIN_SUCCESS_PACKET_ID, LoginSuccessFields(p).value), tail) {
      FrameRoundTrip(LOGIN_SUCCESS_PACKET_ID, LoginSuccessFields(p).value, config.maximum, tail);
    }
  }

  lemma RewrappedSuccessRead(config: Config, username: Text, success: Bytes)
    requires config.threshold >= 0 && config.zlib.Inverse()
    requires LoginSuccessBytes(LoginSuccess(NIL_UUID, username, []), config.maximum) == Ok(success)
    requires Rewrap(config, success).Ok?
    ensures ClientReads(config, username, Rewrap(config, success).value)
  {
    hide LoginSuccessBytes, LoginSuccessFields, ParseLoginSuccessFields, FrameBytes, ParseFrame, C.CompressedFrameBytes,
         C.ParseCompressedFrame, C.Zlib.Inverse;
    var p := LoginSuccess(NIL_UUID, username, []);
    SuccessBody(p, config.maximum);
    var body := LoginSuccessFields(p).value;
    FrameRoundTrip(LOGIN_SUCCESS_PACKET_ID, body, config.maximum, []);
    assert success + [] == success;
    forall tail, readThreshold: i32 | readThreshold >= 0
      ensures C.ParseCompressedFrame(config.zlib, Rewrap(config, success).value + tail, readThreshold, config.maximum)
           == Complete(Frame(LOGIN_SUCCESS_PACKET_ID, body), tail) {
      C.CompressedRoundTrip(config.zlib, LOGIN_SUCCESS_PACKET_ID, body, config.threshold, readThreshold,
                            config.maximum, tail);
    }
  }

  /** An offline login that is handed to the play loop has told the client its own name in Login Success, preceded by
      Set Compression exactly when compression is on. */
  lemma OfflineLoginReplies(config: Config, start: LoginStart)
    requires !config.online && config.zlib.Inverse()
    requires var next := RouteLogin(config, start).next; next.Stop? && next.end.EnterPlay?
    ensures var step := RouteLogin(config, start);
            && step.next == Stop(EnterPlay(start.username))
            && if config.threshold < 0 then |step.replies| == 1 && ClientReads(config, start.username, step.replies[0])
               else |step.replies| == 2
                    && SetCompressionBytes(config.threshold, config.maximum) == Ok(step.replies[0])
                    && ClientReads(config, start.username, step.replies[1])
  {
    hide LoginStartBytes, ParseLoginStart, LoginSuccessBytes, SetCompressionBytes, Rewrap, ClientReads,
         C.Zlib.Inverse;
    LoginReencoded(config, start);
    var success := LoginSuccessBytes(LoginSuccess(NIL_UUID, start.username, []), config.maximum).value;
    if config.threshold < 0 {
      PlainSuccessRead(config, start.username, success);
    } else {
      RewrappedSuccessRead(config, start.username, success);
    }
  }

  /** Offline and uncompressed, a login with an acceptable name always succeeds if frames of 67 bytes are allowed. */
  lemma OfflineLoginEnters(config: Config, start: LoginStart)
    requires !config.online && config.threshold < 0 && config.maximum >= 67
    requires Accepted(start.username, MAX_USERNAME_LENGTH)
    ensures LoginStartBytes(start, config.maximum).Ok?
    ensures RouteLogin(config, start).next == Stop(EnterPlay(start.username))
  {
    hide Accepted, Prefixed, ParseLoginStart, FrameBytes;
    NameShort(start.username);
    LoginStartLength(start, config.maximum);
    LoginReencoded(config, start);
    EmptyPropertiesLength();
    var p := LoginSuccess(NIL_UUID, start.username, []);
    FrameAcceptance(LOGIN_SUCCESS_PACKET_ID, LoginSuccessFields(p).value, config.maximum);
  }

  lemma EmptyPropertiesLength()
    ensures |PropertiesBytes([])| == 1
  {
  }
}
