/** The connection driver (`connection.rs`) up to the hand-over to the play loop: what one run does with a client's
    bytes, as a function of the reads they arrive in. */
module Connection {
  import opened Wire
  import opened Framing
  import opened Text
  import opened Login
  import C = Compression
  import H = Handshakes
  import K = Packets
  import S = StatusPing
  import V = VarInt

  datatype ProtocolState = Handshaking | Status | LoginState | Play | Closed

  /** What the driver reads of its configuration. The status response carries the number of players of the moment:
      `statusJson(n)` is its text when the packet after the first `n` of the connection is handled. */
  datatype Config = Config(maximum: usize, threshold: i32, online: bool, statusJson: nat -> Text, zlib: C.Zlib)

  datatype Packet =
    | HandshakePacket(handshake: H.Handshake)
    | StatusRequest
    | Ping(payload: i64)
    | LoginStartPacket(start: LoginStart)

  /** `LoginMachine` covers the errors that come back through the login state machine. */
  datatype ConnectionError =
    | HandshakeFailed(handshake: H.HandshakeError)
    | StatusFailed(status: S.StatusError)
    | LoginFailed(login: K.PacketError)
    | LoginMachine(machine: K.PacketError)
    | CompressionFailed(compression: C.CompressionError)
    | FramingFailed(framing: FramingError)
    | UnexpectedPacket(state: ProtocolState, packetId: i32)

  /** `try_decode_packet`. */
  function TryDecode(s: Bytes, state: ProtocolState, maximum: usize): (r: Framed<Packet, ConnectionError>)
    ensures r.Complete? ==> |r.rest| < |s|
  {
    match state
    case Handshaking =>
      (match H.ParseHandshake(s, maximum)
       case Ok((h, rest)) => Complete(HandshakePacket(h), rest)
       case Err(e) => if e.IncompleteHandshake? then Incomplete else Malformed(HandshakeFailed(e)))
    case Status =>
      (match S.ParseStatusRequest(s, maximum)
       case Complete(_, rest) => Complete(StatusRequest, rest)
       case Incomplete => Incomplete
       case Malformed(e) =>
         if e.WrongPacketId? && e.received == 1 then
           match S.ParsePing(s, maximum)
           case Complete(payload, rest) => Complete(Ping(payload), rest)
           case Incomplete => Incomplete
           case Malformed(e2) => Malformed(StatusFailed(e2))
         else Malformed(StatusFailed(e)))
    case LoginState =>
      (match ParseLoginStart(s, maximum)
       case Complete(start, rest) => Complete(LoginStartPacket(start), rest)
       case Incomplete => Incomplete
       case Malformed(e) =>
         Malformed(if e.WrongPacketId? then UnexpectedPacket(state, e.received) else LoginFailed(e)))
    case _ => Malformed(UnexpectedPacket(state, -1))
  }

  /** How a run ends: connection closed by the server, an error, or the play loop taking over the stream. */
  datatype End = ServerClosed | Errored(error: ConnectionError) | EnterPlay(username: Text)
  datatype Next = Continue(state: ProtocolState) | Stop(end: End)

  /** What one successful `read` delivers; a read of no bytes is the end of the stream. */
  type Chunk = b: Bytes | b != [] witness [0]

  /** What the driver writes for one packet, and what it does next. */
  datatype Step = Step(replies: seq<Bytes>, next: Next)

  /** The step for the packet that follows `n` others. */
  function Route(config: Config, n: nat, state: ProtocolState, packet: Packet): Step {
    match (state, packet)
    case (Handshaking, HandshakePacket(h)) => Step([], Continue(if h.next.ToStatus? then Status else LoginState))
    case (Handshaking, _) => Step([], Stop(Errored(UnexpectedPacket(state, -1))))
    case (Status, StatusRequest) =>
      (match S.StatusResponseBytes(config.statusJson(n), config.maximum)
       case Ok(reply) => Step([reply], Continue(Status))
       case Err(e) => Step([], Stop(Errored(StatusFailed(e)))))
    case (Status, Ping(payload)) =>
      (match S.PongBytes(payload, config.maximum)
       case Ok(reply) => Step([reply], Stop(ServerClosed))
       case Err(e) => Step([], Stop(Errored(StatusFailed(e)))))
    case (Status, _) => Step([], Stop(Errored(UnexpectedPacket(Status, -1))))
    case (LoginState, LoginStartPacket(start)) => RouteLogin(config, start)
    case (LoginState, _) => Step([], Stop(Errored(UnexpectedPacket(LoginState, -1))))
    case (_, _) => Step([], Stop(ServerClosed))
  }

  /** The driver encodes the Login Start again, and a fresh login state machine decodes it. */
  function RouteLogin(config: Config, start: LoginStart): Step {
    match LoginStartBytes(start, config.maximum)
    case Err(e) => Step([], Stop(Errored(LoginFailed(e))))
    case Ok(wire) =>
      match ParseLoginStart(wire, config.maximum)
      case Malformed(e) => Step([], Stop(Errored(LoginMachine(e))))
      case Incomplete => Step([], Continue(LoginState))
      case Complete(packet, _) =>
        if config.online then
          match EncryptionRequestBytes(config.maximum)
          case Err(e) => Step([], Stop(Errored(LoginMachine(e))))
          case Ok(request) => Step([request], Continue(LoginState))
        else
          match LoginSuccessBytes(LoginSuccess(NIL_UUID, packet.username, []), config.maximum)
          case Err(e) => Step([], Stop(Errored(LoginMachine(e))))
          case Ok(success) => SendSuccess(config, packet.username, success)
  }

  const SET_COMPRESSION_PACKET_ID: i32 := 0x03

  function SetCompressionBytes(threshold: i32, maximum: usize): Result<Bytes, C.CompressionError> {
    match FrameBytes(SET_COMPRESSION_PACKET_ID, V.VarIntBytes(threshold), maximum)
    case Ok(b) => Ok(b)
    case Err(e) => Err(C.FromFraming(e))
  }

  /** With compression on, Set Compression goes first and the success frame is taken apart and wrapped again. */
  function SendSuccess(config: Config, username: Text, success: Bytes): Step {
    if config.threshold < 0 then Step([success], Stop(EnterPlay(username)))
    else
      match SetCompressionBytes(config.threshold, config.maximum)
      case Err(e) => Step([], Stop(Errored(CompressionFailed(e))))
      case Ok(setCompression) =>
        match Rewrap(config, success)
        case Err(e) => Step([setCompression], Stop(Errored(e)))
        case Ok(compressed) => Step([setCompression, compressed], Stop(EnterPlay(username)))
  }

  function Rewrap(config: Config, success: Bytes): Result<Bytes, ConnectionError> {
    match ParseFrame(success, config.maximum)
    case Malformed(e) => Err(FramingFailed(e))
    case Incomplete => Err(FramingFailed(ZeroFrameLength))
    case Complete(frame, _) =>
      match C.CompressedFrameBytes(config.zlib, frame.packetId, frame.payload, config.threshold, config.maximum)
      case Ok(b) => Ok(b)
      case Err(e) => Err(CompressionFailed(e))
  }

  // ---------------------------------------------------------------------------
  // Runs
  // ---------------------------------------------------------------------------

  datatype Event = Event(state: ProtocolState, packet: Packet, step: Step)

  /** A run is either waiting for more input or finished; `leftover` is what then remains in the read buffer and
      `unread` the reads that were never made. */
  datatype Progress =
    | Waiting(state: ProtocolState, buffer: Bytes)
    | Finished(end: End, leftover: Bytes, unread: seq<Chunk>)
  datatype Run = Run(events: seq<Event>, progress: Progress)

  function Prepend(events: seq<Event>, run: Run): Run {
    Run(events + run.events, run.progress)
  }

  /** Decode and route until the buffer holds no complete packet or the run is over. */
  function Drain(config: Config, n: nat, state: ProtocolState, buffer: Bytes): Run
    decreases |buffer|
  {
    match TryDecode(buffer, state, config.maximum)
    case Incomplete => Run([], Waiting(state, buffer))
    case Malformed(e) => Run([], Finished(Errored(e), buffer, []))
    case Complete(packet, rest) =>
      var step := Route(config, n, state, packet);
      var event := Event(state, packet, step);
      match step.next
      case Stop(end) => Run([event], Finished(end, rest, []))
      case Continue(state') => Prepend([event], Drain(config, n + 1, state', rest))
  }

  /** The loop of `handle_connection`: drain, and read once more whenever the buffer runs dry. */
  function Serve(config: Config, n: nat, state: ProtocolState, buffer: Bytes, chunks: seq<Chunk>): Run
    decreases |chunks|
  {
    var run := Drain(config, n, state, buffer);
    match run.progress
    case Finished(end, leftover, _) => Run(run.events, Finished(end, leftover, chunks))
    case Waiting(state', buffer') =>
      if chunks == [] then run
      else Prepend(run.events, Serve(config, n + |run.events|, state', buffer' + chunks[0], chunks[1..]))
  }

  function Concat(chunks: seq<Bytes>): Bytes {
    if chunks == [] then [] else chunks[0] + Concat(chunks[1..])
  }

  // ---------------------------------------------------------------------------
  // Errors
  // ---------------------------------------------------------------------------

  /** A complete frame with an id the state does not know is an error that names the id. */
  lemma UnknownIdReported(s: Bytes, state: ProtocolState, maximum: usize)
    requires ParseFrame(s, maximum).Complete?
    ensures var id := ParseFrame(s, maximum).value.packetId;
            var r := TryDecode(s, state, maximum);
            && (state == Handshaking && id != 0 ==> r == Malformed(HandshakeFailed(H.WrongPacketId(id))))
            && (state == Status && id != 0 && id != 1 ==> r == Malformed(StatusFailed(S.WrongPacketId(id, 0))))
            && (state == LoginState && id != 0 ==> r == Malformed(UnexpectedPacket(LoginState, id)))
  {
    hide ParseFrame, ParseLoginStartFields, S.ParsePingBody;
  }

  // ---------------------------------------------------------------------------
  // Chunking independence
  // ---------------------------------------------------------------------------

  lemma StatusStable(s: Bytes, maximum: usize, more: Bytes)
    requires !TryDecode(s, Status, maximum).Incomplete?
    ensures TryDecode(s + more, Status, maximum) == Extend(TryDecode(s, Status, maximum), more)
  {
    hide ParseFrame, S.ParsePingBody;
    FrameStable(s, maximum, more);
  }

  /** A decoded packet and an error are both final; only "incomplete" may change when more bytes arrive. */
  lemma DecodeStable(s: Bytes, state: ProtocolState, maximum: usize, more: Bytes)
    requires !TryDecode(s, state, maximum).Incomplete?
    ensures TryDecode(s + more, state, maximum) == Extend(TryDecode(s, state, maximum), more)
  {
    hide H.ParseHandshake, ParseLoginStart, ParseFrame, S.ParsePingBody;
    match state {
      case Handshaking => H.HandshakeStable(s, maximum, more);
      case Status => StatusStable(s, maximum, more);
      case LoginState => LoginStable(s, maximum, more);
      case _ =>
    }
  }

  /** What is left after a packet is the end of the buffer. */
  lemma DecodedRest(s: Bytes, state: ProtocolState, maximum: usize)
    requires TryDecode(s, state, maximum).Complete?
    ensures var rest := TryDecode(s, state, maximum).rest; |rest| < |s| && s[|s| - |rest|..] == rest
  {
    hide ParseFrame, H.ParseBody, S.ParsePingBody, ParseLoginStartFields;
    FrameRest(s, maximum);
  }

  lemma LoginStable(s: Bytes, maximum: usize, more: Bytes)
    requires !ParseLoginStart(s, maximum).Incomplete?
    ensures ParseLoginStart(s + more, maximum) == Extend(ParseLoginStart(s, maximum), more)
  {
    K.PacketStable(LOGIN_START_PACKET_ID, ParseLoginStartFields, s, maximum, more);
  }

  /** Draining `a + b` is draining `a` and, if that did not end the run, going on with `b`. */
  lemma {:induction false} DrainSplit(config: Config, n: nat, state: ProtocolState, a: Bytes, b: Bytes)
    ensures var first := Drain(config, n, state, a);
            Drain(config, n, state, a + b) ==
            match first.progress
            case Finished(end, leftover, _) => Run(first.events, Finished(end, leftover + b, []))
            case Waiting(state', rest) => Prepend(first.events, Drain(config, n + |first.events|, state', rest + b))
    decreases |a|
  {
    hide TryDecode, Route;
    var decoded := TryDecode(a, state, config.maximum);
    if decoded.Incomplete? {
      assert [] + Drain(config, n, state, a + b).events == Drain(config, n, state, a + b).events;
    } else {
      DecodeStable(a, state, config.maximum, b);
      if decoded.Complete? {
        var step := Route(config, n, state, decoded.value);
        if step.next.Continue? {
          DrainSplit(config, n + 1, step.next.state, decoded.rest, b);
          var later := Drain(config, n + 1, step.next.state, decoded.rest);
          if later.progress.Waiting? {
            PrependTwice([Event(state, decoded.value, step)], later.events,
                         Drain(config, n + 1 + |later.events|, later.progress.state, later.progress.buffer + b));
          }
        }
      }
    }
  }

  lemma PrependTwice(a: seq<Event>, b: seq<Event>, run: Run)
    ensures Prepend(a, Prepend(b, run)) == Prepend(a + b, run)
  {
    assert a + (b + run.events) == a + b + run.events;
  }

  /** Whether the bytes come in one read or in many, the run has the same packets, transitions and replies, the same
      error or end, and the same bytes buffered or never consumed. */
  lemma {:induction false} ChunkingIrrelevant(config: Config, n: nat, state: ProtocolState, buffer: Bytes,
                                              chunks: seq<Chunk>)
    ensures var whole := Drain(config, n, state, buffer + Concat(chunks));
            var run := Serve(config, n, state, buffer, chunks);
            && run.events == whole.events
            && match run.progress
               case Waiting(state', rest) => whole.progress == Waiting(state', rest)
               case Finished(end, leftover, unread) =>
                 whole.progress == Finished(end, leftover + Concat(unread), [])
    decreases |chunks|
  {
    hide Drain;
    DrainSplit(config, n, state, buffer, Concat(chunks));
    var first := Drain(config, n, state, buffer);
    if first.progress.Waiting? {
      var Waiting(state', rest) := first.progress;
      if chunks == [] {
        assert rest + [] == rest && buffer + [] == buffer;
      } else {
        assert rest + Concat(chunks) == rest + chunks[0] + Concat(chunks[1..]);
        ChunkingIrrelevant(config, n + |first.events|, state', rest + chunks[0], chunks[1..]);
      }
    }
  }

  /** Two ways of splitting one client stream. */
  lemma ChunkingIndependence(config: Config, one: seq<Chunk>, other: seq<Chunk>)
    requires Concat(one) == Concat(other)
    ensures var a, b := Serve(config, 0, Handshaking, [], one), Serve(config, 0, Handshaking, [], other);
            && a.events == b.events
            && match a.progress
               case Waiting(_, _) => b.progress == a.progress
               case Finished(end, leftover, unread) =>
                 && b.progress.Finished? && b.progress.end == end
                 && b.progress.leftover + Concat(b.progress.unread) == leftover + Concat(unread)
  {
    hide Drain, Serve;
    ChunkingIrrelevant(config, 0, Handshaking, [], one);
    ChunkingIrrelevant(config, 0, Handshaking, [], other);
  }
}
