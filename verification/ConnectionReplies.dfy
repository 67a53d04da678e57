/** What a client reads of the driver's replies, over all runs. */
module ConnectionReplies {
  import opened Wire
  import opened Framing
  import opened Text
  import opened Login
  import opened Connection
  import opened ConnectionRuns
  import C = Compression
  import H = Handshakes
  import K = Packets
  import P = Primitives
  import S = StatusPing
  import V = VarInt

  // ---------------------------------------------------------------------------
  // Every event is routed once
  // ---------------------------------------------------------------------------

  /** Event `i` carries the step of its own packet, counted from the start of the run; a step that goes on is followed
      in the state it names, and a step that stops is the last. */
  ghost predicate RoutedAt(config: Config, n: nat, run: Run, i: nat)
    requires i < |run.events|
  {
    var e := run.events[i];
    && TryDecodable(e.state, e.packet) && e.step == Route(config, n + i, e.state, e.packet)
    && match e.step.next
       case Stop(end) => i == |run.events| - 1 && run.progress.Finished? && run.progress.end == end
       case Continue(state) =>
         if i + 1 < |run.events| then run.events[i + 1].state == state
         else run.progress.Waiting? ==> run.progress.state == state
  }

  ghost predicate Routed(config: Config, n: nat, run: Run) {
    forall i :: 0 <= i < |run.events| ==> RoutedAt(config, n, run, i)
  }

  lemma Decodable(s: Bytes, state: ProtocolState, maximum: usize)
    requires TryDecode(s, state, maximum).Complete?
    ensures TryDecodable(state, TryDecode(s, state, maximum).value)
  {
    hide H.ParseHandshake, ParseLoginStart, S.ParseStatusRequest, S.ParsePing;
  }

  /** Nothing happened before the first event. */
  lemma FirstState(config: Config, n: nat, state: ProtocolState, buffer: Bytes)
    ensures var run := Drain(config, n, state, buffer);
            if run.events != [] then run.events[0].state == state
            else run.progress.Waiting? ==> run.progress.state == state
  {
    hide TryDecode, Route;
  }

  lemma {:induction false} DrainRouted(config: Config, n: nat, state: ProtocolState, buffer: Bytes)
    ensures Routed(config, n, Drain(config, n, state, buffer))
    decreases |buffer|
  {
    hide TryDecode, Route, TryDecodable;
    var decoded := TryDecode(buffer, state, config.maximum);
    if decoded.Complete? {
      Decodable(buffer, state, config.maximum);
      var step := Route(config, n, state, decoded.value);
      if step.next.Continue? {
        DrainRouted(config, n + 1, step.next.state, decoded.rest);
        FirstState(config, n + 1, step.next.state, decoded.rest);
        var run, later := Drain(config, n, state, buffer), Drain(config, n + 1, step.next.state, decoded.rest);
        forall i | 0 < i < |run.events| ensures RoutedAt(config, n, run, i) {
          assert RoutedAt(config, n + 1, later, i - 1);
        }
      }
    }
  }

  lemma RunRouted(config: Config, chunks: seq<Chunk>)
    ensures Routed(config, 0, Serve(config, 0, Handshaking, [], chunks))
  {
    hide Serve, Drain, Route, TryDecodable;
    ChunkingIrrelevant(config, 0, Handshaking, [], chunks);
    DrainRouted(config, 0, Handshaking, [] + Concat(chunks));
    var run, whole := Serve(config, 0, Handshaking, [], chunks), Drain(config, 0, Handshaking, [] + Concat(chunks));
    forall i | 0 <= i < |run.events| ensures RoutedAt(config, 0, run, i) {
      assert RoutedAt(config, 0, whole, i);
    }
  }

  // ---------------------------------------------------------------------------
  // Status
  // ---------------------------------------------------------------------------

  /** A text of at most 32767 UTF-16 units whose frame is no longer than the configured maximum. */
  predicate StatusFits(text: Text, maximum: usize) {
    && |Utf16(text)| <= 32767
    && 1 + |V.VarIntBytes(AsI32(|Utf8(text)|))| + |Utf8(text)| <= maximum
  }

  /** Whatever follows it, the reply is one frame with id 0 that holds this text and nothing else. */
  ghost predicate ReadsAsStatus(text: Text, reply: Bytes, maximum: usize) {
    forall tail ::
      var read := ParseFrame(reply + tail, maximum);
      && read.Complete? && read.rest == tail && read.value.packetId == 0
      && ParseString(read.value.payload, 32767) == Ok((text, []))
  }

  /** Every status request with a text that fits is answered by that text, and by nothing else; one without ends the run
      unanswered, in an error. */
  ghost predicate StatusAnswered(config: Config, run: Run) {
    forall i :: 0 <= i < |run.events| && run.events[i].packet.StatusRequest? ==>
      var replies := run.events[i].step.replies;
      if StatusFits(config.statusJson(i), config.maximum) then
        && |replies| == 1 && ReadsAsStatus(config.statusJson(i), replies[0], config.maximum)
        && run.events[i].step.next == Continue(Status)
      else
        && replies == [] && i == |run.events| - 1 && run.progress.Finished? && run.progress.end.Errored?
  }

  lemma StatusAcceptance(text: Text, maximum: usize)
    ensures S.StatusResponseBytes(text, maximum).Ok? <==> StatusFits(text, maximum)
  {
    hide V.VarIntBytes, Utf8, Utf16, Utf16Units, FrameBytes;
    StringAcceptance(text, 32767);
    UnitsCounted(text);
    ThreeBytesPerUnit(text);
    ZeroOneByte();
    FrameAcceptance(0, Prefixed(text), maximum);
  }

  lemma ZeroOneByte()
    ensures |V.VarIntBytes(0)| == 1
  {
  }

  lemma StatusReply(text: Text, maximum: usize)
    requires S.StatusResponseBytes(text, maximum).Ok?
    ensures ReadsAsStatus(text, S.StatusResponseBytes(text, maximum).value, maximum)
  {
    hide Accepted, Prefixed, FrameBytes, ParseFrame, ParseString;
    forall tail
      ensures ParseFrame(S.StatusResponseBytes(text, maximum).value + tail, maximum)
           == Complete(Frame(0, Prefixed(text)), tail) {
      FrameRoundTrip(0, Prefixed(text), maximum, tail);
    }
    StringRoundTrip(text, 32767, []);
    assert Prefixed(text) + [] == Prefixed(text);
  }

  lemma StatusStep(config: Config, n: nat, state: ProtocolState)
    requires TryDecodable(state, StatusRequest)
    ensures var step := Route(config, n, state, StatusRequest);
            if StatusFits(config.statusJson(n), config.maximum) then
              && |step.replies| == 1 && ReadsAsStatus(config.statusJson(n), step.replies[0], config.maximum)
              && step.next == Continue(Status)
            else step.replies == [] && step.next.Stop? && step.next.end.Errored?
  {
    hide StatusFits, ReadsAsStatus, S.StatusResponseBytes;
    StatusAcceptance(config.statusJson(n), config.maximum);
    if S.StatusResponseBytes(config.statusJson(n), config.maximum).Ok? {
      StatusReply(config.statusJson(n), config.maximum);
    }
  }

  lemma RunStatus(config: Config, chunks: seq<Chunk>)
    ensures StatusAnswered(config, Serve(config, 0, Handshaking, [], chunks))
  {
    hide Serve, Route, TryDecodable, StatusFits, ReadsAsStatus;
    RunRouted(config, chunks);
    var run := Serve(config, 0, Handshaking, [], chunks);
    forall i | 0 <= i < |run.events| && run.events[i].packet.StatusRequest?
      ensures var replies := run.events[i].step.replies;
              if StatusFits(config.statusJson(i), config.maximum) then
                && |replies| == 1 && ReadsAsStatus(config.statusJson(i), replies[0], config.maximum)
                && run.events[i].step.next == Continue(Status)
              else
                && replies == [] && i == |run.events| - 1 && run.progress.Finished? && run.progress.end.Errored? {
      assert RoutedAt(config, 0, run, i);
      StatusStep(config, i, run.events[i].state);
    }
  }

  // ---------------------------------------------------------------------------
  // A whole status exchange
  // ---------------------------------------------------------------------------

  const STATUS_REQUEST: Bytes := [1, 0]

  function Requests(k: nat): Bytes {
    if k == 0 then [] else STATUS_REQUEST + Requests(k - 1)
  }

  function PingFrame(payload: i64): Bytes {
    [9, 1] + I64(payload)
  }

  /** `k` status requests in a row, then a ping. */
  ghost predicate ExchangeEvents(k: nat, payload: i64, events: seq<Event>) {
    && |events| == k + 1
    && (forall i :: 0 <= i < k ==> events[i].packet == StatusRequest)
    && events[k].packet == Ping(payload)
  }

  lemma RequestDecoded(rest: Bytes, maximum: usize)
    requires maximum >= 1
    ensures TryDecode(STATUS_REQUEST + rest, Status, maximum) == Complete(StatusRequest, rest)
  {
    var s := STATUS_REQUEST + rest;
    assert s[1..] == [0] + rest && ([0] + rest)[..1] == [0] && ([0] + rest)[1..] == rest && [0][1..] == [];
    assert V.ParseVarInt(s) == Ok((1, [0] + rest));
    assert V.ParseVarInt([0]) == Ok((0, []));
    assert ParseFrame(s, maximum) == Complete(Frame(0, []), rest);
  }

  lemma PingDecoded(payload: i64, rest: Bytes, maximum: usize)
    requires maximum >= 9
    ensures TryDecode(PingFrame(payload) + rest, Status, maximum) == Complete(Ping(payload), rest)
  {
    hide I64, ParseI64, V.Scan;
    var s, body := PingFrame(payload) + rest, [1] + I64(payload);
    assert s[1..] == body + rest;
    OneByte(9, body + rest);
    assert s == [9] + (body + rest);
    OneByte(1, I64(payload));
    assert (body + rest)[..9] == body && (body + rest)[9..] == rest;
    assert ParseFrame(s, maximum) == Complete(Frame(1, I64(payload)), rest);
    I64RoundTrip(payload, []);
    assert I64(payload) + [] == I64(payload);
  }

  lemma OneByte(v: byte, rest: Bytes)
    requires v < 128
    ensures V.ParseVarInt([v] + rest) == Ok((v, rest))
  {
    assert ([v] + rest)[1..] == rest;
  }

  lemma {:induction false} ExchangeDrained(config: Config, n: nat, k: nat, payload: i64, extra: Bytes)
    requires config.maximum >= 9
    requires forall i :: n <= i < n + k ==> StatusFits(config.statusJson(i), config.maximum)
    ensures var run := Drain(config, n, Status, Requests(k) + (PingFrame(payload) + extra));
            ExchangeEvents(k, payload, run.events) && run.progress == Finished(ServerClosed, extra, [])
    decreases k
  {
    hide TryDecode, StatusFits, PingFrame, S.StatusResponseBytes, S.PongBytes;
    var last := PingFrame(payload) + extra;
    if k == 0 {
      assert Requests(k) + last == last;
      PingDecoded(payload, extra, config.maximum);
      PongFrame(payload, config.maximum);
    } else {
      var rest := Requests(k - 1) + last;
      assert Requests(k) + last == STATUS_REQUEST + rest;
      RequestDecoded(rest, config.maximum);
      StatusStep(config, n, Status);
      ExchangeDrained(config, n + 1, k - 1, payload, extra);
      var run, later := Drain(config, n, Status, STATUS_REQUEST + rest), Drain(config, n + 1, Status, rest);
      assert forall i :: 0 < i <= k ==> run.events[i] == later.events[i - 1];
    }
  }

  /** A client that asks for the status any number of times and then pings is heard out, however its bytes are split:
      every request and the ping are handled, each is answered as `RunStatus` and `RunPong` say, and the server closes
      with the bytes behind the ping unread. */
  lemma StatusExchange(config: Config, h: H.Handshake, k: nat, payload: i64, extra: Bytes, chunks: seq<Chunk>)
    requires H.HandshakeBytes(h, config.maximum).Ok? && h.next.ToStatus? && config.maximum >= 9
    requires forall i :: 1 <= i < 1 + k ==> StatusFits(config.statusJson(i), config.maximum)
    requires Concat(chunks) == H.HandshakeBytes(h, config.maximum).value + (Requests(k) + (PingFrame(payload) + extra))
    ensures var run := Serve(config, 0, Handshaking, [], chunks);
            && run.events != [] && run.events[0].packet == HandshakePacket(h)
            && ExchangeEvents(k, payload, run.events[1..])
            && run.progress.Finished? && run.progress.end == ServerClosed
            && run.progress.leftover + Concat(run.progress.unread) == extra
  {
    hide Serve, H.HandshakeBytes, H.ParseHandshake, StatusFits, PingFrame, Requests, ExchangeEvents;
    var rest := Requests(k) + (PingFrame(payload) + extra);
    ChunkingIrrelevant(config, 0, Handshaking, [], chunks);
    assert [] + Concat(chunks) == H.HandshakeBytes(h, config.maximum).value + rest;
    H.HandshakeRoundTrip(h, config.maximum, rest);
    ExchangeDrained(config, 1, k, payload, extra);
    var run, later := Drain(config, 0, Handshaking, [] + Concat(chunks)), Drain(config, 1, Status, rest);
    assert run.events[1..] == later.events;
  }

  // ---------------------------------------------------------------------------
  // Logins
  // ---------------------------------------------------------------------------

  /** Set Compression, as the client reads it. */
  ghost predicate ReadsAsThreshold(threshold: i32, reply: Bytes, maximum: usize) {
    forall tail ::
      var read := ParseFrame(reply + tail, maximum);
      && read.Complete? && read.rest == tail && read.value.packetId == 3
      && V.ParseVarInt(read.value.payload) == Ok((threshold, []))
  }

  lemma ThresholdReply(threshold: i32, maximum: usize)
    requires SetCompressionBytes(threshold, maximum).Ok?
    ensures ReadsAsThreshold(threshold, SetCompressionBytes(threshold, maximum).value, maximum)
  {
    hide V.VarIntBytes, V.ParseVarInt, FrameBytes, ParseFrame;
    var payload := V.VarIntBytes(threshold);
    forall tail
      ensures ParseFrame(SetCompressionBytes(threshold, maximum).value + tail, maximum)
           == Complete(Frame(3, payload), tail) {
      FrameRoundTrip(3, payload, maximum, tail);
    }
    V.VarIntRoundTrip(threshold, []);
    assert payload + [] == payload;
  }

  /** An Encryption Request with an empty server id and the placeholder key and token, as the client reads it. */
  ghost predicate ReadsAsEncryptionRequest(reply: Bytes, maximum: usize) {
    forall tail ::
      var read := ParseFrame(reply + tail, maximum);
      && read.Complete? && read.rest == tail && read.value.packetId == 1
      && ParsedRequest(read.value.payload) == Ok((([], seq(128, _ => 0), seq(4, _ => 0)), []))
  }

  function ParsedRequest(s: Bytes): Parsed<(Text, Bytes, Bytes)> {
    var (serverId, s1) :- ParseString(s, 20);
    var (key, s2) :- P.ParseByteArray(s1, 512);
    var (token, s3) :- P.ParseByteArray(s2, 512);
    Ok(((serverId, key, token), s3))
  }

  lemma EncryptionReply(maximum: usize)
    ensures EncryptionRequestBytes(maximum).Ok? <==> maximum >= 137
    ensures EncryptionRequestBytes(maximum).Ok? ==>
              ReadsAsEncryptionRequest(EncryptionRequestBytes(maximum).value, maximum)
  {
    hide FrameBytes, ParseFrame, P.Prefixed, Prefixed, P.ParseByteArray, ParseString, V.VarIntBytes;
    var key, token := Zeros(128), Zeros(4);
    assert key == seq(128, _ => 0) && token == seq(4, _ => 0);
    var payload := Prefixed([]) + (P.Prefixed(key) + P.Prefixed(token));
    RequestLengths();
    FrameAcceptance(1, payload, maximum);
    if EncryptionRequestBytes(maximum).Ok? {
      forall tail
        ensures ParseFrame(EncryptionRequestBytes(maximum).value + tail, maximum) == Complete(Frame(1, payload), tail) {
        FrameRoundTrip(1, payload, maximum, tail);
      }
      RequestRead();
    }
  }

  lemma RequestLengths()
    ensures |Prefixed([])| == 1 && |P.Prefixed(Zeros(128))| == 130 && |P.Prefixed(Zeros(4))| == 5
    ensures |V.VarIntBytes(1)| == 1
  {
  }

  lemma RequestRead()
    ensures ParsedRequest(Prefixed([]) + (P.Prefixed(Zeros(128)) + P.Prefixed(Zeros(4))))
         == Ok((([], Zeros(128), Zeros(4)), []))
  {
    hide Prefixed, P.Prefixed, P.ParseByteArray, ParseString;
    var s1 := P.Prefixed(Zeros(128)) + P.Prefixed(Zeros(4));
    EmptyAccepted();
    StringRoundTrip([], 20, s1);
    P.ByteArrayRoundTrip(Zeros(128), 512, P.Prefixed(Zeros(4)));
    P.ByteArrayRoundTrip(Zeros(4), 512, []);
    assert P.Prefixed(Zeros(4)) + [] == P.Prefixed(Zeros(4));
  }

  lemma EmptyAccepted()
    ensures StringBytes([], 20) == Ok(Prefixed([]))
  {
  }

  /** The name and 18 more bytes: the length both of the Login Start the driver encodes again and of the Login Success
      it answers with. At most 67, so a maximum of 67 admits every name. */
  predicate LoginFrameFits(start: LoginStart, maximum: usize) {
    |Prefixed(start.username)| + 18 <= maximum
  }

  /** What a login is answered with, read by the client. Every other outcome ends the run in an error. */
  ghost predicate LoginAnswered(config: Config, start: LoginStart, step: Step) {
    if !LoginFrameFits(start, config.maximum) then step.replies == [] && step.next.Stop? && step.next.end.Errored?
    else if config.online then
      if config.maximum >= 137 then
        |step.replies| == 1 && ReadsAsEncryptionRequest(step.replies[0], config.maximum)
        && step.next == Continue(LoginState)
      else step.replies == [] && step.next.Stop? && step.next.end.Errored?
    else if config.threshold < 0 then
      |step.replies| == 1 && ClientReads(config, start.username, step.replies[0])
      && step.next == Stop(EnterPlay(start.username))
    else
      && |step.replies| >= 1 && ReadsAsThreshold(config.threshold, step.replies[0], config.maximum)
      && if step.next == Stop(EnterPlay(start.username)) then
           |step.replies| == 2 && ClientReads(config, start.username, step.replies[1])
         else |step.replies| == 1 && step.next.Stop? && step.next.end.Errored?
  }

  /** Every Login Start that can be decoded is answered so. */
  lemma LoginReply(config: Config, start: LoginStart)
    requires config.zlib.Inverse() && Accepted(start.username, 16)
    ensures LoginAnswered(config, start, RouteLogin(config, start))
  {
    hide LoginStartBytes, ParseLoginStart, LoginSuccessBytes, SetCompressionBytes, Rewrap, ClientReads, Accepted,
         EncryptionRequestBytes, ReadsAsEncryptionRequest, ReadsAsThreshold, C.Zlib.Inverse, LoginFrameFits;
    LoginFits(config, start);
    if LoginFrameFits(start, config.maximum) {
      LoginReencoded(config, start);
      var success := LoginSuccessBytes(LoginSuccess(NIL_UUID, start.username, []), config.maximum).value;
      if config.online {
        EncryptionReply(config.maximum);
      } else if config.threshold < 0 {
        PlainSuccessRead(config, start.username, success);
      } else {
        ThresholdFits(config.threshold, config.maximum);
        ThresholdReply(config.threshold, config.maximum);
        if Rewrap(config, success).Ok? {
          RewrappedSuccessRead(config, start.username, success);
        }
      }
    }
  }

  lemma LoginFits(config: Config, start: LoginStart)
    requires Accepted(start.username, 16)
    ensures LoginStartBytes(start, config.maximum).Ok? <==> LoginFrameFits(start, config.maximum)
    ensures LoginSuccessBytes(LoginSuccess(NIL_UUID, start.username, []), config.maximum).Ok?
       <==> LoginFrameFits(start, config.maximum)
    ensures config.maximum >= 67 ==> LoginFrameFits(start, config.maximum)
    ensures LoginFrameFits(start, config.maximum) ==> config.maximum >= 18
  {
    hide Accepted, Prefixed, FrameBytes;
    NameShort(start.username);
    LoginStartLength(start, config.maximum);
    EmptyPropertiesLength();
    var p := LoginSuccess(NIL_UUID, start.username, []);
    FrameAcceptance(LOGIN_SUCCESS_PACKET_ID, LoginSuccessFields(p).value, config.maximum);
  }

  lemma ThresholdFits(threshold: i32, maximum: usize)
    requires maximum >= 6
    ensures SetCompressionBytes(threshold, maximum).Ok?
  {
    hide V.VarIntBytes, FrameBytes;
    ThreeOneByte();
    FrameAcceptance(3, V.VarIntBytes(threshold), maximum);
  }

  lemma ThreeOneByte()
    ensures |V.VarIntBytes(3)| == 1
  {
  }

  /** How long the Login Success packet is once it is wrapped: a data length, and the packet, compressed if it is longer
      than the threshold. */
  function WrappedLength(zlib: C.Zlib, threshold: nat, packet: Bytes): nat {
    if |packet| <= threshold then 1 + |packet| else |V.VarIntBytes(AsI32(|packet|))| + |zlib.deflate(packet)|
  }

  /** With compression on, the login enters exactly when the wrapped Login Success fits the maximum; left uncompressed,
      68 bytes suffice. */
  lemma CompressedLoginEnters(config: Config, start: LoginStart)
    requires !config.online && config.threshold >= 0 && config.maximum >= 67 && Accepted(start.username, 16)
    ensures LoginSuccessFields(LoginSuccess(NIL_UUID, start.username, [])).Ok?
    ensures var packet := V.VarIntBytes(2) + LoginSuccessFields(LoginSuccess(NIL_UUID, start.username, [])).value;
            && (RouteLogin(config, start).next == Stop(EnterPlay(start.username))
                <==> WrappedLength(config.zlib, config.threshold, packet) <= EffectiveMax(config.maximum))
            && |packet| <= 67
  {
    hide LoginStartBytes, ParseLoginStart, Accepted, FrameBytes, ParseFrame, SetCompressionBytes, V.VarIntBytes,
         LoginSuccessFields;
    SuccessLength(start.username);
    LoginFits(config, start);
    LoginReencoded(config, start);
    ThresholdFits(config.threshold, config.maximum);
    var p := LoginSuccess(NIL_UUID, start.username, []);
    var body := LoginSuccessFields(p).value;
    var success := LoginSuccessBytes(p, config.maximum).value;
    FrameRoundTrip(LOGIN_SUCCESS_PACKET_ID, body, config.maximum, []);
    assert success + [] == success;
    ZeroOneByte();
  }

  lemma SuccessLength(username: Text)
    requires Accepted(username, 16)
    ensures var fields := LoginSuccessFields(LoginSuccess(NIL_UUID, username, []));
            fields.Ok? && |V.VarIntBytes(2)| + |fields.value| <= 67
  {
    hide Accepted, Prefixed;
    NameShort(username);
    EmptyPropertiesLength();
  }

  /** A decoded Login Start carries an acceptable name. */
  lemma DecodedName(s: Bytes, maximum: usize)
    requires ParseLoginStart(s, maximum).Complete?
    ensures Accepted(ParseLoginStart(s, maximum).value.username, 16)
  {
    hide Accepted, ParseFrame, ParseLoginStartFields;
    DecodedNameShort(ParseFrame(s, maximum).value.payload);
  }

  lemma {:induction false} DrainNames(config: Config, n: nat, state: ProtocolState, buffer: Bytes)
    ensures forall e :: e in Drain(config, n, state, buffer).events && e.packet.LoginStartPacket? ==>
              Accepted(e.packet.start.username, 16)
    decreases |buffer|
  {
    hide Route, Accepted, H.ParseHandshake, ParseLoginStart, S.ParseStatusRequest, S.ParsePing;
    var decoded := TryDecode(buffer, state, config.maximum);
    if decoded.Complete? {
      if decoded.value.LoginStartPacket? {
        DecodedName(buffer, config.maximum);
      }
      var step := Route(config, n, state, decoded.value);
      if step.next.Continue? {
        DrainNames(config, n + 1, step.next.state, decoded.rest);
      }
    }
  }

  /** In every run, every Login Start is answered as `LoginAnswered` says. */
  lemma RunLogins(config: Config, chunks: seq<Chunk>)
    requires config.zlib.Inverse()
    ensures forall e :: e in Serve(config, 0, Handshaking, [], chunks).events && e.packet.LoginStartPacket? ==>
              LoginAnswered(config, e.packet.start, e.step)
  {
    hide Serve, Drain, RouteLogin, LoginAnswered, Accepted, C.Zlib.Inverse, S.StatusResponseBytes, S.PongBytes;
    RunRouted(config, chunks);
    ChunkingIrrelevant(config, 0, Handshaking, [], chunks);
    DrainNames(config, 0, Handshaking, [] + Concat(chunks));
    var run := Serve(config, 0, Handshaking, [], chunks);
    forall e | e in run.events && e.packet.LoginStartPacket? ensures LoginAnswered(config, e.packet.start, e.step) {
      var i :| 0 <= i < |run.events| && run.events[i] == e;
      assert RoutedAt(config, 0, run, i);
      LoginReply(config, e.packet.start);
    }
  }
}
