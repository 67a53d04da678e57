/** The driver itself: `handle_connection` with its state, its read buffer and the bytes it writes. */
module ConnectionDriver {
  import opened Wire
  import opened Framing
  import opened Login
  import opened Connection
  import C = Compression
  import H = Handshakes
  import K = Packets
  import S = StatusPing
  import V = VarInt
  import Text

  /** Everything written for a sequence of events, in order. */
  function Replies(events: seq<Event>): seq<Bytes> {
    if events == [] then [] else events[0].step.replies + Replies(events[1..])
  }

  lemma {:induction false} RepliesAppend(events: seq<Event>, e: Event)
    ensures Replies(events + [e]) == Replies(events) + e.step.replies
  {
    if events == [] {
      assert events + [e] == [e];
    } else {
      assert (events + [e])[1..] == events[1..] + [e];
      RepliesAppend(events[1..], e);
    }
  }

  /** One turn of the loop on a complete packet. */
  lemma ServePacket(config: Config, n: nat, state: ProtocolState, buffer: Bytes, chunks: seq<Chunk>)
    requires TryDecode(buffer, state, config.maximum).Complete?
    ensures var Complete(packet, rest) := TryDecode(buffer, state, config.maximum);
            var step := Route(config, n, state, packet);
            var event := Event(state, packet, step);
            Serve(config, n, state, buffer, chunks) == match step.next
                                                    case Stop(end) => Run([event], Finished(end, rest, chunks))
                                                    case Continue(state') =>
                                                      Prepend([event], Serve(config, n + 1, state', rest, chunks))
  {
    hide TryDecode, Route;
    var Complete(packet, rest) := TryDecode(buffer, state, config.maximum);
    var step := Route(config, n, state, packet);
    var event := Event(state, packet, step);
    if step.next.Continue? {
      var later := Drain(config, n + 1, step.next.state, rest);
      if later.progress.Waiting? && chunks != [] {
        PrependTwice([event], later.events,
                     Serve(config, n + 1 + |later.events|, later.progress.state, later.progress.buffer + chunks[0],
                           chunks[1..]));
      }
    }
  }

  /** One turn of the loop on an incomplete packet. */
  lemma ServeRead(config: Config, n: nat, state: ProtocolState, buffer: Bytes, chunks: seq<Chunk>)
    requires TryDecode(buffer, state, config.maximum).Incomplete?
    ensures Serve(config, n, state, buffer, chunks) == if chunks == [] then Run([], Waiting(state, buffer))
                                                    else Serve(config, n, state, buffer + chunks[0], chunks[1..])
  {
    hide TryDecode;
    if chunks != [] {
      var run := Serve(config, n, state, buffer + chunks[0], chunks[1..]);
      assert [] + run.events == run.events;
    }
  }

  class Driver {
    const config: Config
    var state: ProtocolState
    var readBuffer: Bytes
    var sent: seq<Bytes>
    /** How many packets have been handled; it only tells which status text is the current one. */
    var handled: nat
    ghost var events: seq<Event>

    constructor (config: Config)
      ensures this.config == config
      ensures state == Handshaking && readBuffer == [] && sent == [] && handled == 0 && events == []
    {
      this.config := config;
      state, readBuffer, sent, handled, events := Handshaking, [], [], 0, [];
    }

    /** The buffer loses a packet's bytes when the packet is complete and nothing otherwise. */
    method TryDecodePacket() returns (r: Outcome<Packet, ConnectionError>)
      modifies this`readBuffer
      ensures TransactionalFrame(TryDecode(old(readBuffer), state, config.maximum), r, old(readBuffer), readBuffer)
    {
      hide H.ParseHandshake, ParseLoginStart, S.ParseStatusRequest, S.ParsePing;
      var input := new Input(readBuffer);
      match state {
        case Handshaking =>
          var h := H.DecodeHandshake(input, config.maximum);
          if h.Err? {
            return if h.error.IncompleteHandshake? then NeedMore else Outcome.Failed(HandshakeFailed(h.error));
          }
          r := Decoded(HandshakePacket(h.value));
        case Status =>
          r := DecodeStatusPacket(input);
        case LoginState =>
          var start := DecodeLoginStart(input, config.maximum);
          match start {
            case NeedMore => return NeedMore;
            case Failed(e) =>
              return Outcome.Failed(if e.WrongPacketId? then UnexpectedPacket(state, e.received) else LoginFailed(e));
            case Decoded(p) => r := Decoded(LoginStartPacket(p));
          }
        case _ => return Outcome.Failed(UnexpectedPacket(state, -1));
      }
      if r.Decoded? {
        DecodedRest(readBuffer, state, config.maximum);
        var consumed := |readBuffer| - |input.rest|;
        readBuffer := readBuffer[consumed..];
      }
    }

    /** A status request, or, on packet id 1, a second attempt as a ping. */
    method DecodeStatusPacket(input: Input) returns (r: Outcome<Packet, ConnectionError>)
      modifies input
      ensures TransactionalFrame(TryDecode(old(input.rest), Status, config.maximum), r, old(input.rest), input.rest)
    {
      hide S.ParseStatusRequest, S.ParsePing;
      var request := S.DecodeStatusRequest(input, config.maximum);
      match request {
        case Decoded(_) => return Decoded(StatusRequest);
        case NeedMore => return NeedMore;
        case Failed(e) =>
          if !(e.WrongPacketId? && e.received == 1) {
            return Outcome.Failed(StatusFailed(e));
          }
          var ping := S.DecodePingRequest(input, config.maximum);
          match ping {
            case Decoded(payload) => return Decoded(Ping(payload));
            case NeedMore => return NeedMore;
            case Failed(e2) => return Outcome.Failed(StatusFailed(e2));
          }
      }
    }

    /** The outgoing half of the login: encode, run the state machine, wrap, write. */
    method HandleLogin(start: LoginStart) returns (next: Next)
      modifies this`sent
      ensures var step := RouteLogin(config, start); next == step.next && sent == old(sent) + step.replies
    {
      hide LoginStartBytes, ParseLoginStart, LoginSuccessBytes, EncryptionRequestBytes, SendSuccess;
      var startWire := new Output();
      var encoded := EncodeLoginStart(start, config.maximum, startWire);
      if encoded.Err? {
        return Stop(Errored(LoginFailed(encoded.error)));
      }
      assert startWire.bytes == LoginStartBytes(start, config.maximum).value;
      var input := new Input(startWire.bytes);
      var packet := DecodeLoginStart(input, config.maximum);
      if packet.Failed? {
        return Stop(Errored(LoginMachine(packet.error)));
      }
      if packet.NeedMore? {
        return Continue(LoginState);
      }
      if config.online {
        var request := EncryptionRequestBytes(config.maximum);
        if request.Err? {
          return Stop(Errored(LoginMachine(request.error)));
        }
        sent := sent + [request.value];
        return Continue(LoginState);
      }
      var outgoing := new Output();
      var success := EncodeLoginSuccess(LoginSuccess(NIL_UUID, packet.value.username, []), config.maximum, outgoing);
      if success.Err? {
        return Stop(Errored(LoginMachine(success.error)));
      }
      assert outgoing.bytes == LoginSuccessBytes(LoginSuccess(NIL_UUID, packet.value.username, []),
                                                 config.maximum).value;
      next := WriteSuccess(packet.value.username, outgoing.bytes);
    }

    method WriteSuccess(username: Text.Text, outgoing: Bytes) returns (next: Next)
      modifies this`sent
      ensures var step := SendSuccess(config, username, outgoing);
              next == step.next && sent == old(sent) + step.replies
    {
      hide FrameBytes, ParseFrame, C.CompressedFrameBytes;
      if config.threshold < 0 {
        sent := sent + [outgoing];
        return Stop(EnterPlay(username));
      }
      var threshold := new Output();
      V.EncodeVarInt(config.threshold, threshold);
      assert threshold.bytes == V.VarIntBytes(config.threshold);
      var compWire := new Output();
      var comp := EncodeFrame(SET_COMPRESSION_PACKET_ID, threshold.bytes, config.maximum, compWire);
      if comp.Err? {
        return Stop(Errored(CompressionFailed(C.FromFraming(comp.error))));
      }
      assert compWire.bytes == SetCompressionBytes(config.threshold, config.maximum).value;
      sent := sent + [compWire.bytes];
      var frameInput := new Input(outgoing);
      var frame := DecodeFrame(frameInput, config.maximum);
      if frame.Failed? {
        return Stop(Errored(FramingFailed(frame.error)));
      }
      if frame.NeedMore? {
        return Stop(Errored(FramingFailed(ZeroFrameLength)));
      }
      var compressed := new Output();
      var wrapped := C.EncodeCompressedFrame(config.zlib, frame.value.packetId, frame.value.payload, config.threshold,
                                             config.maximum, compressed);
      if wrapped.Err? {
        return Stop(Errored(CompressionFailed(wrapped.error)));
      }
      assert compressed.bytes == Rewrap(config, outgoing).value;
      sent := sent + [compressed.bytes];
      return Stop(EnterPlay(username));
    }

    method HandleStatusPacket(packet: Packet) returns (next: Next)
      modifies this`sent
      ensures var step := Route(config, handled, Status, packet); next == step.next && sent == old(sent) + step.replies
    {
      hide S.StatusResponseBytes, S.PongBytes;
      match packet {
        case StatusRequest =>
          var wire := new Output();
          var reply := S.EncodeStatusResponse(config.statusJson(handled), config.maximum, wire);
          if reply.Err? {
            return Stop(Errored(StatusFailed(reply.error)));
          }
          assert wire.bytes == S.StatusResponseBytes(config.statusJson(handled), config.maximum).value;
          sent := sent + [wire.bytes];
          return Continue(Status);
        case Ping(payload) =>
          var wire := new Output();
          var reply := S.EncodePongResponse(payload, config.maximum, wire);
          if reply.Err? {
            return Stop(Errored(StatusFailed(reply.error)));
          }
          assert wire.bytes == S.PongBytes(payload, config.maximum).value;
          sent := sent + [wire.bytes];
          return Stop(ServerClosed);
        case _ => return Stop(Errored(UnexpectedPacket(Status, -1)));
      }
    }

    method HandlePacket(packet: Packet) returns (next: Next)
      modifies this`sent
      ensures var step := Route(config, handled, state, packet); next == step.next && sent == old(sent) + step.replies
    {
      hide RouteLogin, S.StatusResponseBytes, S.PongBytes;
      match state {
        case Handshaking =>
          if packet.HandshakePacket? {
            return Continue(if packet.handshake.next.ToStatus? then Status else LoginState);
          }
          return Stop(Errored(UnexpectedPacket(state, -1)));
        case Status => next := HandleStatusPacket(packet);
        case LoginState =>
          if packet.LoginStartPacket? {
            next := HandleLogin(packet.start);
          } else {
            return Stop(Errored(UnexpectedPacket(LoginState, -1)));
          }
        case _ => return Stop(ServerClosed);
      }
    }

    /** The main loop over the reads the socket delivers; `None` is the disconnect at the end of the stream. */
    method HandleConnection(chunks: seq<Chunk>) returns (end: Option<End>)
      requires state == Handshaking && readBuffer == [] && sent == [] && handled == 0 && events == []
      modifies this
      ensures var run := Serve(config, 0, Handshaking, [], chunks);
              && events == run.events && sent == Replies(run.events)
              && match run.progress
                 case Waiting(state', rest) => end == None && state == state' && readBuffer == rest
                 case Finished(e, leftover, _) => end == Some(e) && readBuffer == leftover
    {
      hide TryDecode, Route, Serve;
      var next := 0;
      ghost var whole := Serve(config, 0, Handshaking, [], chunks);
      assert chunks[0..] == chunks && [] + whole.events == whole.events;
      while true
        invariant 0 <= next <= |chunks|
        invariant sent == Replies(events)
        invariant Prepend(events, Serve(config, handled, state, readBuffer, chunks[next..])) == whole
        decreases |chunks| - next, |readBuffer|
      {
        ghost var before := readBuffer;
        var decoded := TryDecodePacket();
        match decoded {
          case Decoded(packet) =>
            ServePacket(config, handled, state, before, chunks[next..]);
            var outcome := HandlePacket(packet);
            ghost var event := Event(state, packet, Route(config, handled, state, packet));
            RepliesAppend(events, event);
            if outcome.Stop? {
              events := events + [event];
              return Some(outcome.end);
            }
            PrependTwice(events, [event], Serve(config, handled + 1, outcome.state, readBuffer, chunks[next..]));
            events := events + [event];
            state := outcome.state;
            handled := handled + 1;
          case NeedMore =>
            ServeRead(config, handled, state, readBuffer, chunks[next..]);
            if next == |chunks| {
              assert events + [] == events;
              return None;
            }
            assert chunks[next..][1..] == chunks[next + 1..];
            readBuffer := readBuffer + chunks[next];
            next := next + 1;
          case Failed(e) =>
            ServeFailed(config, handled, state, readBuffer, chunks[next..]);
            assert events + [] == events;
            return Some(Errored(e));
        }
      }
    }
  }

  lemma ServeFailed(config: Config, n: nat, state: ProtocolState, buffer: Bytes, chunks: seq<Chunk>)
    requires TryDecode(buffer, state, config.maximum).Malformed?
    ensures Serve(config, n, state, buffer, chunks)
         == Run([], Finished(Errored(TryDecode(buffer, state, config.maximum).error), buffer, chunks))
  {
    hide TryDecode;
  }
}
