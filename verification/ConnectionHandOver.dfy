/** The hand-over from the login to the play loop, which starts with a read buffer of its own. */
module ConnectionHandOver {
  import opened Wire
  import opened Framing
  import opened Text
  import opened Login
  import opened Connection
  import H = Handshakes
  import K = Packets
  import S = StatusPing

  // ---------------------------------------------------------------------------
  // What a run consumes
  // ---------------------------------------------------------------------------

  /** The whole stream, handed over at once, logs in. */
  ghost predicate LogsIn(config: Config, stream: Bytes) {
    var progress := Drain(config, 0, Handshaking, stream).progress;
    progress.Finished? && progress.end.EnterPlay?
  }

  /** How many bytes of a stream that logs in the driver decodes before the play loop takes over. */
  function Consumed(config: Config, stream: Bytes): int
    requires Drain(config, 0, Handshaking, stream).progress.Finished?
  {
    |stream| - |Drain(config, 0, Handshaking, stream).progress.leftover|
  }

  /** Cut inside a packet: incomplete. Cut behind it: the same packet. */
  lemma DecodeCut(s: Bytes, state: ProtocolState, maximum: usize, k: nat)
    requires TryDecode(s, state, maximum).Complete? && k <= |s|
    ensures var used := |s| - |TryDecode(s, state, maximum).rest|;
            TryDecode(s[..k], state, maximum) ==
            if k < used then Incomplete else Complete(TryDecode(s, state, maximum).value, s[used..k])
  {
    hide ParseFrame, H.ParseBody, S.ParsePingBody, ParseLoginStartFields;
    FrameCut(s, maximum, k);
  }

  /** The bytes that were decoded finish the run on their own, with nothing left over. */
  lemma {:induction false} DrainExact(config: Config, n: nat, state: ProtocolState, s: Bytes)
    requires var progress := Drain(config, n, state, s).progress; progress.Finished? && progress.end.EnterPlay?
    ensures var Finished(end, leftover, _) := Drain(config, n, state, s).progress;
            && |leftover| <= |s|
            && Drain(config, n, state, s[..|s| - |leftover|]).progress == Finished(end, [], [])
    decreases |s|
  {
    hide TryDecode, Route;
    var Complete(packet, rest) := TryDecode(s, state, config.maximum);
    var leftover := Drain(config, n, state, s).progress.leftover;
    var used := |s| - |rest|;
    var step := Route(config, n, state, packet);
    DecodedRest(s, state, config.maximum);
    if step.next.Continue? {
      DrainExact(config, n + 1, step.next.state, rest);
    }
    var k := |s| - |leftover|;
    DecodeCut(s, state, config.maximum, k);
    assert s[used..k] == rest[..|rest| - |leftover|];
  }

  // ---------------------------------------------------------------------------
  // How many reads a run makes
  // ---------------------------------------------------------------------------

  /** A run that is over makes no use of further reads. */
  lemma {:induction false} ServePrefix(config: Config, n: nat, state: ProtocolState, buffer: Bytes, a: seq<Chunk>,
                                       b: seq<Chunk>)
    requires Serve(config, n, state, buffer, a).progress.Finished?
    ensures var Finished(end, leftover, unread) := Serve(config, n, state, buffer, a).progress;
            Serve(config, n, state, buffer, a + b).progress == Finished(end, leftover, unread + b)
    decreases |a|
  {
    hide Drain;
    var run := Drain(config, n, state, buffer);
    if run.progress.Waiting? {
      assert (a + b)[0] == a[0] && (a + b)[1..] == a[1..] + b;
      ServePrefix(config, n + |run.events|, run.progress.state, run.progress.buffer + a[0], a[1..], b);
    }
  }

  /** The reads that were not made are the last ones. */
  lemma {:induction false} UnreadAreLast(config: Config, n: nat, state: ProtocolState, buffer: Bytes,
                                         chunks: seq<Chunk>)
    requires Serve(config, n, state, buffer, chunks).progress.Finished?
    ensures var unread := Serve(config, n, state, buffer, chunks).progress.unread;
            |unread| <= |chunks| && chunks == chunks[..|chunks| - |unread|] + unread
    decreases |chunks|
  {
    hide Drain;
    var run := Drain(config, n, state, buffer);
    if run.progress.Waiting? {
      UnreadAreLast(config, n + |run.events|, run.progress.state, run.progress.buffer + chunks[0], chunks[1..]);
    }
  }

  lemma {:induction false} ConcatSplit(a: seq<Bytes>, b: seq<Bytes>)
    ensures Concat(a + b) == Concat(a) + Concat(b)
  {
    if a == [] {
      assert a + b == b;
    } else {
      assert (a + b)[1..] == a[1..] + b;
      ConcatSplit(a[1..], b);
    }
  }

  // ---------------------------------------------------------------------------
  // The bytes that are lost
  // ---------------------------------------------------------------------------

  /** The first `k` reads bring the stream to the point where the login is complete, and not beyond it. */
  predicate BoundaryAt(chunks: seq<Chunk>, consumed: int, k: nat) {
    k <= |chunks| && |Concat(chunks[..k])| == consumed
  }

  /** Every way of splitting a stream that logs in logs in, and the play loop misses what is left in the buffer. That is
      nothing exactly when one of the reads ends where the login ends. */
  lemma HandOver(config: Config, chunks: seq<Chunk>)
    requires LogsIn(config, Concat(chunks))
    ensures var progress := Serve(config, 0, Handshaking, [], chunks).progress;
            && progress.Finished? && progress.end == Drain(config, 0, Handshaking, Concat(chunks)).progress.end
            && (progress.leftover == [] <==> exists k :: BoundaryAt(chunks, Consumed(config, Concat(chunks)), k))
  {
    hide Drain, Serve;
    var stream := Concat(chunks);
    assert [] + stream == stream;
    ChunkingIrrelevant(config, 0, Handshaking, [], chunks);
    var Finished(_, leftover, unread) := Serve(config, 0, Handshaking, [], chunks).progress;
    var consumed := Consumed(config, stream);
    assert |leftover| + |Concat(unread)| == |stream| - consumed;
    if leftover == [] {
      UnreadAreLast(config, 0, Handshaking, [], chunks);
      var k := |chunks| - |unread|;
      ConcatSplit(chunks[..k], unread);
      assert BoundaryAt(chunks, consumed, k);
    }
    if k :| BoundaryAt(chunks, consumed, k) {
      BoundaryKeepsAll(config, chunks, k);
    }
  }

  /** With such a boundary the reads up to it already end the run, so nothing beyond it can be in the buffer. */
  lemma BoundaryKeepsAll(config: Config, chunks: seq<Chunk>, k: nat)
    requires LogsIn(config, Concat(chunks)) && BoundaryAt(chunks, Consumed(config, Concat(chunks)), k)
    ensures var progress := Serve(config, 0, Handshaking, [], chunks).progress;
            progress.Finished? && progress.leftover == []
  {
    hide Drain, Serve;
    var stream, first, others := Concat(chunks), chunks[..k], chunks[k..];
    assert chunks == first + others;
    ConcatSplit(first, others);
    DrainExact(config, 0, Handshaking, stream);
    assert stream[..|Concat(first)|] == Concat(first);
    assert [] + Concat(first) == Concat(first);
    ChunkingIrrelevant(config, 0, Handshaking, [], first);
    ServePrefix(config, 0, Handshaking, [], first, others);
  }

  /** One stream, two splits: sent in one read, everything the client wrote after its Login Start is lost; with a read
      boundary after the Login Start, none of it is. */
  lemma CoalescedBytesLost(config: Config, h: H.Handshake, start: LoginStart, extra: Chunk)
    requires H.HandshakeBytes(h, config.maximum).Ok? && h.next.ToLogin?
    requires LoginStartBytes(start, config.maximum).Ok?
    requires RouteLogin(config, start).next == Stop(EnterPlay(start.username))
    ensures var login: Chunk := LoginStream(config, h, start);
            && Serve(config, 0, Handshaking, [], [login + extra]).progress
               == Finished(EnterPlay(start.username), extra, [])
            && Serve(config, 0, Handshaking, [], [login, extra]).progress
               == Finished(EnterPlay(start.username), [], [extra])
  {
    hide H.HandshakeBytes, LoginStartBytes, RouteLogin, Serve, Drain, LoginStream;
    var login: Chunk := LoginStream(config, h, start);
    LoginDrained(config, h, start, extra);
    LoginDrained(config, h, start, []);
    assert login + [] == login;
    NothingDrained(config);
    ServeOnce(config, login + extra, []);
    ServeOnce(config, login, [extra]);
    assert [login + extra] + [] == [login + extra];
    assert [login] + [extra] == [login, extra];
  }

  /** A handshake and the Login Start behind it. */
  function LoginStream(config: Config, h: H.Handshake, start: LoginStart): (b: Bytes)
    requires H.HandshakeBytes(h, config.maximum).Ok? && LoginStartBytes(start, config.maximum).Ok?
    ensures b != []
  {
    H.HandshakeRoundTrip(h, config.maximum, []);
    H.HandshakeBytes(h, config.maximum).value + LoginStartBytes(start, config.maximum).value
  }

  lemma LoginDrained(config: Config, h: H.Handshake, start: LoginStart, extra: Bytes)
    requires H.HandshakeBytes(h, config.maximum).Ok? && h.next.ToLogin?
    requires LoginStartBytes(start, config.maximum).Ok?
    requires RouteLogin(config, start).next == Stop(EnterPlay(start.username))
    ensures Drain(config, 0, Handshaking, LoginStream(config, h, start) + extra).progress
         == Finished(EnterPlay(start.username), extra, [])
  {
    hide H.HandshakeBytes, H.ParseHandshake, LoginStartBytes, ParseLoginStart, RouteLogin;
    var first, second := H.HandshakeBytes(h, config.maximum).value, LoginStartBytes(start, config.maximum).value;
    assert first + second + extra == first + (second + extra);
    H.HandshakeRoundTrip(h, config.maximum, second + extra);
    LoginStartRoundTrip(start, config.maximum, extra);
    assert TryDecode(second + extra, LoginState, config.maximum) == Complete(LoginStartPacket(start), extra);
  }

  lemma NothingDrained(config: Config)
    ensures Drain(config, 0, Handshaking, []) == Run([], Waiting(Handshaking, []))
  {
  }

  /** The first read alone decides a run that finishes within it. */
  lemma ServeOnce(config: Config, first: Chunk, others: seq<Chunk>)
    requires Drain(config, 0, Handshaking, []) == Run([], Waiting(Handshaking, []))
    requires Drain(config, 0, Handshaking, first).progress.Finished?
    ensures Serve(config, 0, Handshaking, [], [first] + others).progress
         == Drain(config, 0, Handshaking, first).progress.(unread := others)
  {
    hide Drain;
    assert ([first] + others)[1..] == others;
    assert [] + first == first;
  }
}
