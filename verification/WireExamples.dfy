/** One example of each packet, byte by byte. The round trips would not notice two fields that change places in the
    encoder and the decoder alike; these do. */
module WireExamples {
  import opened Wire
  import opened VarInt
  import opened Framing
  import opened Lists
  import opened Slots
  import opened Text
  import B = Chunks
  import C = Containers
  import H = Handshakes
  import J = JoinGames
  import K = Packets
  import L = Login
  import P = Primitives
  import Z = Compression

  lemma {:induction false} SmallWord(n: byte, width: nat)
    requires width > 0
    ensures n < Pow256(width) && BigEndian(n, width) == seq(width - 1, _ => 0) + [n]
  {
    if width > 1 {
      SmallWord(0, width - 1);
      assert BigEndian(0, width - 1) + [n] == seq(width - 1, _ => 0) + [n];
      assert Pow256(width) == 256 * Pow256(width - 1);
    }
  }

  /** Numbers below 128 on the wire, by their type. */
  lemma Small(n: byte)
    requires n < 128
    ensures VarIntBytes(n) == [n]
    ensures I8(n) == [n] && U16(n) == [0, n] && I16(n) == [0, n]
    ensures I32(n) == [0, 0, 0, n] && I64(n) == [0, 0, 0, 0, 0, 0, 0, n]
  {
    Widths();
    SmallWord(n, 2);
    SmallWord(n, 4);
    SmallWord(n, 8);
  }

  lemma Letter(c: byte)
    requires c < 128
    ensures Prefixed([c]) == [1, c]
    ensures forall n: usize :: n >= 1 ==> Accepted([c], n)
  {
    Small(1);
    assert Utf8([c]) == [c] + Utf8([]) && Utf16Units([c]) == 1 + Utf16Units([]);
    assert Utf8([c]) == [c] && Utf16Units([c]) == 1;
  }

  /** One scalar of each UTF-8 length, with its UTF-16 units. */
  lemma TextExamples()
    ensures Utf8([0x61]) == [0x61] && Utf16([0x61]) == [0x61]
    ensures Utf8([0xE9]) == [0xC3, 0xA9] && Utf16([0xE9]) == [0xE9]
    ensures Utf8([0x20AC]) == [0xE2, 0x82, 0xAC] && Utf16([0x20AC]) == [0x20AC]
    ensures Utf8([0x1F600]) == [0xF0, 0x9F, 0x98, 0x80] && Utf16([0x1F600]) == [0xD83D, 0xDE00]
  {
    assert Utf8([]) == [] && Utf16([]) == [];
    assert Utf8([0x61]) == ScalarUtf8(0x61) + [] && Utf8([0xE9]) == ScalarUtf8(0xE9) + [];
    assert Utf8([0x20AC]) == ScalarUtf8(0x20AC) + [] && Utf8([0x1F600]) == ScalarUtf8(0x1F600) + [];
  }

  /** A frame of fewer than 128 bytes, with a packet id below 128. */
  lemma ShortFrame(id: byte, payload: Bytes, maximum: usize)
    requires id < 128 && |payload| <= 126 && maximum >= 127
    ensures FrameBytes(id, payload, maximum) == Ok([1 + |payload|, id] + payload)
  {
    hide VarIntBytes;
    Small(id);
    Small(1 + |payload|);
    assert [1 + |payload|] + [id] + payload == [1 + |payload|, id] + payload;
  }

  /** Two bytes of packet id, as in the published example. */
  lemma FrameExample()
    ensures FrameBytes(300, [0xAA], 3) == Ok([3, 0xAC, 2, 0xAA])
    ensures FrameBytes(0, [], 1) == Ok([1, 0])
  {
    hide FrameBytes, VarIntBytes, I8, I16, U16, I32, I64;
    TwoByteId();
    Small(3);
    FrameAcceptance(300, [0xAA], 3);
    FrameAcceptance(0, [], 1);
    Small(0);
    Small(1);
    FrameIs(300, [0xAA], 3);
    FrameIs(0, [], 1);
    assert FrameBytes(300, [0xAA], 3).value == [3, 0xAC, 2, 0xAA];
    assert FrameBytes(0, [], 1).value == [1, 0];
  }

  lemma FrameIs(id: i32, payload: Bytes, maximum: usize)
    requires FrameBytes(id, payload, maximum).Ok?
    ensures |VarIntBytes(id)| + |payload| <= I32_MAX
    ensures FrameBytes(id, payload, maximum).value
         == VarIntBytes(|VarIntBytes(id)| + |payload|) + VarIntBytes(id) + payload
  {
    hide VarIntBytes;
  }

  lemma TwoByteId()
    ensures VarIntBytes(300) == [0xAC, 2]
  {
    MoreGroups(2, 0x2C);
    SmallGroups();
  }

  lemma PositionExample()
    ensures P.PositionBytes(P.Position(1, 2, 3)) == [0, 0, 0, 0x40, 0, 0, 0x30, 2]
    ensures P.ParsePosition([0, 0, 0, 0x40, 0, 0, 0x30, 2]) == Ok((P.Position(1, 2, 3), []))
  {
    hide BigEndian, Pow256;
    Widths();
    SmallWordAtFour();
    assert P.PackedWord(P.Position(1, 2, 3)) == 0x40_0000_3002;
    var b := P.PositionBytes(P.Position(1, 2, 3));
    P.PositionRoundTrip(P.Position(1, 2, 3), []);
    assert b + [] == b;
  }

  lemma SmallWordAtFour()
    ensures Pow256(8) == TWO_64 && BigEndian(0x40_0000_3002, 8) == [0, 0, 0, 0x40, 0, 0, 0x30, 2]
  {
    hide BigEndian, Pow256;
    Widths();
    SmallWordHidden(0x40, 4);
    OneMore(0x40, 4, 0);
    OneMore(0x4000, 5, 0);
    OneMore(0x40_0000, 6, 0x30);
    OneMore(0x4000_0030, 7, 2);
  }

  lemma SmallWordHidden(n: byte, width: nat)
    requires width == 4
    ensures n < Pow256(width) && BigEndian(n, width) == [0, 0, 0, n]
  {
    SmallWord(n, width);
  }

  lemma UuidExample()
    ensures P.UuidBytes(P.Uuid(1, 2)) == [0, 0, 0, 0, 0, 0, 0, 1, 0, 0, 0, 0, 0, 0, 0, 2]
  {
    Small(1);
    Small(2);
  }

  /** Above the threshold the data length comes first, below it a zero. */
  lemma CompressionExample(zlib: Z.Zlib)
    ensures Z.CompressedBody(zlib, 7, [8], 2) == [0, 7, 8]
    ensures Z.CompressedBody(zlib, 7, [8], 1) == [2] + zlib.deflate([7, 8])
  {
    hide VarIntBytes;
    Small(0);
    Small(2);
    Small(7);
    assert [7] + [8] == [7, 8];
  }

  const STONE: Slot := Slot(true, 1, 2, [])

  const TAGGED: Slot := Slot(true, 3, 4, [10, 0, 0, 0])

  lemma SlotExamples()
    ensures SlotBytes(EMPTY_SLOT) == [0] && SlotBytes(STONE) == [1, 1, 2, 0]
    ensures SlotBytes(TAGGED) == [1, 3, 4, 10, 0, 0, 0]
  {
    hide VarIntBytes, I8, SlotBytes;
    PlainSlot();
    TaggedSlot();
  }

  lemma PlainSlot()
    ensures SlotBytes(EMPTY_SLOT) == [0] && SlotBytes(STONE) == [1, 1, 2, 0]
  {
    hide VarIntBytes, I8;
    Small(1);
    Small(2);
  }

  lemma TaggedSlot()
    ensures SlotBytes(TAGGED) == [1, 3, 4, 10, 0, 0, 0]
  {
    hide VarIntBytes, I8, I16, U16, I32, I64;
    Small(3);
    Small(4);
  }

  lemma HandshakeExample()
    ensures var h := H.Handshake(5, [0x61], 7, H.ToLogin);
            H.HandshakeBytes(h, 127) == Ok([7, 0, 5, 1, 0x61, 0, 7, 2])
    ensures H.WireValue(H.ToStatus) == 1
  {
    hide VarIntBytes, Prefixed, Accepted, U16, FrameBytes;
    Small(2);
    Small(5);
    Small(7);
    Letter(0x61);
    assert H.Fields(H.Handshake(5, [0x61], 7, H.ToLogin)) == [5, 1, 0x61, 0, 7, 2];
    ShortFrame(0, [5, 1, 0x61, 0, 7, 2], 127);
    assert [7, 0] + [5, 1, 0x61, 0, 7, 2] == [7, 0, 5, 1, 0x61, 0, 7, 2];
  }

  lemma LoginStartExample()
    ensures L.LoginStartBytes(L.LoginStart([0x61], P.Uuid(1, 2)), 127)
         == Ok([20, 0, 1, 0x61, 1, 0, 0, 0, 0, 0, 0, 0, 1, 0, 0, 0, 0, 0, 0, 0, 2])
  {
    hide Prefixed, Accepted, P.UuidBytes, FrameBytes;
    Letter(0x61);
    UuidExample();
    var fields := [1, 0x61, 1, 0, 0, 0, 0, 0, 0, 0, 1, 0, 0, 0, 0, 0, 0, 0, 2];
    assert L.LoginStartFields(L.LoginStart([0x61], P.Uuid(1, 2))).value == fields;
    ShortFrame(0, fields, 127);
    assert [20, 0] + fields == [20, 0, 1, 0x61, 1, 0, 0, 0, 0, 0, 0, 0, 1, 0, 0, 0, 0, 0, 0, 0, 2];
  }

  const SIGNED: L.Property := L.Property([0x6E], [0x76], Some([0x73]))
  const PLAIN: L.Property := L.Property([0x6D], [0x77], None)

  /** One property "n" with value "v" and signature "s", and one "m" with value "w" and none. */
  lemma LoginSuccessExample()
    ensures L.LoginSuccessFields(L.LoginSuccess(P.Uuid(1, 2), [0x61], [SIGNED, PLAIN]))
         == Ok([0, 0, 0, 0, 0, 0, 0, 1, 0, 0, 0, 0, 0, 0, 0, 2, 1, 0x61, 2]
               + ([1, 0x6E, 1, 0x76, 1, 1, 0x73] + [1, 0x6D, 1, 0x77, 0]))
  {
    hide Prefixed, Accepted, P.UuidBytes, VarIntBytes, L.PropertyBytes, Many;
    UuidExample();
    Letter(0x61);
    PropertyExamples();
    Small(2);
    TwoItems(L.PropertyBytes, SIGNED, PLAIN);
    var p := L.LoginSuccess(P.Uuid(1, 2), [0x61], [SIGNED, PLAIN]);
    assert L.Encodable(p);
    assert L.LoginSuccessFields(p).value
        == [0, 0, 0, 0, 0, 0, 0, 1, 0, 0, 0, 0, 0, 0, 0, 2, 1, 0x61, 2]
           + ([1, 0x6E, 1, 0x76, 1, 1, 0x73] + [1, 0x6D, 1, 0x77, 0]);
  }

  lemma PropertyExamples()
    ensures L.PropertyFits(SIGNED) && L.PropertyBytes(SIGNED) == [1, 0x6E, 1, 0x76, 1, 1, 0x73]
    ensures L.PropertyFits(PLAIN) && L.PropertyBytes(PLAIN) == [1, 0x6D, 1, 0x77, 0]
  {
    hide Prefixed, Accepted;
    Letter(0x6E);
    Letter(0x76);
    Letter(0x73);
    Letter(0x6D);
    Letter(0x77);
  }

  lemma TwoItems<T>(enc: T -> Bytes, a: T, b: T)
    ensures Many(enc, [a, b]) == enc(a) + enc(b)
  {
    OneItem(enc, b);
    assert [a, b][1..] == [b];
  }

  lemma OneItem<T>(enc: T -> Bytes, a: T)
    ensures Many(enc, [a]) == enc(a)
  {
    assert [a][1..] == [];
    assert Many(enc, [a]) == enc(a) + [];
  }

  lemma ContentExample()
    ensures var fields := C.ContentFields(C.Content(3, 4, [STONE, EMPTY_SLOT], TAGGED));
            fields.Ok? && fields.value == [3, 4, 2] + ([1, 1, 2, 0] + [0] + [1, 3, 4, 10, 0, 0, 0])
  {
    hide VarIntBytes, SlotBytes, Many, I8, I16, U16, I32, I64;
    Small(2);
    Small(4);
    SlotExamples();
    TwoItems(SlotBytes, STONE, EMPTY_SLOT);
  }

  const CHANGES: seq<C.Change> := [C.Change(8, STONE), C.Change(9, EMPTY_SLOT)]

  lemma ClickExample()
    ensures C.ClickFields(C.Click(3, 4, 5, 6, 7, CHANGES, EMPTY_SLOT))
         == [3, 4] + ([0, 5] + ([6, 7, 2] + ([0, 8, 1, 1, 2, 0] + [0, 9, 0] + [0])))
  {
    hide VarIntBytes, SlotBytes, I16, I8, U16, I32, I64, Many, C.ChangeBytes, C.ClickTail;
    Small(4);
    Small(5);
    Small(6);
    ClickTailExample();
  }

  lemma ClickTailExample()
    ensures C.ClickTail(C.Click(3, 4, 5, 6, 7, CHANGES, EMPTY_SLOT))
         == [7, 2] + ([0, 8, 1, 1, 2, 0] + [0, 9, 0] + [0])
  {
    hide VarIntBytes, SlotBytes, I8, I16, U16, I32, I64, Many, C.ChangeBytes;
    Small(2);
    Small(7);
    SlotExamples();
    ChangeExamples();
    TwoItems(C.ChangeBytes, CHANGES[0], CHANGES[1]);
    assert CHANGES == [CHANGES[0], CHANGES[1]];
  }

  lemma ChangeExamples()
    ensures C.ChangeBytes(CHANGES[0]) == [0, 8, 1, 1, 2, 0] && C.ChangeBytes(CHANGES[1]) == [0, 9, 0]
  {
    hide SlotBytes, I16;
    Small(8);
    Small(9);
    SlotExamples();
  }

  lemma ChunkExample()
    ensures var fields := B.ChunkFields(B.ChunkData(1, 2, [10, 0, 0, 0], [7, 8], [[9]], [5, 6]));
            fields.Ok? && fields.value == [0, 0, 0, 1, 0, 0, 0, 2] + ([10, 0, 0, 0] + ([2, 7, 8, 1, 1, 9] + [5, 6]))
  {
    hide VarIntBytes, I32, I8, I16, U16, I64, Many;
    Small(1);
    Small(2);
    OneItem(P.Prefixed, [9]);
    assert P.Prefixed([9]) == [1, 9] && P.Prefixed([7, 8]) == [2, 7, 8];
  }

  // Join Game, section by section: no two neighbours alike.

  lemma PlayerExample()
    ensures J.PlayerBytes(J.Player(1, true, J.Creative, Some(J.Adventure))) == [0, 0, 0, 1, 1, 1, 2]
    ensures J.PlayerBytes(J.Player(2, false, J.Spectator, None)) == [0, 0, 0, 2, 0, 3, 0xFF]
    ensures J.ToWire(J.Survival) == 0
  {
    hide I32;
    Small(1);
    Small(2);
  }

  lemma WorldsExample()
    ensures J.WorldsBytes(J.Worlds([[0x61], [0x62]], [10, 0, 0, 0], [0x63], [0x64]))
         == [2, 1, 0x61, 1, 0x62, 10, 0, 0, 0, 1, 0x63, 1, 0x64]
  {
    hide Prefixed, VarIntBytes, Many;
    Small(2);
    Letter(0x61);
    Letter(0x62);
    Letter(0x63);
    Letter(0x64);
    TwoItems(Prefixed, [0x61], [0x62]);
  }

  lemma RulesExample()
    ensures J.RulesBytes(J.Rules(2, 3, 4, 5, true, false, true, false))
         == [0, 0, 0, 0, 0, 0, 0, 2] + ([3, 4, 5] + [1, 0, 1, 0])
    ensures J.RulesBytes(J.Rules(2, 3, 4, 5, false, false, true, true))
         == [0, 0, 0, 0, 0, 0, 0, 2] + ([3, 4, 5] + [0, 0, 1, 1])
  {
    hide VarIntBytes, I64;
    Small(2);
    Small(3);
    Small(4);
    Small(5);
  }

  lemma DeathExample()
    ensures J.DeathBytes(J.Death(true, [0x65], P.Position(1, 2, 3)))
         == [1, 1, 0x65] + [0, 0, 0, 0x40, 0, 0, 0x30, 2]
    ensures J.DeathBytes(J.Death(false, [], P.Position(0, 0, 0))) == [0]
  {
    hide Prefixed, P.PositionBytes;
    Letter(0x65);
    PositionExample();
  }

  /** The sections come in this order, and the portal cooldown last. */
  lemma JoinGameOrder(p: J.JoinGame)
    requires J.JoinGameFields(p).Ok? && p.portalCooldown == 6
    ensures J.JoinGameFields(p).value
         == J.PlayerBytes(p.player) + J.WorldsBytes(p.worlds) + J.RulesBytes(p.rules) + J.DeathBytes(p.death) + [6]
  {
    hide J.PlayerBytes, J.WorldsBytes, J.RulesBytes, J.DeathBytes, VarIntBytes;
    Small(6);
  }
}
