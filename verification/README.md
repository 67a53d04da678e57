# Rustbound in Dafny

A model of the byte-level core of Rustbound, a Minecraft 1.20.1 server: the wire codecs, the connection driver up to the
hand-over to the play loop, the movement resolver and the save files. Each operation has a specification on byte
sequences (`XBytes` for what an encoder appends, `ParseX` for what a decoder does) and, where the program changes state
step by step, a method on mutable cursors (`Wire.Input`, `Wire.Output`, `NbtWalkers.Cursor`, `ConnectionDriver.Driver`)
proved equal to it. The theorems are about the specifications.

| files | subject |
|---|---|
| `Wire`, `VarInt`, `Text`, `Primitives` | bytes, two's complement, VarInt and VarLong, UTF-8 strings, UUIDs, byte arrays, packed positions |
| `Framing`, `Compression`, `Packets` | frames, raw frames, compressed frames, the shape every packet decoder shares |
| `NbtData`, `Nbt`, `NbtWalkers`, `NbtTrees`, `NbtWrapping` | NBT trees and their bytes from the format alone, the skipper as a function, as the three walkers of the program, against the trees, and without overflow checks |
| `Slots`, `Containers`, `Chunks`, `JoinGames` | the play packets that carry slots, NBT and counted lists |
| `Login`, `Handshakes`, `StatusPing` | the packets before the play state |
| `Connection`, `ConnectionRuns`, `ConnectionReplies`, `ConnectionHandOver`, `ConnectionDriver` | runs of the driver, what every run keeps, what the client reads, what the play loop misses, the driver as a class |
| `Reencoding`, `WireExamples` | decoded packets are encoded again; one example of each packet, byte by byte |
| `Collision` | movement against solid blocks |
| `Lists`, `SaveBytes`, `ChestFile`, `ChestWindow`, `PlayerFile`, `OverrideFile` | counted records, chests, players, block overrides |

Conventions. Integers have the widths of the program; wrapping, sign extension, truncation and saturation are written
out. Arithmetic on `usize` that would overflow is the outcome `Aborted`, as in a build with overflow checks;
`NbtWrapping` is the build without. zlib is a pair of functions of which only
`inflate(deflate(b)) == b` is assumed, where a theorem says so. A map is written in any order its iteration may yield
(`Lists.Enumerates`). A distance in `Collision` is an integer number of 1e-4 blocks; every constant of the resolver is a
multiple of that, and the world is an arbitrary function from coordinates to block states.

## Where the code does not do what its documentation or its other half says

The model follows the code. A promise that fails comes with the exact condition under which it holds and with an input
for which it does not.

- The NBT skipper passes over only the 4-byte prefix of a byte array (tag 0x07), so a compound with a non-empty one is
  in general misread: `NbtTrees.ByteArraysBreakDelimiting`, `NbtTrees.ByteArrayReadShort`; `NbtTrees.ByteArrayReadWhole`
  is one that is not. Its tag 0x0D is not an NBT tag.
- A list with a negative count is empty; an int, long or 0x0D array with a negative length overflows `usize`. Release
  builds do not check for that, wrap, and can walk in a circle: `NbtWrapping.BuildsAgree`, `NbtWrapping.EndlessLoop`.
- `parse_nbt_payload` differs from "tag, name, payload" on TAG_End and on unknown tags without a whole name:
  `Nbt.NamedWalkerAgrees`, `Nbt.NamedWalkerDiffers`.
- The primitives are documented as transactional. `decode_byte_array` leaves a negative length consumed
  (`Primitives.ByteArrayRestored`, `Primitives.NegativeLengthLost`), `decode_raw_frame` leaves a refused length consumed
  (`Framing.RawFrameRestored`, `Framing.RefusedLengthLost`), and `decode_slot` stops behind the last field it could read
  (`Slots.SlotRestored`, `Slots.PresenceByteLost`). The packet decoders around them do restore their input.
- The compressed-frame encoder has no limit on the uncompressed size, the decoder has one:
  `Compression.CompressedRoundTrip`, `Compression.OversizedWritten`. The data length is cut to 32 bits, which does not
  help: `Compression.OversizedBodyLost`.
- The Click Container encoder does not bound its changes, the decoder does: `Containers.ClickRoundTrip`,
  `Containers.LargeClickRefused`.
- A malformed or truncated handshake frame is a protocol violation that should end the connection, but is reported as
  incomplete, so the connection waits for ever: `ConnectionRuns.HandshakeStuck`, `ConnectionRuns.StuckInputs`,
  `ConnectionRuns.StuckRun`.
- The play loop starts with a read buffer of its own, so bytes that arrive in one read with the Login Start are lost and
  the hand-over depends on how the stream was split: `ConnectionHandOver.HandOver`,
  `ConnectionHandOver.CoalescedBytesLost`.
- `NegativeFrameLength` is never returned: `Framing.NegativeLengthUnreachable`.
- A write to an inventory slot that a short inventory lacks is dropped: `ChestWindow.WriteThrough`,
  `ChestWindow.WriteLost`.
- Comments on the Join Game codec give the packet id as 0x01, the code uses 0x28. The collision module says every
  non-air state is solid, the code excepts fluids.

## Model

| member | source | states |
|---|---|---|
| `NbtTrees.ReadCharacterised` | crates/rustbound-protocol/src/play.rs:3337-3355 | `read_nbt_compound` returns `nbt` and leaves `rest` exactly when the input is `nbt` followed by `rest` and `nbt` is a serialised compound of some shape without tag-0x07 content; nothing else is ever accepted |
| `NbtTrees.CompoundDelimited` | crates/rustbound-protocol/src/play.rs:3337-3455 | for every compound tree (nested compounds, lists, strings, numbers by value, arrays of 32-bit, 64-bit and 8-bit numbers) and every tail, exactly the compound's bytes are read and the tail is left |
| `NbtTrees.ReadIsCompound` | crates/rustbound-protocol/src/play.rs:3337-3355 | conversely, whatever is returned parses as such a tree, so the skipper never stops short of or beyond one |
| `NbtTrees.WalkTree` | crates/rustbound-protocol/src/play.rs:3462-3540 | the unnamed walker, started on any serialised tree anywhere in the data, stops exactly at its end |
| `NbtTrees.TreeAt` | crates/rustbound-protocol/src/play.rs:3462-3540 | any stretch the unnamed walker accepts is the serialisation of a well-formed tree of that tag, with the values of its numbers |
| `NbtTrees.UnknownTagRefused` | crates/rustbound-protocol/src/play.rs:3357-3540 | after any number of good entries an entry of unknown type is refused, whatever follows it |
| `NbtTrees.NegativeArrayAborts` | crates/rustbound-protocol/src/play.rs:3499-3524 | after any number of good entries an int or long array of negative length aborts |
| `NbtTrees.NotACompound` | crates/rustbound-protocol/src/play.rs:3337-3347 | anything but a compound is refused at its first byte |
| `NbtTrees.ByteArraysBreakDelimiting` | crates/rustbound-protocol/src/play.rs:3642-3668 | every part of a tree, walked by itself, is skipped to its own end if and only if no byte array of tag 0x07 in it has content |
| `NbtTrees.ByteArrayReadShort` | crates/rustbound-protocol/src/play.rs:3642-3668 | a 13-byte compound with a one-byte array on which the skipper stops one byte early |
| `NbtTrees.ByteArrayReadWhole` | crates/rustbound-protocol/src/play.rs:3642-3668 | an 18-byte compound with a seven-byte array that is read whole, so for a compound as a whole the condition is sufficient and not necessary |
| `Nbt.WalkStable` | crates/rustbound-protocol/src/play.rs:3462-3625 | a success or an error other than incomplete input does not change when bytes are appended |
| `Nbt.NbtStable` | crates/rustbound-protocol/src/play.rs:3337-3355 | the same for `read_nbt_compound`: the result is kept and the appended bytes are left over |
| `Nbt.NbtPrefixIncomplete` | crates/rustbound-protocol/src/play.rs:3337-3355 | every proper prefix of the bytes a success consumed is incomplete, never a success or another error |
| `Nbt.NamedWalkerAgrees` | crates/rustbound-protocol/src/play.rs:3357-3459 | `parse_nbt_payload` equals read tag, skip name, unnamed walk, if and only if the tag is not TAG_End and is either known or followed by a whole name |
| `Nbt.NamedWalkerDiffers` | crates/rustbound-protocol/src/play.rs:3357-3459 | one-byte inputs on which the two disagree |
| `NbtWalkers.ReadNbtCompound` | crates/rustbound-protocol/src/play.rs:3337-3355 | the method: agrees with the specification and restores the input on failure |
| `NbtWalkers.Cursor.ParseNbtPayload` | crates/rustbound-protocol/src/play.rs:3357-3459 | the named walker, with its loops and shared position, ends where the specification says and returns the bytes in between |
| `NbtWalkers.Cursor.ParseNbtPayloadInner` | crates/rustbound-protocol/src/play.rs:3462-3540 | with overflow checks, the unnamed walker ends where the specification says; terminates with the unread length as measure |
| `NbtWalkers.Cursor.ParseNbtListElement` | crates/rustbound-protocol/src/play.rs:3543-3625 | the third copy ends at the very same place as the second, for every tag, data and position |
| `NbtWalkers.Cursor.SkipNbtName` | crates/rustbound-protocol/src/play.rs:3628-3639 | two length bytes and that many more |
| `NbtWalkers.Cursor.SkipNbtPrimitive` | crates/rustbound-protocol/src/play.rs:3642-3668 | fixed sizes and strings; of a tag-0x07 array only the prefix |
| `NbtWalkers.Cursor.SkipNbtArray` | crates/rustbound-protocol/src/play.rs:3499-3537 | the array branches: the 64-bit product and sum of the source, with their overflows, end where the specification says |
| `NbtWrapping.BuildsAgree` | crates/rustbound-protocol/src/play.rs:3462-3625 | without overflow checks the walker ends with the same result if and only if the checked one does not abort, for every payload that fits a slice |
| `NbtWrapping.WalksAgree` | crates/rustbound-protocol/src/play.rs:3462-3625 | how many steps suffice for that |
| `NbtWrapping.NeverAborts` | crates/rustbound-protocol/src/play.rs:3462-3625 | the wrapping walker itself has no such outcome |
| `NbtWrapping.EndlessLoop` | crates/rustbound-protocol/src/play.rs:3499-3511 | eleven bytes on which the checked walker aborts and the wrapping one returns to the same entry for ever |
| `Slots.SlotExact` | crates/rustbound-protocol/src/play.rs:3284-3330 | a slot survives the wire if and only if it is in normal form: nothing on an absent item, NBT empty or one delimitable compound |
| `Slots.SlotRoundTrip` | crates/rustbound-protocol/src/play.rs:3284-3330 | a normal slot is read back whatever follows it |
| `Slots.ParsedSlotNormal` | crates/rustbound-protocol/src/play.rs:3299-3330 | only normal slots are ever decoded |
| `Slots.EncodeSlot` | crates/rustbound-protocol/src/play.rs:3284-3296 | appends exactly the slot's bytes |
| `Slots.DecodeSlot` | crates/rustbound-protocol/src/play.rs:3299-3330 | agrees with the specification, and says where its cursor stands after every failure |
| `Slots.SlotRestored` | crates/rustbound-protocol/src/play.rs:3299-3330 | a failure leaves the input as it was if and only if the presence byte is missing or no Boolean |
| `Slots.PresenceByteLost` | crates/rustbound-protocol/src/play.rs:3299-3330 | a presence byte with nothing behind it is consumed |
| `Containers.ContentRoundTrip` | crates/rustbound-protocol/src/play.rs:3673-3763 | a written Set Container Content is read back unchanged, before any tail, if and only if all its slots are normal |
| `Containers.EncodeSetContainerContent` | crates/rustbound-protocol/src/play.rs:3673-3697 | writes the specified packet or leaves the output alone |
| `Containers.DecodeSetContainerContent` | crates/rustbound-protocol/src/play.rs:3700-3763 | agrees with the specification and moves the input only on success |
| `Containers.ClickRoundTrip` | crates/rustbound-protocol/src/play.rs:3980-4090 | a written Click Container is read back unchanged if and only if its slots are normal and it lists at most 256 changes |
| `Containers.TooManyChangesRefused` | crates/rustbound-protocol/src/play.rs:3980-4090 | every written packet with more than 256 changes is refused by the decoder, with this error |
| `Containers.LargeClickRefused` | crates/rustbound-protocol/src/play.rs:3980-4090 | one with 257 changes is written |
| `Containers.EncodeClickContainer` | crates/rustbound-protocol/src/play.rs:3980-4001 | writes the specified packet or leaves the output alone |
| `Containers.DecodeClickContainer` | crates/rustbound-protocol/src/play.rs:4004-4090 | agrees with the specification and moves the input only on success |
| `Chunks.ChunkRoundTrip` | crates/rustbound-protocol/src/play.rs:5242-5368 | a written Chunk Data, with its light data as unprefixed remainder, is read back unchanged if and only if its heightmaps are one delimitable compound |
| `Chunks.EncodeChunkData` | crates/rustbound-protocol/src/play.rs:5242-5279 | writes the specified packet, or reports the specified refusal and leaves the output alone |
| `Chunks.DecodeChunkData` | crates/rustbound-protocol/src/play.rs:5282-5368 | agrees with the specification and moves the input only on success |
| `JoinGames.JoinGameRoundTrip` | crates/rustbound-protocol/src/play.rs:671-927 | a written Join Game is read back unchanged if and only if its registry is one delimitable compound and its death location is blank or fits the packed word |
| `JoinGames.EncodeJoinGame` | crates/rustbound-protocol/src/play.rs:671-738 | writes the specified packet, or reports the specified refusal and leaves the output alone |
| `JoinGames.DecodeJoinGame` | crates/rustbound-protocol/src/play.rs:744-927 | agrees with the specification and moves the input only on success |
| `JoinGames.ModeRefused` | crates/rustbound-protocol/src/play.rs:744-790 | unknown game modes are refused |
| `Reencoding.ContentReencodes` | crates/rustbound-protocol/src/play.rs:3673-3763 | every decoded Set Container Content, however it was written, keeps the limits of the encoder, is encoded again under the same maximum and reads back as itself |
| `Reencoding.ClickReencodes` | crates/rustbound-protocol/src/play.rs:3980-4090 | every decoded Click Container, however it was written, keeps the limits of the encoder, is encoded again under the same maximum and reads back as itself |
| `Reencoding.ChunkReencodes` | crates/rustbound-protocol/src/play.rs:5242-5368 | every decoded Chunk Data, however it was written, keeps the limits of the encoder, is encoded again under the same maximum and reads back as itself |
| `Reencoding.JoinGameReencodes` | crates/rustbound-protocol/src/play.rs:671-927 | every decoded Join Game, however it was written, keeps the limits of the encoder, is encoded again under the same maximum and reads back as itself |
| `Reencoding.LoginSuccessReencodes` | crates/rustbound-protocol/src/login.rs:565-701 | every decoded Login Success, however it was written, keeps the limits of the encoder, is encoded again under the same maximum and reads back as itself |
| `Reencoding.HandshakeReencodes` | crates/rustbound-protocol/src/handshake.rs:100-183 | every decoded handshake, however it was written, keeps the limits of the encoder, is encoded again under the same maximum and reads back as itself |
| `Reencoding.ContentAcceptance` | crates/rustbound-protocol/src/play.rs:3673-3697 | the encoder accepts exactly packets that fit a frame and have at most 256 slots |
| `Reencoding.ChunkAcceptance` | crates/rustbound-protocol/src/play.rs:5242-5279 | the encoder accepts exactly packets that fit a frame and have heightmaps, data, light and each block entity of at most 2^20 bytes, and at most 1024 block entities |
| `Reencoding.JoinGameAcceptance` | crates/rustbound-protocol/src/play.rs:671-738 | the encoder accepts exactly packets that fit a frame and have at most 256 dimension names, a registry of at most 2^20 bytes and strings of at most 32767 units |
| `Reencoding.LoginSuccessAcceptance` | crates/rustbound-protocol/src/login.rs:565-599 | the encoder accepts exactly packets that fit a frame and have a name of at most 16 units, at most 1024 properties and strings of at most 32767 units |
| `Reencoding.ClickAcceptance` | crates/rustbound-protocol/src/play.rs:3980-4001 | the encoder accepts every click that fits a frame |
| `Reencoding.CountsRefused` | crates/rustbound-protocol/src/play.rs:5300-5368 | negative and too large counts of block entities, dimension names and properties are refused, each with its own error |
| `Reencoding.SlotCountsRefused` | crates/rustbound-protocol/src/play.rs:3700-3763 | so are those of slots and changes |
| `Collision.NoPenetration` | crates/rustbound-server/src/collision.rs:145-221 | for every world and every proposal, a non-spectator that starts clear of solids ends clear, the push-up is never taken, and it moves at most 32 sideways, 64 down and 2 up |
| `Collision.FallLandingExact` | crates/rustbound-server/src/collision.rs:190-247 | a clamped downward target that hits a solid lands the player, in the column its two horizontal moves reach, exactly 1e-4 above the highest solid layer of its footprint below its old feet: clear, on the ground, above the target, at most 1e-4 above where it was |
| `Collision.ClearStartExactly` | crates/rustbound-server/src/collision.rs:166-204 | from a clear start each horizontal axis reaches its target if the box there is clear and stays otherwise, on its own, so a blocked player slides; then a free height is reached, a blocked rise is not begun, a blocked fall lands |
| `Collision.ResolvedExactly` | crates/rustbound-server/src/collision.rs:145-221 | the whole result for any start, with the push-up, the ground flag by the block that holds the point 0.05 below the feet, and the correction flag |
| `Collision.TargetNearest` | crates/rustbound-server/src/collision.rs:166-172 | the clamped target is the position within 32 sideways, 64 down and 2 up nearest to the proposal, axis by axis |
| `Collision.SnapExact` | crates/rustbound-server/src/collision.rs:223-247 | the highest layer among that of the feet and the 64 below with room for the body on top, or the start height if there is none |
| `Collision.SolidStates` | crates/rustbound-server/src/collision.rs:42-47 | air and the states 80 to 111 of water and lava do not stop a player, all others do |
| `Collision.SpectatorPasses` | crates/rustbound-server/src/collision.rs:156-164 | a spectator goes where it wants |
| `Collision.ResultIsStable` | crates/rustbound-server/src/collision.rs:145-221 | replaying a result with zero motion returns it, uncorrected |
| `Collision.AcceptedExactly` | crates/rustbound-server/src/collision.rs:145-221 | from a clear start, a proposal is not corrected if and only if it is within the step limits and the three boxes tried on the way are clear |
| `Collision.PushUpClears` | crates/rustbound-server/src/collision.rs:206-209 | from any start the player ends clear, or exactly one body height above where the axes put it |
| `Collision.RangeExact` | crates/rustbound-server/src/collision.rs:93-101 | `block_range` lists exactly the block coordinates an interval overlaps |
| `Collision.ClearMeansNoHit` | crates/rustbound-server/src/collision.rs:104-117 | a position is clear by layers if and only if its box hits no solid block |
| `Collision.AabbHitsSolid` | crates/rustbound-server/src/collision.rs:104-117 | the triple loop answers whether some overlapped block is solid |
| `Collision.StandingOnGround` | crates/rustbound-server/src/collision.rs:119-137 | the probe loop answers whether the layer 0.05 below the feet is solid in the footprint |
| `Collision.SnapDown` | crates/rustbound-server/src/collision.rs:223-247 | the downward search returns the first layer with room on top, or the start height |
| `Collision.ResolveMovement` | crates/rustbound-server/src/collision.rs:145-221 | the method refines the axis-by-axis specification the theorems are about |
| `Connection.ChunkingIndependence` | crates/rustbound-server/src/connection.rs:196-402 | two ways of splitting one client stream into reads give the same packets, transitions and replies, the same error or end, and the same bytes buffered or unread, whatever texts the successive status responses have |
| `Connection.ChunkingIrrelevant` | crates/rustbound-server/src/connection.rs:196-402 | any split, from any state and buffer, gives the run of the whole stream handed over at once |
| `Connection.DrainSplit` | crates/rustbound-server/src/connection.rs:203-402 | draining a concatenation is draining its first part and going on with the second |
| `Connection.DecodeStable` | crates/rustbound-server/src/connection.rs:426-495 | a decoded packet and an error are final under extension, in every state |
| `ConnectionRuns.RunFollowsHandshake` | crates/rustbound-server/src/connection.rs:203-402 | in every run the first event is a handshake and all later ones happen in the state it chose |
| `ConnectionRuns.RunPong` | crates/rustbound-server/src/connection.rs:501-527 | at most one pong, the canonical frame of the ping's payload, as the last event; only a ping makes the server close |
| `ConnectionReplies.RunStatus` | crates/rustbound-server/src/connection.rs:223-242 | in every run, a status request whose text has at most 32767 UTF-16 units and whose frame fits gets exactly one reply, a frame with id 0 that reads back as the text of that moment; otherwise none, and the run ends in an error |
| `ConnectionReplies.StatusExchange` | crates/rustbound-server/src/connection.rs:196-402 | a client that asks any number of times and then pings is served in full, however its bytes are split, and the rest of its bytes stays unread |
| `ConnectionReplies.RunLogins` | crates/rustbound-server/src/connection.rs:236-330 | in every run, every Login Start is answered: offline by a Login Success with its name, after the threshold when compression is on; online by one Encryption Request from a maximum of 137 on; otherwise by nothing and an error |
| `ConnectionReplies.LoginReply` | crates/rustbound-protocol/src/login_state_machine.rs:152-215 | what one Login Start is answered with, exactly, for every configuration |
| `ConnectionReplies.EncryptionReply` | crates/rustbound-protocol/src/login.rs:409-432 | the request reads back as an empty server id, 128 and 4 zero bytes; it is written if and only if the maximum is at least 137 |
| `ConnectionReplies.ThresholdReply` | crates/rustbound-protocol/src/compression.rs:305-316 | Set Compression reads back as its threshold |
| `ConnectionReplies.CompressedLoginEnters` | crates/rustbound-server/src/connection.rs:252-281 | with compression on the login enters if and only if the wrapped Login Success fits the maximum |
| `ConnectionReplies.RunRouted` | crates/rustbound-server/src/connection.rs:203-402 | every event of every run is routed once, in the state the one before it left, and a closing step is the last |
| `Connection.UnknownIdReported` | crates/rustbound-server/src/connection.rs:426-480 | a frame with an id the state does not know is an error that names it |
| `ConnectionRuns.HandshakeStuck` | crates/rustbound-protocol/src/handshake.rs:100-120 | once a frame is decided, a handshake is reported incomplete for ever if and only if the frame was malformed, or has id 0 and a payload that ends inside the version, the address, the port or the next state |
| `ConnectionRuns.CutHandshakeStuck` | crates/rustbound-protocol/src/handshake.rs:100-150 | every handshake, cut anywhere in its fields and framed as it then is, is such an input |
| `ConnectionRuns.StuckInputs` | crates/rustbound-protocol/src/handshake.rs:100-150 | so are the frame of no bytes and the frame of a packet id alone |
| `ConnectionRuns.StuckRun` | crates/rustbound-server/src/connection.rs:426-440 | such a client gets no event and no end, whatever it sends |
| `ConnectionRuns.MalformedFrameReported` | crates/rustbound-server/src/connection.rs:441-480 | the same malformed frame behind a handshake ends every run with the error of the Status or Login state, however the bytes were split |
| `ConnectionRuns.OfflineLoginReplies` | crates/rustbound-server/src/connection.rs:245-299 | an offline login handed to the play loop told the client its own name, after Set Compression exactly when compression is on, and a client reading with any threshold of the same sign gets the same id and payload |
| `ConnectionRuns.RewrappedSuccessRead` | crates/rustbound-server/src/connection.rs:252-281 | taking the Login Success frame apart and wrapping it again as a compressed frame keeps id and payload |
| `ConnectionRuns.OfflineLoginEnters` | crates/rustbound-server/src/connection.rs:229-299 | offline and uncompressed, an acceptable name always gets in when frames of 67 bytes are allowed |
| `ConnectionHandOver.HandOver` | crates/rustbound-server/src/session.rs:2133-2133 | every split of a stream that logs in logs in, and the play loop, with its empty buffer, misses nothing if and only if one of the reads ends where the login ends |
| `ConnectionHandOver.DrainExact` | crates/rustbound-server/src/connection.rs:203-402 | the bytes a login consumes finish the run on their own, with nothing left over |
| `ConnectionHandOver.DecodeCut` | crates/rustbound-server/src/connection.rs:426-495 | in every state a packet cut inside is incomplete and cut behind it is the same packet |
| `ConnectionHandOver.ServePrefix` | crates/rustbound-server/src/connection.rs:196-402 | a run that is over makes no use of further reads |
| `ConnectionHandOver.CoalescedBytesLost` | crates/rustbound-server/src/session.rs:2133-2133 | one stream, two splits: with one read everything behind the Login Start is lost, with a boundary after it nothing is |
| `ConnectionDriver.Driver.TryDecodePacket` | crates/rustbound-server/src/connection.rs:426-495 | the buffer loses a packet's bytes when a packet is complete and nothing otherwise |
| `ConnectionDriver.Driver.HandleStatusPacket` | crates/rustbound-server/src/connection.rs:501-527 | writes the replies and takes the transition that `ConnectionReplies.RunStatus` and `ConnectionRuns.RunPong` are about |
| `ConnectionDriver.Driver.HandleLogin` | crates/rustbound-server/src/connection.rs:229-299 | encode, run the login state machine, wrap, write, as the specification says |
| `ConnectionDriver.Driver.HandleConnection` | crates/rustbound-server/src/connection.rs:196-402 | the loop over state, read buffer and reads performs exactly the specified run |
| `Compression.CompressedRoundTrip` | crates/rustbound-protocol/src/compression.rs:142-299 | for any signed threshold, id, payload and tail, a written frame is read back, under any threshold of the same sign, if and only if id and payload are at most 2^21-1 bytes |
| `Compression.DataLengthZeroMeansUncompressed` | crates/rustbound-protocol/src/compression.rs:252-299 | within that limit a body starts with a zero byte if and only if it was left uncompressed |
| `Compression.OversizedBodyLost` | crates/rustbound-protocol/src/compression.rs:252-299 | beyond it no body is read back, even where the 32-bit data length wraps to a small number |
| `Compression.OversizedWritten` | crates/rustbound-protocol/src/compression.rs:142-299 | a packet of 2^21 bytes and its id that is written and refused |
| `Compression.CompressedStable` | crates/rustbound-protocol/src/compression.rs:142-246 | a decoded packet and an error are stable under extension, for every zlib |
| `Compression.CompressedCut` | crates/rustbound-protocol/src/compression.rs:142-246 | a compressed frame cut anywhere inside is incomplete |
| `Compression.BodyAccepted` | crates/rustbound-protocol/src/compression.rs:180-240 | accepted are exactly a zero and the packet, or a data length up to 2^21-1 and a stream that inflates to a packet of that length |
| `Compression.BodyRefused` | crates/rustbound-protocol/src/compression.rs:180-240 | the error of each refusal |
| `Compression.ErrorsReported` | crates/rustbound-protocol/src/compression.rs:142-240 | errors of the frame and of the body are reported as such, and only an incomplete frame is incomplete |
| `Compression.EncodeCompressedFrame` | crates/rustbound-protocol/src/compression.rs:252-299 | writes the specified frame or leaves the output alone |
| `Compression.DecodeCompressedFrame` | crates/rustbound-protocol/src/compression.rs:142-246 | agrees with the specification and moves the input only on success |
| `Framing.FrameCanonical` | crates/rustbound-protocol/src/framing.rs:106-165 | any decoded frame is encoded again under the same maximum, in no more bytes, and reads back as itself |
| `Framing.FrameStable` | crates/rustbound-protocol/src/framing.rs:106-148 | a complete frame and an error are both stable under extension |
| `Framing.FrameCut` | crates/rustbound-protocol/src/framing.rs:106-148 | cut inside, a frame is incomplete; cut behind, it is the same frame |
| `Framing.FrameRoundTrip` | crates/rustbound-protocol/src/framing.rs:106-171 | an encoded frame is read back before any tail |
| `Framing.FrameAcceptance` | crates/rustbound-protocol/src/framing.rs:153-171 | a frame is written if and only if id and payload fit the effective maximum, with a prefix of at most three bytes |
| `Framing.LengthRefused` | crates/rustbound-protocol/src/framing.rs:106-140 | zero, negative, four-byte and too long lengths are each refused with their own error |
| `Framing.LongPrefixRefused` | crates/rustbound-protocol/src/framing.rs:106-124 | a prefix of more than three bytes is refused whatever it says |
| `Framing.FrameRefused` | crates/rustbound-protocol/src/framing.rs:235-251 | the encoder names the length it refuses and the limit |
| `Framing.NegativeLengthUnreachable` | crates/rustbound-protocol/src/framing.rs:106-148 | the negative-length error can never be returned |
| `Framing.EncodeFrame` | crates/rustbound-protocol/src/framing.rs:153-171 | appends the specified bytes or leaves the output alone |
| `Framing.DecodeFrame` | crates/rustbound-protocol/src/framing.rs:106-148 | agrees with the specification and moves the input only on a complete frame |
| `Framing.RawFrameRoundTrip` | crates/rustbound-protocol/src/framing.rs:173-233 | raw frames are read back before any tail |
| `Framing.RawFrameAcceptance` | crates/rustbound-protocol/src/framing.rs:173-203 | a raw frame is written if and only if its body fits the maximum and 2^21-1 |
| `Framing.RawLengthRefused` | crates/rustbound-protocol/src/framing.rs:205-233 | negative and too long lengths are refused, each with its own error |
| `Framing.RawFrameStable` | crates/rustbound-protocol/src/framing.rs:205-233 | raw frames and their errors are stable under extension |
| `Framing.EncodeRawFrame` | crates/rustbound-protocol/src/framing.rs:173-203 | appends the specified bytes or leaves the output alone |
| `Framing.DecodeRawFrame` | crates/rustbound-protocol/src/framing.rs:205-233 | agrees with the specification, and says where its cursor stands after every failure |
| `Framing.RawFrameRestored` | crates/rustbound-protocol/src/framing.rs:205-233 | an error leaves the input as it was if and only if the length itself could not be read |
| `Framing.RefusedLengthLost` | crates/rustbound-protocol/src/framing.rs:205-233 | the length 2 under a maximum of 1 is consumed |
| `VarInt.VarIntRoundTrip` | crates/rustbound-protocol/src/primitives.rs:46-79 | every i32 is read back with any tail |
| `VarInt.VarLongRoundTrip` | crates/rustbound-protocol/src/primitives.rs:81-113 | every i64 is read back with any tail |
| `VarInt.VarIntMinimal` | crates/rustbound-protocol/src/primitives.rs:46-79 | an accepted encoding, minimal or not, is encoded again to no more bytes |
| `VarInt.VarLongMinimal` | crates/rustbound-protocol/src/primitives.rs:81-113 | the same for 64 bits |
| `VarInt.VarIntStable` | crates/rustbound-protocol/src/primitives.rs:62-79 | success and excess length are stable under extension |
| `VarInt.VarIntUnfinished` | crates/rustbound-protocol/src/primitives.rs:62-79 | decoding is incomplete if and only if there are fewer than five bytes and each asks for another |
| `VarInt.VarIntRefused` | crates/rustbound-protocol/src/primitives.rs:62-79 | and refused for its length if and only if its first five bytes each ask for another |
| `VarInt.VarIntValue` | crates/rustbound-protocol/src/primitives.rs:62-79 | otherwise its value is the sum of its seven-bit groups, least significant first, cut to 32 bits |
| `VarInt.VarLongRefused` | crates/rustbound-protocol/src/primitives.rs:97-113 | the same for ten bytes |
| `VarInt.VarLongValue` | crates/rustbound-protocol/src/primitives.rs:97-113 | the same for 64 bits |
| `VarInt.VarIntExamples` | crates/rustbound-protocol/src/primitives.rs:457-471 | the nine published examples |
| `VarInt.VarIntPrefixIncomplete` | crates/rustbound-protocol/src/primitives.rs:46-79 | every proper prefix of an encoding is incomplete |
| `VarInt.VarLongPrefixIncomplete` | crates/rustbound-protocol/src/primitives.rs:81-113 | the same for 64 bits |
| `VarInt.VarIntLength` | crates/rustbound-protocol/src/framing.rs:253-266 | `var_int_length` is the number of bytes the encoder writes |
| `VarInt.EncodeVarInt` | crates/rustbound-protocol/src/primitives.rs:46-60 | the shifting loop appends the base-128 groups of the unsigned word |
| `VarInt.DecodeVarInt` | crates/rustbound-protocol/src/primitives.rs:62-79 | the accumulating loop agrees with the specification and restores its cursor on failure |
| `VarInt.EncodeVarLong` | crates/rustbound-protocol/src/primitives.rs:81-95 | the same for 64 bits |
| `VarInt.DecodeVarLong` | crates/rustbound-protocol/src/primitives.rs:97-113 | the same for 64 bits |
| `Text.StringAcceptance` | crates/rustbound-protocol/src/primitives.rs:121-143 | `encode_string` accepts exactly the strings of at most that many UTF-16 code units whose bytes fit an i32; its byte bound never refuses one more |
| `Text.Utf16RoundTrip` | crates/rustbound-protocol/src/primitives.rs:121-143 | the code units, surrogate pairs from 0x10000 on, decode to the text they came from |
| `Text.Utf16Onto` | crates/rustbound-protocol/src/primitives.rs:121-143 | and what decodes is the encoding of its text |
| `Text.UnitsCounted` | crates/rustbound-protocol/src/primitives.rs:121-143 | the count the codec bounds is the number of those code units |
| `Text.BasicTextAccepted` | crates/rustbound-protocol/src/primitives.rs:121-143 | a text of at most that many scalars below 0x10000 is accepted |
| `Text.LongStringRefused` | crates/rustbound-protocol/src/primitives.rs:145-169 | the decoder refuses what the encoder refuses for its length |
| `Text.BadStringRefused` | crates/rustbound-protocol/src/primitives.rs:145-169 | negative lengths and bytes that are not UTF-8 are refused, each with its own error |
| `Text.ThreeBytesPerUnit` | crates/rustbound-protocol/src/primitives.rs:121-143 | UTF-8 takes at most three bytes for each UTF-16 unit |
| `Text.StringRoundTrip` | crates/rustbound-protocol/src/primitives.rs:121-169 | an accepted string is read back with any tail |
| `Text.StringCut` | crates/rustbound-protocol/src/primitives.rs:145-169 | every cut of an encoded string is incomplete |
| `Text.StringMinimal` | crates/rustbound-protocol/src/primitives.rs:145-169 | a decoded string is accepted by the encoder, in no more bytes |
| `Text.Utf8RoundTrip` | crates/rustbound-protocol/src/primitives.rs:145-169 | decoding UTF-8 undoes encoding it |
| `Text.Utf8Onto` | crates/rustbound-protocol/src/primitives.rs:145-169 | the accepted byte strings are exactly encodings, so overlong forms and surrogates are refused |
| `Text.EncodeString` | crates/rustbound-protocol/src/primitives.rs:121-143 | appends the specified bytes or leaves the output alone |
| `Text.DecodeString` | crates/rustbound-protocol/src/primitives.rs:145-169 | agrees with the specification and restores its cursor on failure |
| `Primitives.PositionRoundTrip` | crates/rustbound-protocol/src/primitives.rs:232-249 | a position comes back with each field truncated to its width and sign-extended, which is unchanged if and only if it is in range |
| `Primitives.PositionOnto` | crates/rustbound-protocol/src/primitives.rs:232-249 | every 8-byte word is the encoding of what it decodes to |
| `Primitives.UnpackFields` | crates/rustbound-protocol/src/primitives.rs:243-249 | the shifts of the decoder read the three fields of any word with their signs |
| `Primitives.EncodePosition` | crates/rustbound-protocol/src/primitives.rs:232-238 | masking and shifting write the packed word |
| `Primitives.DecodePosition` | crates/rustbound-protocol/src/primitives.rs:243-249 | agrees with the specification and restores its cursor on failure |
| `Primitives.ByteArrayRoundTrip` | crates/rustbound-protocol/src/primitives.rs:411-447 | an accepted byte array is read back with any tail |
| `Primitives.DecodeByteArray` | crates/rustbound-protocol/src/primitives.rs:429-447 | agrees with the specification, and says where its cursor stands after every failure |
| `Primitives.ByteArrayRestored` | crates/rustbound-protocol/src/primitives.rs:429-447 | a failure leaves the input as it was if and only if the length is not negative |
| `Primitives.NegativeLengthLost` | crates/rustbound-protocol/src/primitives.rs:429-447 | the length -1 is consumed, whatever follows it |
| `Primitives.UuidRoundTrip` | crates/rustbound-protocol/src/primitives.rs:370-385 | a UUID is read back with any tail |
| `Primitives.ByteArrayAcceptance` | crates/rustbound-protocol/src/primitives.rs:411-426 | an array is accepted if and only if its length fits the maximum and an i32 |
| `Wire.BigEndianDigits` | crates/rustbound-protocol/src/primitives.rs:172-215 | byte i of a network-order word is the digit of weight 256^(width-1-i) |
| `Wire.TwosComplement` | crates/rustbound-protocol/src/primitives.rs:288-330 | negative numbers are in two's complement |
| `WireExamples.FrameExample` | crates/rustbound-protocol/src/framing.rs:277-285 | the two published frames |
| `WireExamples.PositionExample` | crates/rustbound-protocol/src/primitives.rs:232-249 | one packed position, byte by byte |
| `WireExamples.UuidExample` | crates/rustbound-protocol/src/primitives.rs:340-385 | one UUID, byte by byte |
| `WireExamples.TextExamples` | crates/rustbound-protocol/src/primitives.rs:121-143 | one scalar of each UTF-8 length, byte by byte |
| `WireExamples.SlotExamples` | crates/rustbound-protocol/src/play.rs:3284-3296 | an empty, a plain and a tagged slot, byte by byte |
| `WireExamples.ContentExample` | crates/rustbound-protocol/src/play.rs:3673-3697 | a Set Container Content, byte by byte |
| `WireExamples.ClickExample` | crates/rustbound-protocol/src/play.rs:3980-4001 | a Click Container, byte by byte |
| `WireExamples.ChunkExample` | crates/rustbound-protocol/src/play.rs:5242-5279 | a Chunk Data, byte by byte |
| `WireExamples.PlayerExample` | crates/rustbound-protocol/src/play.rs:676-686 | the player section of Join Game, byte by byte |
| `WireExamples.WorldsExample` | crates/rustbound-protocol/src/play.rs:688-709 | its worlds, byte by byte |
| `WireExamples.RulesExample` | crates/rustbound-protocol/src/play.rs:712-719 | its rules, byte by byte |
| `WireExamples.DeathExample` | crates/rustbound-protocol/src/play.rs:720-736 | its death location, byte by byte |
| `WireExamples.JoinGameOrder` | crates/rustbound-protocol/src/play.rs:671-738 | the order of the sections, byte by byte |
| `WireExamples.HandshakeExample` | crates/rustbound-protocol/src/handshake.rs:159-183 | a handshake, byte by byte |
| `WireExamples.LoginStartExample` | crates/rustbound-protocol/src/login.rs:233-250 | a Login Start, byte by byte |
| `WireExamples.LoginSuccessExample` | crates/rustbound-protocol/src/login.rs:565-599 | a Login Success with a signed and an unsigned property, byte by byte |
| `WireExamples.CompressionExample` | crates/rustbound-protocol/src/compression.rs:252-299 | a packet at its threshold and one above it, byte by byte |
| `Login.LoginSuccessRoundTrip` | crates/rustbound-protocol/src/login.rs:565-701 | any accepted Login Success, up to 1024 properties with or without signatures, is read back |
| `Login.LoginStartRoundTrip` | crates/rustbound-protocol/src/login.rs:233-306 | an encoded Login Start is read back |
| `Login.LoginStartWithoutUuid` | crates/rustbound-protocol/src/login.rs:252-306 | without a UUID it carries the one of all zeros |
| `Login.LoginStartReencodes` | crates/rustbound-protocol/src/login.rs:233-306 | a decoded Login Start, with or without UUID, is encoded again if and only if its name and a UUID fit the maximum, for which 67 bytes always suffice, and reads back as itself |
| `Login.EncodeLoginStart` | crates/rustbound-protocol/src/login.rs:233-250 | writes the specified packet or leaves the output alone |
| `Login.DecodeLoginStart` | crates/rustbound-protocol/src/login.rs:252-306 | agrees with the specification and moves the input only on success |
| `Login.EncodeLoginSuccess` | crates/rustbound-protocol/src/login.rs:565-599 | the property loop writes the specified packet, or leaves the output alone |
| `Login.DecodeLoginSuccess` | crates/rustbound-protocol/src/login.rs:601-701 | agrees with the specification and moves the input only on success |
| `Packets.PacketStable` | crates/rustbound-protocol/src/login.rs:252-306 | any packet decoder built this way is stable under extension |
| `Packets.PacketCut` | crates/rustbound-protocol/src/login.rs:252-306 | and finds a packet cut anywhere inside incomplete |
| `Packets.PacketAccepted` | crates/rustbound-protocol/src/login.rs:252-306 | a packet is decoded if and only if a frame with its id comes first and the fields use up the payload |
| `Packets.PacketRefused` | crates/rustbound-protocol/src/login.rs:252-306 | the errors for another id, bytes left over and fields cut short |
| `Packets.FrameErrorPassed` | crates/rustbound-protocol/src/login.rs:99-120 | a malformed frame is passed on as it is, but for a packet id cut short |
| `Handshakes.HandshakeRoundTrip` | crates/rustbound-protocol/src/handshake.rs:100-183 | an encoded handshake is read back before any tail |
| `Handshakes.TrailingRefused` | crates/rustbound-protocol/src/handshake.rs:122-150 | bytes behind the fields of any handshake are refused and counted |
| `Handshakes.HandshakeRefusals` | crates/rustbound-protocol/src/handshake.rs:122-150 | other ids, other next states and addresses of more than 255 UTF-16 units are refused, each with its own error |
| `Handshakes.HandshakeStable` | crates/rustbound-protocol/src/handshake.rs:100-120 | every answer but incomplete is stable under extension |
| `Handshakes.BodyIncomplete` | crates/rustbound-protocol/src/handshake.rs:122-150 | a body is reported incomplete if and only if it has id 0 and ends inside one of the four fields |
| `Handshakes.CutFields` | crates/rustbound-protocol/src/handshake.rs:122-150 | every proper prefix of the fields of every handshake does |
| `Handshakes.EncodeHandshake` | crates/rustbound-protocol/src/handshake.rs:159-183 | writes the specified packet or leaves the output alone |
| `Handshakes.DecodeHandshake` | crates/rustbound-protocol/src/handshake.rs:100-150 | agrees with the specification and moves the input only on success |
| `StatusPing.PongRoundTrip` | crates/rustbound-protocol/src/status.rs:276-327 | a pong carries the payload of its ping |
| `StatusPing.StatusRequestAccepted` | crates/rustbound-protocol/src/status.rs:163-205 | a status request is exactly a frame with id 0 and no payload |
| `StatusPing.PingAccepted` | crates/rustbound-protocol/src/status.rs:276-311 | a ping is exactly a frame with id 1 and the eight bytes of its payload |
| `StatusPing.EncodeStatusResponse` | crates/rustbound-protocol/src/status.rs:207-222 | frames the JSON string, or leaves the output alone |
| `StatusPing.EncodePongResponse` | crates/rustbound-protocol/src/status.rs:316-327 | frames the payload, or leaves the output alone |
| `StatusPing.DecodeStatusRequest` | crates/rustbound-protocol/src/status.rs:163-205 | agrees with the specification and moves the input only on success |
| `StatusPing.DecodePingRequest` | crates/rustbound-protocol/src/status.rs:276-311 | agrees with the specification and moves the input only on success |
| `ChestFile.Salvage` | crates/rustbound-server/src/container.rs:218-281 | a chest file cut anywhere gives back, in any map order, exactly the chests whose records lie wholly before the cut, absent slots empty and NBT cut to 65535 bytes, and no other; cut inside the header it gives none |
| `ChestFile.WholeFile` | crates/rustbound-server/src/container.rs:218-281 | the whole file gives back the whole store, each slot as far as the file keeps it |
| `ChestFile.StoreRestored` | crates/rustbound-server/src/container.rs:218-281 | the store comes back as it was if and only if a u32 counts its chests, its absent slots are empty and no NBT is longer than 65535 bytes |
| `ChestFile.EntryLayout` | crates/rustbound-server/src/container.rs:225-232 | where each field of a record stands |
| `ChestFile.SlotLayout` | crates/rustbound-server/src/container.rs:162-174 | where each field of a slot stands |
| `ChestFile.AnyPresence` | crates/rustbound-server/src/container.rs:176-184 | any presence byte but zero means present |
| `ChestFile.LoadRefused` | crates/rustbound-server/src/container.rs:239-246 | another magic or version gives an empty store |
| `ChestFile.EntryBack` | crates/rustbound-server/src/container.rs:225-278 | a record is read back with any tail |
| `ChestFile.EntryCut` | crates/rustbound-server/src/container.rs:245-278 | no proper prefix of a record is read as one |
| `ChestFile.StoredSlotBack` | crates/rustbound-server/src/container.rs:162-198 | a stored slot comes back normalised: an absent one empty, NBT cut to 65535 bytes |
| `ChestFile.SerializeChests` | crates/rustbound-server/src/container.rs:218-234 | the loop over the map writes a file whose records list every entry once, in some order |
| `ChestFile.DeserializeChests` | crates/rustbound-server/src/container.rs:237-281 | the salvaging loop yields the specified store |
| `ChestWindow.WriteThrough` | crates/rustbound-server/src/container.rs:61-91 | rebuilding the window after a write gives the old window updated at that slot only, if and only if the inventory has the slot or the item is empty; a slot outside the window changes nothing |
| `ChestWindow.WriteLost` | crates/rustbound-server/src/container.rs:76-91 | an item put into window slot 27 of a player without inventory is gone |
| `ChestWindow.WholeInventoryViewed` | crates/rustbound-server/src/container.rs:61-91 | with 36 slots or more that holds for every window slot and item |
| `ChestWindow.SlotMapBijection` | crates/rustbound-server/src/container.rs:47-58 | window slots 27-62 are mapped one to one onto player slots 0-35 |
| `ChestWindow.BuildChestWindowSlots` | crates/rustbound-server/src/container.rs:61-73 | the two loops lay out the window the slot map describes |
| `ChestWindow.ApplyWindowSlot` | crates/rustbound-server/src/container.rs:76-91 | writes the chest or the inventory in place, and nothing else |
| `PlayerFile.FileRoundTrip` | crates/rustbound-server/src/persist.rs:322-499 | in any map order and before any tail, the player file gives back the players if and only if every count and NBT length fits its u32 |
| `PlayerFile.FileCut` | crates/rustbound-server/src/persist.rs:357-499 | every proper prefix of a player file is corrupt |
| `PlayerFile.PlayerLayout` | crates/rustbound-server/src/persist.rs:301-320 | where each field of a record stands, as the documented format says |
| `PlayerFile.StackLayout` | crates/rustbound-server/src/persist.rs:315-320 | where each field of a slot stands |
| `PlayerFile.AnyPresence` | crates/rustbound-server/src/persist.rs:458-462 | any presence byte but zero means present |
| `PlayerFile.LoadedStorable` | crates/rustbound-server/src/persist.rs:357-499 | whatever a file yields could have been stored |
| `PlayerFile.SerializePlayers` | crates/rustbound-server/src/persist.rs:322-354 | the loops over the map and the slots write a file whose records list every player once, in some order |
| `PlayerFile.DeserializePlayers` | crates/rustbound-server/src/persist.rs:357-499 | the loop over records with its advancing offset yields the specified map or error |
| `PlayerFile.ReadPlayer` | crates/rustbound-server/src/persist.rs:383-497 | one record read field by field, with its two bounds checks |
| `OverrideFile.FileRoundTrip` | crates/rustbound-server/src/persist.rs:76-145 | in any map order and before any tail, the override file gives back the overrides if and only if a u32 can count them |
| `OverrideFile.FileCut` | crates/rustbound-server/src/persist.rs:94-145 | every proper prefix of an override file is corrupt |
| `OverrideFile.OverrideLayout` | crates/rustbound-server/src/persist.rs:7-14 | where each field of a record stands, as the documented format says |
| `SaveBytes.RecordsRefused` | crates/rustbound-server/src/persist.rs:94-108 | another magic is corrupt, another version is named, fewer than twelve bytes are corrupt |
| `SaveBytes.HeaderBytes` | crates/rustbound-server/src/persist.rs:76-81 | the header byte by byte |
| `OverrideFile.LengthDecides` | crates/rustbound-server/src/persist.rs:114-118 | the length check up front refuses exactly the files the loop would run out of |
| `OverrideFile.SerializeOverrides` | crates/rustbound-server/src/persist.rs:76-89 | the loop over the map writes a file whose records list every entry once, in some order |
| `OverrideFile.DeserializeOverrides` | crates/rustbound-server/src/persist.rs:94-145 | the loop over records yields the specified map or error |

## Left out

- Connection.ChunkingIndependence: the status texts are a given function of how many packets were handled; that the live number of players they carry may depend on when a read arrives is not modelled.
- ConnectionDriver.Driver.HandleConnection: reads are a given sequence of non-empty byte strings that ends with the disconnect; time-outs, retries and read or write errors of the socket are not modelled.
- ConnectionDriver.Driver.HandleLogin: of the login state machine only its answer to the first Login Start; the Encryption Response path is not modelled.
- Collision.ResolveMovement: fixed point instead of floating point, so rounding, NaN and the saturation of block coordinates at the i32 limits are not modelled, and nothing is said about the path between the boxes that are tried.
- ChestFile.Salvage: stores of 2^32 chests or more, whose count field saturates.
- PlayerFile.FileRoundTrip: floating-point fields are their bit patterns.
- Text.DecodeString: `FromUtf8` stands for the validation of the Rust standard library.
- JoinGames.JoinGameRoundTrip: the flat struct of the program is grouped into five records in wire order.
- Packets.OpenPacket: one error type stands for the play and login errors, which have the same cases and conversions.
- NbtWalkers.Cursor.ParseNbtPayloadInner: the depth of the call stack.
- NbtWalkers.Cursor.SkipNbtArray: one method with the element size as parameter for the nine array branches, which differ in nothing else.
- NbtWrapping.BuildsAgree: where the checked walker aborts, nothing is said about when the wrapping one ends.
- The play loop, ticks, world, entities and mob behaviour.
- zlib itself, JSON text and the MD5 that makes offline UUIDs.
- The other play packets, whose fields are fixed: they would add only easy members.
- Map packs and the store operations of the container module; they are one-line map operations or the override format again.
- Temporary files and renames, directories, failures of allocation.
