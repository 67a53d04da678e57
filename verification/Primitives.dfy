/** The remaining primitives: UUIDs, length-prefixed byte arrays and packed block positions. */
module Primitives {
  import opened Wire
  import opened VarInt

  // ---------------------------------------------------------------------------
  // UUIDs
  // ---------------------------------------------------------------------------

  datatype Uuid = Uuid(most: i64, least: i64)

  function UuidBytes(u: Uuid): (b: Bytes)
    ensures |b| == 16
  {
    I64(u.most) + I64(u.least)
  }

  function ParseUuid(s: Bytes): Parsed<Uuid> {
    var (most, s1) :- ParseI64(s);
    var (least, s2) :- ParseI64(s1);
    Ok((Uuid(most, least), s2))
  }

  lemma UuidRoundTrip(u: Uuid, tail: Bytes)
    ensures ParseUuid(UuidBytes(u) + tail) == Ok((u, tail))
  {
    assert UuidBytes(u) + tail == I64(u.most) + (I64(u.least) + tail);
    I64RoundTrip(u.most, I64(u.least) + tail);
    I64RoundTrip(u.least, tail);
  }

  method DecodeUuid(input: Input) returns (r: Result<Uuid, CodecError>)
    modifies input
    ensures Transactional(ParseUuid(old(input.rest)), r, old(input.rest), input.rest)
  {
    var source := input.rest;
    var most :- DecodeI64(input);
    var least := DecodeI64(input);
    if least.Err? {
      input.rest := source;
      return Err(least.error);
    }
    return Ok(Uuid(most, least.value));
  }

  // ---------------------------------------------------------------------------
  // Byte arrays
  // ---------------------------------------------------------------------------

  /** The length prefix and the bytes of an array, accepted or not. */
  function Prefixed(value: Bytes): Bytes {
    VarIntBytes(AsI32(|value|)) + value
  }

  function ByteArrayBytes(value: Bytes, maximum: usize): Result<Bytes, CodecError> {
    if |value| > maximum then Err(StringTooLong)
    else if |value| > I32_MAX then Err(VarIntTooLong)
    else Ok(Prefixed(value))
  }

  function ParseByteArray(s: Bytes, maximum: usize): Parsed<Bytes> {
    var (length, remaining) :- ParseVarInt(s);
    if length < 0 then Err(VarIntTooLong)
    else if length > maximum then Err(StringTooLong)
    else Take(remaining, length)
  }

  lemma ByteArrayAcceptance(value: Bytes, maximum: usize)
    ensures ByteArrayBytes(value, maximum).Ok? <==> |value| <= maximum && |value| <= 0x7fff_ffff
  {
  }

  lemma ByteArrayRoundTrip(value: Bytes, maximum: usize, tail: Bytes)
    requires ByteArrayBytes(value, maximum).Ok?
    ensures ParseByteArray(ByteArrayBytes(value, maximum).value + tail, maximum) == Ok((value, tail))
  {
    hide VarIntBytes, ParseVarInt;
    assert VarIntBytes(|value|) + value + tail == VarIntBytes(|value|) + (value + tail);
    VarIntRoundTrip(|value|, value + tail);
    TakeFront(value, tail);
  }

  /** Where `decode_byte_array` leaves its cursor. */
  function ByteArrayCursor(s: Bytes, maximum: usize): Bytes {
    match ParseByteArray(s, maximum)
    case Ok((_, rest)) => rest
    case Err(_) => if ParseVarInt(s).Ok? && ParseVarInt(s).value.0 < 0 then ParseVarInt(s).value.1 else s
  }

  /** A failure leaves the input as it was exactly when the length is not negative. */
  lemma ByteArrayRestored(s: Bytes, maximum: usize)
    requires ParseByteArray(s, maximum).Err?
    ensures ByteArrayCursor(s, maximum) == s <==> ParseVarInt(s).Ok? ==> ParseVarInt(s).value.0 >= 0
  {
    hide ParseVarInt;
  }

  /** For instance, the length -1 is consumed. */
  lemma NegativeLengthLost(maximum: usize, tail: Bytes)
    ensures ParseByteArray(VarIntBytes(-1) + tail, maximum) == Err(VarIntTooLong)
    ensures ByteArrayCursor(VarIntBytes(-1) + tail, maximum) == tail
  {
    hide ParseVarInt, VarIntBytes;
    VarIntRoundTrip(-1, tail);
  }

  method EncodeByteArray(value: Bytes, maximum: usize, output: Output) returns (r: Result<(), CodecError>)
    modifies output
    ensures match ByteArrayBytes(value, maximum)
            case Ok(b) => r == Ok(()) && output.bytes == old(output.bytes) + b
            case Err(e) => r == Err(e) && output.bytes == old(output.bytes)
  {
    if |value| > maximum {
      return Err(StringTooLong);
    }
    if |value| > I32_MAX {
      return Err(VarIntTooLong);
    }
    EncodeVarInt(|value|, output);
    output.bytes := output.bytes + value;
    return Ok(());
  }

  /** A negative length is the one failure that leaves the cursor past the length. */
  method DecodeByteArray(input: Input, maximum: usize) returns (r: Result<Bytes, CodecError>)
    modifies input
    ensures Agrees(ParseByteArray(old(input.rest), maximum), r, input.rest)
    ensures input.rest == ByteArrayCursor(old(input.rest), maximum)
  {
    var source := input.rest;
    var length :- DecodeVarInt(input);
    if length < 0 {
      return Err(VarIntTooLong);
    }
    if length > maximum {
      input.rest := source;
      return Err(StringTooLong);
    }
    if |input.rest| < length {
      input.rest := source;
      return Err(IncompleteInput);
    }
    r := Ok(input.rest[..length]);
    input.rest := input.rest[length..];
  }

  // ---------------------------------------------------------------------------
  // Packed positions
  // ---------------------------------------------------------------------------

  const TWO_12: int := 0x1000
  const TWO_26: int := 0x400_0000
  const TWO_38: int := 0x40_0000_0000

  datatype Position = Position(x: i32, y: i32, z: i32)

  /** The unsigned 64-bit word: 26 bits of x, 26 bits of z, 12 bits of y. */
  function PackedWord(p: Position): u64 {
    TWO_38 * (p.x % TWO_26) + TWO_12 * (p.z % TWO_26) + p.y % TWO_12
  }

  function PositionBytes(p: Position): (b: Bytes)
    ensures |b| == 8
  {
    Widths();
    BigEndian(PackedWord(p), 8)
  }

  /** `value << shift` on an `i64`: the bits that leave the word are lost. */
  function ShiftLeft(v: i64, factor: nat): i64 {
    Signed((v * factor) % TWO_64, TWO_64)
  }

  /** `decode_position`: arithmetic right shifts are floor divisions, which is what Dafny's `/` is here. */
  function Unpack(v: i64): (int, int, int) {
    (v / TWO_38, ShiftLeft(v, 0x10_0000_0000_0000) / 0x10_0000_0000_0000, ShiftLeft(v, TWO_26) / TWO_38)
  }

  /** Reads `p` cut to the packed widths and sign-extended. */
  function Truncated(p: Position): (int, int, int) {
    (Signed(p.x % TWO_26, TWO_26), Signed(p.y % TWO_12, TWO_12), Signed(p.z % TWO_26, TWO_26))
  }

  /** Unpacking any 64-bit word reads its three fields with their signs. */
  lemma UnpackFields(x: int, y: int, z: int)
    requires 0 <= x < TWO_26 && 0 <= z < TWO_26 && 0 <= y < TWO_12
    ensures Unpack(Signed(TWO_38 * x + TWO_12 * z + y, TWO_64))
         == (Signed(x, TWO_26), Signed(y, TWO_12), Signed(z, TWO_26))
  {
    var word := TWO_38 * x + TWO_12 * z + y;
    var v: i64 := Signed(word, TWO_64);
    assert v == TWO_38 * Signed(x, TWO_26) + TWO_12 * z + y;
    TopField(word, v, x, y, z);
    MiddleField(v, word, x, y, z);
    LowField(v, word, x, y, z);
  }

  lemma TopField(word: int, v: i64, x: int, y: int, z: int)
    requires 0 <= z < TWO_26 && 0 <= y < TWO_12
    requires v == TWO_38 * Signed(x, TWO_26) + TWO_12 * z + y
    ensures v / TWO_38 == Signed(x, TWO_26)
  {
  }

  lemma MiddleField(v: i64, word: int, x: int, y: int, z: int)
    requires 0 <= x < TWO_26 && 0 <= z < TWO_26 && 0 <= y < TWO_12
    requires word == TWO_38 * x + TWO_12 * z + y && v == Signed(word, TWO_64)
    ensures ShiftLeft(v, TWO_26) / TWO_38 == Signed(z, TWO_26)
  {
    var low := TWO_38 * z + TWO_26 * y;
    assert word * TWO_26 == TWO_64 * x + low;
    assert (v * TWO_26) % TWO_64 == low;
    assert Signed(low, TWO_64) == TWO_38 * Signed(z, TWO_26) + TWO_26 * y;
  }

  lemma LowField(v: i64, word: int, x: int, y: int, z: int)
    requires 0 <= x < TWO_26 && 0 <= z < TWO_26 && 0 <= y < TWO_12
    requires word == TWO_38 * x + TWO_12 * z + y && v == Signed(word, TWO_64)
    ensures ShiftLeft(v, 0x10_0000_0000_0000) / 0x10_0000_0000_0000 == Signed(y, TWO_12)
  {
    var shift := 0x10_0000_0000_0000;
    var lost := TWO_26 * x + z - (if v == word then 0 else shift);
    assert v * shift == TWO_64 * lost + shift * y;
    LowWord(lost, shift * y);
    LowShifted(y);
  }

  lemma LowWord(lost: int, kept: int)
    requires 0 <= kept < TWO_64
    ensures (TWO_64 * lost + kept) % TWO_64 == kept
  {
  }

  lemma LowShifted(y: int)
    requires 0 <= y < TWO_12
    ensures Signed(0x10_0000_0000_0000 * y, TWO_64) == 0x10_0000_0000_0000 * Signed(y, TWO_12)
    ensures Signed(0x10_0000_0000_0000 * y, TWO_64) / 0x10_0000_0000_0000 == Signed(y, TWO_12)
  {
  }

  function ParsePosition(s: Bytes): Parsed<Position> {
    var (v, rest) :- ParseI64(s);
    UnpackSplit(v);
    var (x, y, z) := Unpack(v);
    Ok((Position(x, y, z), rest))
  }

  /** Every word has three fields, and each of them fits an `i32`. */
  lemma UnpackSplit(v: i64)
    ensures var word := Unsigned(v, TWO_64);
            Unpack(v) == (Signed(word / TWO_38, TWO_26), Signed(word % TWO_12, TWO_12),
                          Signed(word / TWO_12 % TWO_26, TWO_26))
  {
    var word := Unsigned(v, TWO_64);
    var x, z, y := word / TWO_38, word / TWO_12 % TWO_26, word % TWO_12;
    assert word / TWO_12 / TWO_26 == x;
    assert word == TWO_38 * x + TWO_12 * z + y;
    UnpackFields(x, y, z);
  }

  /** Outside the packed ranges a position comes back wrapped, inside them it comes back unchanged. */
  lemma PositionRoundTrip(p: Position, tail: Bytes)
    ensures ParsePosition(PositionBytes(p) + tail).Ok?
    ensures var (q, rest) := ParsePosition(PositionBytes(p) + tail).value;
            && rest == tail
            && (q.x, q.y, q.z) == Truncated(p)
            && (q == p <==> InPackedRange(p))
  {
    TakeFront(PositionBytes(p), tail);
    Widths();
    UnpackFields(p.x % TWO_26, p.y % TWO_12, p.z % TWO_26);
    SignedRange(p.x, TWO_26);
    SignedRange(p.z, TWO_26);
    SignedRange(p.y, TWO_12);
  }

  lemma SignedRange(v: int, modulus: int)
    requires modulus == TWO_12 || modulus == TWO_26
    ensures Signed(v % modulus, modulus) == v <==> -modulus / 2 <= v < modulus / 2
  {
  }

  /** Every 8-byte word is the encoding of the position it decodes to. */
  lemma PositionOnto(b: Bytes)
    requires |b| == 8
    ensures ParsePosition(b).Ok? && PositionBytes(ParsePosition(b).value.0) == b
  {
    Widths();
    var word := FromBigEndian(b);
    assert b[..8] == b;
    var v: i64 := Signed(word, TWO_64);
    UnpackSplit(v);
    var x, z, y := word / TWO_38, word / TWO_12 % TWO_26, word % TWO_12;
    assert word / TWO_12 / TWO_26 == x;
    assert Signed(x, TWO_26) % TWO_26 == x;
    assert Signed(z, TWO_26) % TWO_26 == z;
    assert Signed(y, TWO_12) % TWO_12 == y;
    BigEndianOnto(b);
  }

  predicate InPackedRange(p: Position) {
    && -TWO_26 / 2 <= p.x < TWO_26 / 2 && -TWO_26 / 2 <= p.z < TWO_26 / 2 && -TWO_12 / 2 <= p.y < TWO_12 / 2
  }

  /** Every decoded position lies in the packed ranges. */
  lemma ParsedPositionInRange(s: Bytes)
    requires ParsePosition(s).Ok?
    ensures InPackedRange(ParsePosition(s).value.0)
  {
    hide ParseI64, Unpack;
    var v := ParseI64(s).value.0;
    UnpackSplit(v);
  }

  /** The three masked fields have no bit in common, so `|` is addition; the shift may reach the sign bit. */
  method EncodePosition(x: i32, y: i32, z: i32, output: Output)
    modifies output
    ensures output.bytes == old(output.bytes) + PositionBytes(Position(x, y, z))
  {
    hide I64;
    var xBits, yBits, zBits := x % TWO_26, y % TWO_12, z % TWO_26;
    var value: i64 := ShiftLeft(xBits, TWO_38) + zBits * TWO_12 + yBits;
    PackedValue(Position(x, y, z), value);
    output.bytes := output.bytes + I64(value);
  }

  lemma PackedValue(p: Position, value: i64)
    requires value == ShiftLeft(p.x % TWO_26, TWO_38) + p.z % TWO_26 * TWO_12 + p.y % TWO_12
    ensures I64(value) == PositionBytes(p)
  {
    hide BigEndian;
    var top := p.x % TWO_26 * TWO_38;
    assert 0 <= top < TWO_64;
    assert ShiftLeft(p.x % TWO_26, TWO_38) == Signed(top, TWO_64);
    assert Unsigned(value, TWO_64) == PackedWord(p);
  }

  method DecodePosition(input: Input) returns (r: Result<Position, CodecError>)
    modifies input
    ensures Transactional(ParsePosition(old(input.rest)), r, old(input.rest), input.rest)
  {
    hide ParseI64, Unpack;
    var v :- DecodeI64(input);
    UnpackSplit(v);
    var (x, y, z) := Unpack(v);
    return Ok(Position(x, y, z));
  }
}
