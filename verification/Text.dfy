/** Strings: UTF-8 (section 3 of RFC 3629), UTF-16 unit counts (section 2.1 of RFC 2781) and the bounded String of
    `primitives.rs`. A Rust `str` is modelled as the sequence of its Unicode scalar values. */
module Text {
  import opened Wire
  import opened VarInt

  type Scalar = c: int | 0 <= c < 0xD800 || 0xE000 <= c < 0x11_0000
  type Text = seq<Scalar>

  function ScalarUtf8(c: Scalar): (b: Bytes)
    ensures 1 <= |b| <= 4
  {
    if c < 0x80 then [c]
    else if c < 0x800 then [0xC0 + c / 64, 0x80 + c % 64]
    else if c < 0x1_0000 then [0xE0 + c / 4096, 0x80 + c / 64 % 64, 0x80 + c % 64]
    else [0xF0 + c / 0x4_0000, 0x80 + c / 4096 % 64, 0x80 + c / 64 % 64, 0x80 + c % 64]
  }

  function Utf8(t: Text): Bytes {
    if t == [] then [] else ScalarUtf8(t[0]) + Utf8(t[1..])
  }

  function Utf16Units(t: Text): nat {
    if t == [] then 0 else (if t[0] < 0x1_0000 then 1 else 2) + Utf16Units(t[1..])
  }

  /** The UTF-16 code units of a text: from 0x10000 on, a scalar is a surrogate pair. */
  function Utf16(t: Text): seq<u16> {
    if t == [] then []
    else if t[0] < 0x1_0000 then [t[0]] + Utf16(t[1..])
    else [0xD800 + (t[0] - 0x1_0000) / 0x400, 0xDC00 + (t[0] - 0x1_0000) % 0x400] + Utf16(t[1..])
  }

  function Paired(high: int, low: int): Scalar
    requires 0xD800 <= high < 0xDC00 && 0xDC00 <= low < 0xE000
  {
    0x1_0000 + 0x400 * (high - 0xD800) + (low - 0xDC00)
  }

  /** The text code units stand for; none when a surrogate is not part of a pair. */
  function FromUtf16(u: seq<u16>): Option<Text> {
    if u == [] then Some([])
    else if !(0xD800 <= u[0] < 0xE000) then
      match FromUtf16(u[1..])
      case None => None
      case Some(t) => Some([u[0]] + t)
    else if u[0] < 0xDC00 && |u| > 1 && 0xDC00 <= u[1] < 0xE000 then
      match FromUtf16(u[2..])
      case None => None
      case Some(t) => Some([Paired(u[0], u[1])] + t)
    else None
  }

  lemma {:induction false} Utf16RoundTrip(t: Text)
    ensures FromUtf16(Utf16(t)) == Some(t)
  {
    hide FromUtf16, Utf16;
    if t == [] {
      NoUnits();
    } else {
      Utf16RoundTrip(t[1..]);
      FirstUnits(t[0], t[1..], Utf16(t[1..]));
      assert [t[0]] + t[1..] == t;
    }
  }

  lemma NoUnits()
    ensures Utf16([]) == [] && FromUtf16([]) == Some([])
  {
  }

  lemma FirstUnits(c: Scalar, t: Text, u: seq<u16>)
    requires u == Utf16(t) && FromUtf16(u) == Some(t)
    ensures FromUtf16(Utf16([c] + t)) == Some([c] + t)
  {
    assert ([c] + t)[1..] == t;
    if c < 0x1_0000 {
      assert ([c] + u)[1..] == u;
    } else {
      var high: u16, low: u16 := 0xD800 + (c - 0x1_0000) / 0x400, 0xDC00 + (c - 0x1_0000) % 0x400;
      assert ([high, low] + u)[2..] == u;
    }
  }

  lemma {:induction false} Utf16Onto(u: seq<u16>)
    requires FromUtf16(u).Some?
    ensures Utf16(FromUtf16(u).value) == u
  {
    if u != [] {
      var n := if 0xD800 <= u[0] < 0xE000 then 2 else 1;
      Utf16Onto(u[n..]);
      var t := FromUtf16(u).value;
      assert t[1..] == FromUtf16(u[n..]).value;
      assert u[..n] + u[n..] == u;
    }
  }

  /** `encode_utf16().count()`. */
  lemma {:induction false} UnitsCounted(t: Text)
    ensures Utf16Units(t) == |Utf16(t)|
  {
    if t != [] {
      UnitsCounted(t[1..]);
    }
  }

  /** Below 0x10000 a scalar is one unit. */
  lemma {:induction false} BasicUnits(t: Text)
    requires forall i :: 0 <= i < |t| ==> t[i] < 0x1_0000
    ensures Utf16Units(t) == |t|
  {
    if t != [] {
      BasicUnits(t[1..]);
    }
  }

  predicate Continuation(b: byte) {
    0x80 <= b < 0xC0
  }

  // The value carried by a sequence of two, three or four bytes; none when it is overlong, a surrogate or too large.

  function Two(a: byte, b: byte): Option<Scalar> {
    var c: int := 64 * (a - 0xC0) + (b - 0x80);
    if 0xC0 <= a < 0xE0 && Continuation(b) && c >= 0x80 then Some(c) else None
  }

  function Three(a: byte, b: byte, d: byte): Option<Scalar> {
    var c: int := 4096 * (a - 0xE0) + 64 * (b - 0x80) + (d - 0x80);
    if 0xE0 <= a < 0xF0 && Continuation(b) && Continuation(d) && c >= 0x800 && !(0xD800 <= c < 0xE000)
    then Some(c) else None
  }

  function Four(a: byte, b: byte, d: byte, e: byte): Option<Scalar> {
    var c: int := 0x4_0000 * (a - 0xF0) + 4096 * (b - 0x80) + 64 * (d - 0x80) + (e - 0x80);
    if 0xF0 <= a && Continuation(b) && Continuation(d) && Continuation(e) && 0x1_0000 <= c < 0x11_0000
    then Some(c) else None
  }

  /** The scalar value the first bytes of `b` encode and their number, if they encode one. */
  function FirstScalar(b: Bytes): (r: Option<(Scalar, nat)>)
    ensures r.Some? ==> 1 <= r.value.1 <= 4 && r.value.1 <= |b|
  {
    if b == [] then None
    else if b[0] < 0x80 then Some((b[0], 1))
    else if b[0] < 0xE0 then if |b| < 2 then None else Sized(Two(b[0], b[1]), 2)
    else if b[0] < 0xF0 then if |b| < 3 then None else Sized(Three(b[0], b[1], b[2]), 3)
    else if |b| < 4 then None else Sized(Four(b[0], b[1], b[2], b[3]), 4)
  }

  function Sized(c: Option<Scalar>, n: nat): Option<(Scalar, nat)> {
    match c
    case None => None
    case Some(value) => Some((value, n))
  }

  /** `std::str::from_utf8`. */
  function FromUtf8(b: Bytes): Option<Text> {
    if b == [] then Some([])
    else
      match FirstScalar(b)
      case None => None
      case Some((c, n)) =>
        match FromUtf8(b[n..])
        case None => None
        case Some(t) => Some([c] + t)
  }

  lemma FirstScalarOfEncoding(c: Scalar, tail: Bytes)
    ensures FirstScalar(ScalarUtf8(c) + tail) == Some((c, |ScalarUtf8(c)|))
  {
    var b := ScalarUtf8(c);
    if |b| == 2 {
      assert Two(b[0], b[1]) == Some(c);
    } else if |b| == 3 {
      ThreeOfEncoding(c);
    } else if |b| == 4 {
      FourOfEncoding(c);
    }
  }

  lemma Digit(c: nat, high: nat, low: nat)
    requires c == 64 * high + low && low < 64
    ensures c / 64 == high && c % 64 == low
  {
  }

  lemma Digits(c: nat)
    ensures c / 4096 == c / 64 / 64 && c / 0x4_0000 == c / 4096 / 64
  {
  }

  lemma ThreeOfEncoding(c: Scalar)
    requires 0x800 <= c < 0x1_0000
    ensures Three(0xE0 + c / 4096, 0x80 + c / 64 % 64, 0x80 + c % 64) == Some(c)
  {
    Digits(c);
  }

  lemma FourOfEncoding(c: Scalar)
    requires 0x1_0000 <= c
    ensures Four(0xF0 + c / 0x4_0000, 0x80 + c / 4096 % 64, 0x80 + c / 64 % 64, 0x80 + c % 64) == Some(c)
  {
    Digits(c);
  }

  lemma EncodingOfTwo(a: byte, b: byte)
    requires Two(a, b).Some?
    ensures ScalarUtf8(Two(a, b).value) == [a, b]
  {
    Digit(Two(a, b).value, a - 0xC0, b - 0x80);
  }

  lemma EncodingOfThree(a: byte, b: byte, d: byte)
    requires Three(a, b, d).Some?
    ensures ScalarUtf8(Three(a, b, d).value) == [a, b, d]
  {
    var c := Three(a, b, d).value;
    var high: int := 64 * (a - 0xE0) + (b - 0x80);
    Digit(c, high, d - 0x80);
    Digit(high, a - 0xE0, b - 0x80);
    Digits(c);
  }

  lemma EncodingOfFour(a: byte, b: byte, d: byte, e: byte)
    requires Four(a, b, d, e).Some?
    ensures ScalarUtf8(Four(a, b, d, e).value) == [a, b, d, e]
  {
    FourDigits(a - 0xF0, b - 0x80, d - 0x80, e - 0x80);
  }

  lemma FourDigits(a: nat, b: nat, d: nat, e: nat)
    requires b < 64 && d < 64 && e < 64
    ensures var c := 0x4_0000 * a + 4096 * b + 64 * d + e;
            c / 0x4_0000 == a && c / 4096 % 64 == b && c / 64 % 64 == d && c % 64 == e
  {
    var top := 64 * a + b;
    var high := 64 * top + d;
    var c := 64 * high + e;
    Digit(c, high, e);
    Digit(high, top, d);
    Digit(top, a, b);
    Digits(c);
  }

  lemma EncodingOfFirstScalar(b: Bytes)
    requires FirstScalar(b).Some?
    ensures var (c, n) := FirstScalar(b).value; ScalarUtf8(c) == b[..n]
  {
    if 0x80 <= b[0] < 0xE0 {
      EncodingOfTwo(b[0], b[1]);
    } else if 0xE0 <= b[0] < 0xF0 {
      EncodingOfThree(b[0], b[1], b[2]);
    } else if 0xF0 <= b[0] {
      EncodingOfFour(b[0], b[1], b[2], b[3]);
    }
  }

  lemma {:induction false} Utf8RoundTrip(t: Text)
    ensures FromUtf8(Utf8(t)) == Some(t)
  {
    if t != [] {
      var head, tail := ScalarUtf8(t[0]), Utf8(t[1..]);
      FirstScalarOfEncoding(t[0], tail);
      assert (head + tail)[|head|..] == tail;
      Utf8RoundTrip(t[1..]);
      assert [t[0]] + t[1..] == t;
    }
  }

  lemma {:induction false} Utf8Onto(b: Bytes)
    requires FromUtf8(b).Some?
    ensures Utf8(FromUtf8(b).value) == b
  {
    if b != [] {
      var (c, n) := FirstScalar(b).value;
      EncodingOfFirstScalar(b);
      Utf8Onto(b[n..]);
      var t := FromUtf8(b[n..]).value;
      assert ([c] + t)[1..] == t;
      assert b[..n] + b[n..] == b;
    }
  }

  /** The byte bound of the codec is implied by its unit bound. */
  lemma {:induction false} ThreeBytesPerUnit(t: Text)
    ensures |Utf8(t)| <= 3 * Utf16Units(t)
  {
    if t != [] {
      ThreeBytesPerUnit(t[1..]);
    }
  }

  // ---------------------------------------------------------------------------
  // The bounded String
  // ---------------------------------------------------------------------------

  function SaturatingTriple(n: usize): usize {
    if 3 * n > USIZE_MAX then USIZE_MAX else 3 * n
  }

  /** The length prefix and the bytes of a string, accepted or not. */
  function Prefixed(t: Text): Bytes {
    VarIntBytes(AsI32(|Utf8(t)|)) + Utf8(t)
  }

  predicate Accepted(t: Text, maxUnits: usize) {
    var b := Utf8(t);
    |b| <= SaturatingTriple(maxUnits) && |b| <= I32_MAX && Utf16Units(t) <= maxUnits
  }

  /** The bytes `encode_string` appends. */
  function StringBytes(t: Text, maxUnits: usize): Result<Bytes, CodecError> {
    if Accepted(t, maxUnits) then Ok(Prefixed(t)) else Err(StringTooLong)
  }

  function ParseString(s: Bytes, maxUnits: usize): (r: Parsed<Text>)
    ensures r.Ok? ==> |r.value.1| < |s|
  {
    var (length, remaining) :- ParseVarInt(s);
    if length < 0 then Err(NegativeStringLength)
    else if length > SaturatingTriple(maxUnits) then Err(StringTooLong)
    else if length > |remaining| then Err(IncompleteInput)
    else
      match FromUtf8(remaining[..length])
      case None => Err(InvalidUtf8)
      case Some(t) => if Utf16Units(t) > maxUnits then Err(StringTooLong) else Ok((t, remaining[length..]))
  }

  /** `encode_string` refuses a string for its UTF-16 length or for not fitting an `i32`, and for nothing else. */
  lemma StringAcceptance(t: Text, maxUnits: usize)
    ensures StringBytes(t, maxUnits).Ok? <==> |Utf16(t)| <= maxUnits && |Utf8(t)| <= I32_MAX
  {
    UnitsCounted(t);
    ThreeBytesPerUnit(t);
  }

  /** So every text of at most `maxUnits` scalars below 0x10000 is accepted, if its bytes fit an `i32`. */
  lemma BasicTextAccepted(t: Text, maxUnits: usize)
    requires |t| <= maxUnits && |Utf8(t)| <= I32_MAX
    requires forall i :: 0 <= i < |t| ==> t[i] < 0x1_0000
    ensures StringBytes(t, maxUnits).Ok?
  {
    BasicUnits(t);
    UnitsCounted(t);
    StringAcceptance(t, maxUnits);
  }

  lemma StringRoundTrip(t: Text, maxUnits: usize, tail: Bytes)
    requires StringBytes(t, maxUnits).Ok?
    ensures ParseString(StringBytes(t, maxUnits).value + tail, maxUnits) == Ok((t, tail))
  {
    hide Utf8, FromUtf8, Utf16Units, VarIntBytes, ParseVarInt, SaturatingTriple;
    var b := Utf8(t);
    assert VarIntBytes(|b|) + b + tail == VarIntBytes(|b|) + (b + tail);
    VarIntRoundTrip(|b|, b + tail);
    assert (b + tail)[..|b|] == b && (b + tail)[|b|..] == tail;
    Utf8RoundTrip(t);
  }

  /** What the encoder refuses for its UTF-16 length the decoder refuses too. */
  lemma LongStringRefused(t: Text, maxUnits: usize, tail: Bytes)
    requires |Utf16(t)| > maxUnits && |Utf8(t)| <= I32_MAX
    ensures ParseString(Prefixed(t) + tail, maxUnits) == Err(StringTooLong)
  {
    hide VarIntBytes, ParseVarInt, Utf16, Utf16Units, FromUtf8;
    var b := Utf8(t);
    assert Prefixed(t) + tail == VarIntBytes(|b|) + (b + tail);
    VarIntRoundTrip(|b|, b + tail);
    assert (b + tail)[..|b|] == b;
    Utf8RoundTrip(t);
    UnitsCounted(t);
  }

  /** The other refusals: a negative length, and bytes that are not UTF-8. */
  lemma BadStringRefused(b: Bytes, maxUnits: usize, negative: i32, tail: Bytes)
    requires negative < 0 && FromUtf8(b).None? && |b| <= I32_MAX && |b| <= 3 * maxUnits
    ensures ParseString(VarIntBytes(negative) + tail, maxUnits) == Err(NegativeStringLength)
    ensures ParseString(VarIntBytes(|b|) + (b + tail), maxUnits) == Err(InvalidUtf8)
  {
    hide VarIntBytes, ParseVarInt, FromUtf8;
    VarIntRoundTrip(negative, tail);
    VarIntRoundTrip(|b|, b + tail);
    assert (b + tail)[..|b|] == b;
  }

  /** Cut anywhere, an encoded string is incomplete. */
  lemma StringCut(t: Text, maxUnits: usize, k: nat)
    requires StringBytes(t, maxUnits).Ok? && k < |StringBytes(t, maxUnits).value|
    ensures ParseString(StringBytes(t, maxUnits).value[..k], maxUnits) == Err(IncompleteInput)
  {
    hide Utf8, FromUtf8, Utf16Units, VarIntBytes, ParseVarInt, SaturatingTriple;
    var b := Utf8(t);
    var prefix := VarIntBytes(|b|);
    if k < |prefix| {
      assert (prefix + b)[..k] == prefix[..k];
      VarIntPrefixIncomplete(|b|, k);
    } else {
      assert (prefix + b)[..k] == prefix + b[..k - |prefix|];
      VarIntRoundTrip(|b|, b[..k - |prefix|]);
    }
  }

  /** A decoded string is one its encoder accepts, in no more bytes than were read. */
  lemma StringMinimal(s: Bytes, maxUnits: usize)
    requires ParseString(s, maxUnits).Ok?
    ensures var (t, rest) := ParseString(s, maxUnits).value;
            StringBytes(t, maxUnits).Ok? && |StringBytes(t, maxUnits).value| + |rest| <= |s|
  {
    hide Utf8, FromUtf8, Utf16Units, VarIntBytes, ParseVarInt, SaturatingTriple;
    var (length, remaining) := ParseVarInt(s).value;
    Utf8Onto(remaining[..length]);
    VarIntMinimal(s);
  }

  method EncodeString(value: Text, maxUnits: usize, output: Output) returns (r: Result<(), CodecError>)
    modifies output
    ensures match StringBytes(value, maxUnits)
            case Ok(b) => r == Ok(()) && output.bytes == old(output.bytes) + b
            case Err(e) => r == Err(e) && output.bytes == old(output.bytes)
  {
    var maxBytes := SaturatingTriple(maxUnits);
    var b := Utf8(value);
    if |b| > maxBytes || |b| > I32_MAX || Utf16Units(value) > maxUnits {
      return Err(StringTooLong);
    }
    EncodeVarInt(AsI32(|b|), output);
    output.bytes := output.bytes + b;
    return Ok(());
  }

  method DecodeString(input: Input, maxUnits: usize) returns (r: Result<Text, CodecError>)
    modifies input
    ensures Transactional(ParseString(old(input.rest), maxUnits), r, old(input.rest), input.rest)
  {
    var remaining := new Input(input.rest);
    var length :- DecodeVarInt(remaining);
    if length < 0 {
      return Err(NegativeStringLength);
    }
    if length > SaturatingTriple(maxUnits) {
      return Err(StringTooLong);
    }
    if length > |remaining.rest| {
      return Err(IncompleteInput);
    }
    var value := FromUtf8(remaining.rest[..length]);
    if value.None? {
      return Err(InvalidUtf8);
    }
    if Utf16Units(value.value) > maxUnits {
      return Err(StringTooLong);
    }
    input.rest := remaining.rest[length..];
    return Ok(value.value);
  }
}
