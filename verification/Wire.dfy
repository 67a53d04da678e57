/** Bytes, machine integers, cursors and error values shared by every codec. */
module Wire {

  type byte = b: int | 0 <= b < 256
  type Bytes = seq<byte>

  type i8 = v: int | -0x80 <= v < 0x80
  type u16 = v: int | 0 <= v < 0x1_0000
  type i16 = v: int | -0x8000 <= v < 0x8000
  type u32 = v: int | 0 <= v < TWO_32
  type i32 = v: int | -0x8000_0000 <= v < 0x8000_0000
  type u64 = v: int | 0 <= v < TWO_64
  type i64 = v: int | -0x8000_0000_0000_0000 <= v < 0x8000_0000_0000_0000
  type usize = u64

  const TWO_32: int := 0x1_0000_0000
  const TWO_64: int := 0x1_0000_0000_0000_0000
  const I32_MAX: int := 0x7fff_ffff
  const USIZE_MAX: int := TWO_64 - 1

  datatype Option<+T> = None | Some(value: T)

  datatype Result<+T, +E> = Ok(value: T) | Err(error: E) {
    predicate IsFailure() {
      Err?
    }

    function PropagateFailure<U>(): Result<U, E>
      requires Err?
    {
      Err(error)
    }

    function Extract(): T
      requires Ok?
    {
      value
    }
  }

  /** The errors of `primitives.rs`. `Aborted` is not one of them: it stands for the panic of an overflowing
      `usize` operation, which ends the thread instead of returning. */
  datatype CodecError =
    | IncompleteInput
    | VarIntTooLong
    | VarLongTooLong
    | NegativeStringLength
    | StringTooLong
    | InvalidUtf8
    | InvalidBoolean
    | Aborted

  /** What a decoder finds at the front of its input: a value and the bytes after it. */
  type Parsed<+T> = Result<(T, Bytes), CodecError>

  /** The `&mut &[u8]` cursor of the decoders. */
  class Input {
    var rest: Bytes

    constructor (bytes: Bytes)
      ensures rest == bytes
    {
      rest := bytes;
    }
  }

  /** The `&mut Vec<u8>` of the encoders. */
  class Output {
    var bytes: Bytes

    constructor ()
      ensures bytes == []
    {
      bytes := [];
    }
  }

  /** A decoder that agrees with `spec` and moves its cursor only when it succeeds. */
  ghost predicate Transactional<T, E>(spec: Result<(T, Bytes), E>, r: Result<T, E>, before: Bytes, after: Bytes) {
    match spec
    case Ok((value, rest)) => r == Ok(value) && after == rest
    case Err(error) => r == Err(error) && after == before
  }

  /** A decoder that agrees with `spec` but leaves its cursor anywhere when it fails. */
  ghost predicate Agrees<T, E>(spec: Result<(T, Bytes), E>, r: Result<T, E>, after: Bytes) {
    match spec
    case Ok((value, rest)) => r == Ok(value) && after == rest
    case Err(error) => r == Err(error)
  }

  // ---------------------------------------------------------------------------
  // Fixed-width integers
  // ---------------------------------------------------------------------------

  function Pow256(width: nat): (p: nat)
    ensures p > 0
  {
    if width == 0 then 1 else 256 * Pow256(width - 1)
  }

  function FromBigEndian(b: Bytes): (n: nat)
    ensures n < Pow256(|b|)
  {
    if b == [] then 0 else FromBigEndian(b[..|b| - 1]) * 256 + b[|b| - 1]
  }

  function BigEndian(n: nat, width: nat): (b: Bytes)
    requires n < Pow256(width)
    ensures |b| == width && FromBigEndian(b) == n
  {
    if width == 0 then [] else BigEndian(n / 256, width - 1) + [n % 256]
  }

  lemma {:induction false} BigEndianOnto(b: Bytes)
    ensures BigEndian(FromBigEndian(b), |b|) == b
  {
    if b != [] {
      var front, last := b[..|b| - 1], b[|b| - 1];
      BigEndianOnto(front);
      assert FromBigEndian(b) / 256 == FromBigEndian(front) && FromBigEndian(b) % 256 == last;
    }
  }

  function FromLittleEndian(b: Bytes): (n: nat)
    ensures n < Pow256(|b|)
  {
    if b == [] then 0 else b[0] + 256 * FromLittleEndian(b[1..])
  }

  function LittleEndian(n: nat, width: nat): (b: Bytes)
    requires n < Pow256(width)
    ensures |b| == width && FromLittleEndian(b) == n
  {
    if width == 0 then [] else [n % 256] + LittleEndian(n / 256, width - 1)
  }

  lemma DivideTwice(n: nat, p: nat)
    requires p > 0
    ensures n / 256 / p == n / (256 * p)
  {
    var q, r := n / 256 / p, n / 256 % p;
    assert n / 256 == q * p + r;
    assert n == 256 * (q * p) + (256 * r + n % 256);
    assert 256 * (q * p) == q * (256 * p);
    Quotient(n, 256 * p, q, 256 * r + n % 256);
  }

  lemma Quotient(n: int, d: int, q: int, r: int)
    requires d > 0 && 0 <= r < d && n == q * d + r
    ensures n / d == q
  {
    var k, m := n / d, n % d;
    assert (k - q) * d == r - m;
    if k > q {
      Multiple(k - q, d);
    } else if k < q {
      Multiple(q - k, d);
    }
  }

  lemma Multiple(x: int, d: int)
    requires x >= 1 && d > 0
    ensures x * d >= d
  {
  }

  /** Byte `i` of a big-endian word is the digit of weight 256^(width - 1 - i). */
  lemma {:induction false} BigEndianDigits(n: nat, width: nat, i: nat)
    requires n < Pow256(width) && i < width
    ensures BigEndian(n, width)[i] == n / Pow256(width - 1 - i) % 256
  {
    if i < width - 1 {
      BigEndianDigits(n / 256, width - 1, i);
      DivideTwice(n, Pow256(width - 2 - i));
    }
  }

  /** Byte `i` of a little-endian word is the digit of weight 256^i. */
  lemma {:induction false} LittleEndianDigits(n: nat, width: nat, i: nat)
    requires n < Pow256(width) && i < width
    ensures LittleEndian(n, width)[i] == n / Pow256(i) % 256
  {
    if i > 0 {
      LittleEndianDigits(n / 256, width - 1, i - 1);
      DivideTwice(n, Pow256(i - 1));
    }
  }

  /** Negative numbers are written in two's complement: minus one is all ones, the least number the top bit alone. */
  lemma TwosComplement()
    ensures I8(-1) == [0xFF] && I8(-0x80) == [0x80]
    ensures I16(-1) == [0xFF, 0xFF] && I16(-0x8000) == [0x80, 0]
    ensures I32(-1) == [0xFF, 0xFF, 0xFF, 0xFF] && I32(-0x8000_0000) == [0x80, 0, 0, 0]
    ensures I64(-1) == [0xFF, 0xFF, 0xFF, 0xFF, 0xFF, 0xFF, 0xFF, 0xFF]
    ensures I64(-0x8000_0000_0000_0000) == [0x80, 0, 0, 0, 0, 0, 0, 0]
  {
    hide BigEndian;
    AllOnes();
    TopBit();
  }

  lemma AllOnes()
    ensures Pow256(2) == 0x1_0000 && BigEndian(0xFFFF, 2) == [0xFF, 0xFF]
    ensures Pow256(4) == TWO_32 && BigEndian(0xFFFF_FFFF, 4) == [0xFF, 0xFF, 0xFF, 0xFF]
    ensures Pow256(8) == TWO_64
         && BigEndian(0xFFFF_FFFF_FFFF_FFFF, 8) == [0xFF, 0xFF, 0xFF, 0xFF, 0xFF, 0xFF, 0xFF, 0xFF]
  {
    hide BigEndian, Pow256;
    Widths();
    OneMore(0, 0, 0xFF);
    OneMore(0xFF, 1, 0xFF);
    OneMore(0xFFFF, 2, 0xFF);
    OneMore(0xFF_FFFF, 3, 0xFF);
    OneMore(0xFFFF_FFFF, 4, 0xFF);
    OneMore(0xFF_FFFF_FFFF, 5, 0xFF);
    OneMore(0xFFFF_FFFF_FFFF, 6, 0xFF);
    OneMore(0xFF_FFFF_FFFF_FFFF, 7, 0xFF);
  }

  lemma TopBit()
    ensures Pow256(2) == 0x1_0000 && BigEndian(0x8000, 2) == [0x80, 0]
    ensures Pow256(4) == TWO_32 && BigEndian(0x8000_0000, 4) == [0x80, 0, 0, 0]
    ensures Pow256(8) == TWO_64 && BigEndian(0x8000_0000_0000_0000, 8) == [0x80, 0, 0, 0, 0, 0, 0, 0]
  {
    hide BigEndian, Pow256;
    Widths();
    OneMore(0, 0, 0x80);
    OneMore(0x80, 1, 0);
    OneMore(0x8000, 2, 0);
    OneMore(0x80_0000, 3, 0);
    OneMore(0x8000_0000, 4, 0);
    OneMore(0x80_0000_0000, 5, 0);
    OneMore(0x8000_0000_0000, 6, 0);
    OneMore(0x80_0000_0000_0000, 7, 0);
  }

  lemma OneMore(n: nat, width: nat, last: byte)
    requires n < Pow256(width)
    ensures 256 * n + last < Pow256(width + 1)
    ensures BigEndian(256 * n + last, width + 1) == BigEndian(n, width) + [last]
  {
    assert (256 * n + last) / 256 == n && (256 * n + last) % 256 == last;
  }

  /** A Boolean is one byte, 0 or 1, and nothing else is one. */
  lemma BooleanBytes(s: Bytes)
    ensures Bool(false) == [0] && Bool(true) == [1]
    ensures s != [] && s[0] > 1 ==> ParseBool(s) == Err(InvalidBoolean)
  {
  }

  lemma Widths()
    ensures Pow256(1) == 0x100 && Pow256(2) == 0x1_0000 && Pow256(4) == TWO_32 && Pow256(8) == TWO_64
  {
    assert Pow256(3) == 0x100_0000;
    assert Pow256(5) == 0x100 * TWO_32;
    assert Pow256(6) == 0x1_0000 * TWO_32;
    assert Pow256(7) == 0x100_0000 * TWO_32;
  }

  /** Two's complement: the unsigned word that holds `v`, and the number an unsigned word holds. */
  function Unsigned(v: int, modulus: int): int {
    if v < 0 then v + modulus else v
  }

  function Signed(n: int, modulus: int): int {
    if n < modulus / 2 then n else n - modulus
  }

  /** `value as i32`: the low 32 bits, with their sign. */
  function AsI32(n: nat): i32 {
    Signed(n % TWO_32, TWO_32)
  }

  function Take(s: Bytes, n: nat): (r: Parsed<Bytes>)
    ensures r.Ok? ==> |r.value.0| == n && r.value.0 + r.value.1 == s
  {
    if |s| < n then Err(IncompleteInput) else Ok((s[..n], s[n..]))
  }

  /** `encode_u8`, `encode_u16`, …: the big-endian bytes of an unsigned word. */
  function U8(v: byte): (b: Bytes)
    ensures |b| == 1
  {
    [v]
  }

  function U16(v: u16): (b: Bytes)
    ensures |b| == 2
  {
    Widths();
    BigEndian(v, 2)
  }

  function I8(v: i8): (b: Bytes)
    ensures |b| == 1
  {
    [Unsigned(v, 0x100)]
  }

  function I16(v: i16): (b: Bytes)
    ensures |b| == 2
  {
    U16(Unsigned(v, 0x1_0000))
  }

  function I32(v: i32): (b: Bytes)
    ensures |b| == 4
  {
    Widths();
    BigEndian(Unsigned(v, TWO_32), 4)
  }

  function I64(v: i64): (b: Bytes)
    ensures |b| == 8
  {
    Widths();
    BigEndian(Unsigned(v, TWO_64), 8)
  }

  function ParseU8(s: Bytes): Parsed<byte> {
    if s == [] then Err(IncompleteInput) else Ok((s[0], s[1..]))
  }

  function ParseU16(s: Bytes): Parsed<u16> {
    var (b, rest) :- Take(s, 2);
    Widths();
    Ok((FromBigEndian(b), rest))
  }

  function ParseI8(s: Bytes): Parsed<i8> {
    var (b, rest) :- ParseU8(s);
    Ok((Signed(b, 0x100), rest))
  }

  function ParseI16(s: Bytes): Parsed<i16> {
    var (n, rest) :- ParseU16(s);
    Ok((Signed(n, 0x1_0000), rest))
  }

  function ParseI32(s: Bytes): Parsed<i32> {
    var (b, rest) :- Take(s, 4);
    Widths();
    Ok((Signed(FromBigEndian(b), TWO_32), rest))
  }

  function ParseI64(s: Bytes): Parsed<i64> {
    var (b, rest) :- Take(s, 8);
    Widths();
    Ok((Signed(FromBigEndian(b), TWO_64), rest))
  }

  function Bool(v: bool): Bytes {
    [if v then 1 else 0]
  }

  function ParseBool(s: Bytes): Parsed<bool> {
    var (b, rest) :- ParseU8(s);
    if b == 0 then Ok((false, rest)) else if b == 1 then Ok((true, rest)) else Err(InvalidBoolean)
  }

  lemma TakeFront(b: Bytes, tail: Bytes)
    ensures Take(b + tail, |b|) == Ok((b, tail))
  {
    assert (b + tail)[..|b|] == b && (b + tail)[|b|..] == tail;
  }

  /** Every fixed-width decoder undoes its encoder, whatever follows. */
  lemma U16RoundTrip(v: u16, tail: Bytes)
    ensures ParseU16(U16(v) + tail) == Ok((v, tail))
  {
    TakeFront(U16(v), tail);
  }

  lemma I16RoundTrip(v: i16, tail: Bytes)
    ensures ParseI16(I16(v) + tail) == Ok((v, tail))
  {
    U16RoundTrip(Unsigned(v, 0x1_0000), tail);
  }

  lemma I8RoundTrip(v: i8, tail: Bytes)
    ensures ParseI8(I8(v) + tail) == Ok((v, tail))
  {
    assert (I8(v) + tail)[1..] == tail;
  }

  lemma I32RoundTrip(v: i32, tail: Bytes)
    ensures ParseI32(I32(v) + tail) == Ok((v, tail))
  {
    TakeFront(I32(v), tail);
  }

  lemma I64RoundTrip(v: i64, tail: Bytes)
    ensures ParseI64(I64(v) + tail) == Ok((v, tail))
  {
    TakeFront(I64(v), tail);
  }

  lemma BoolRoundTrip(v: bool, tail: Bytes)
    ensures ParseBool(Bool(v) + tail) == Ok((v, tail))
  {
    assert (Bool(v) + tail)[1..] == tail;
  }

  // ---------------------------------------------------------------------------
  // The fixed-width decoders as methods on the cursor
  // ---------------------------------------------------------------------------

  method DecodeU8(input: Input) returns (r: Result<byte, CodecError>)
    modifies input
    ensures Transactional(ParseU8(old(input.rest)), r, old(input.rest), input.rest)
  {
    if input.rest == [] {
      return Err(IncompleteInput);
    }
    r := Ok(input.rest[0]);
    input.rest := input.rest[1..];
  }

  method DecodeBool(input: Input) returns (r: Result<bool, CodecError>)
    modifies input
    ensures Transactional(ParseBool(old(input.rest)), r, old(input.rest), input.rest)
  {
    if input.rest == [] {
      return Err(IncompleteInput);
    }
    if input.rest[0] > 1 {
      return Err(InvalidBoolean);
    }
    r := Ok(input.rest[0] == 1);
    input.rest := input.rest[1..];
  }

  method DecodeI8(input: Input) returns (r: Result<i8, CodecError>)
    modifies input
    ensures Transactional(ParseI8(old(input.rest)), r, old(input.rest), input.rest)
  {
    var b :- DecodeU8(input);
    return Ok(Signed(b, 0x100));
  }

  /** `source.get(..width)` and the move past it, shared by the wider decoders. */
  method TakeBytes(input: Input, width: nat) returns (r: Result<Bytes, CodecError>)
    modifies input
    ensures Transactional(Take(old(input.rest), width), r, old(input.rest), input.rest)
  {
    if |input.rest| < width {
      return Err(IncompleteInput);
    }
    r := Ok(input.rest[..width]);
    input.rest := input.rest[width..];
  }

  method DecodeU16(input: Input) returns (r: Result<u16, CodecError>)
    modifies input
    ensures Transactional(ParseU16(old(input.rest)), r, old(input.rest), input.rest)
  {
    var b :- TakeBytes(input, 2);
    Widths();
    return Ok(FromBigEndian(b));
  }

  method DecodeI16(input: Input) returns (r: Result<i16, CodecError>)
    modifies input
    ensures Transactional(ParseI16(old(input.rest)), r, old(input.rest), input.rest)
  {
    var n :- DecodeU16(input);
    return Ok(Signed(n, 0x1_0000));
  }

  method DecodeI32(input: Input) returns (r: Result<i32, CodecError>)
    modifies input
    ensures Transactional(ParseI32(old(input.rest)), r, old(input.rest), input.rest)
  {
    var b :- TakeBytes(input, 4);
    Widths();
    return Ok(Signed(FromBigEndian(b), TWO_32));
  }

  method DecodeI64(input: Input) returns (r: Result<i64, CodecError>)
    modifies input
    ensures Transactional(ParseI64(old(input.rest)), r, old(input.rest), input.rest)
  {
    var b :- TakeBytes(input, 8);
    Widths();
    return Ok(Signed(FromBigEndian(b), TWO_64));
  }
}
