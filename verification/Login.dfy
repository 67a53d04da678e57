/** Login Start and Login Success (`login.rs`). */
module Login {
  import opened Wire
  import opened VarInt
  import opened Framing
  import opened Lists
  import opened Packets
  import opened Text
  import P = Primitives

  const LOGIN_START_PACKET_ID: i32 := 0x00
  const ENCRYPTION_REQUEST_PACKET_ID: i32 := 0x01
  const LOGIN_SUCCESS_PACKET_ID: i32 := 0x02
  const MAX_USERNAME_LENGTH: usize := 16
  const MAX_PROPERTIES_COUNT: int := 1024
  const MAX_PROPERTY_STRING_LENGTH: usize := 32767

  const NIL_UUID: P.Uuid := P.Uuid(0, 0)

  // ---------------------------------------------------------------------------
  // Login Start
  // ---------------------------------------------------------------------------

  datatype LoginStart = LoginStart(username: Text, uuid: P.Uuid)

  function LoginStartFields(p: LoginStart): Result<Bytes, CodecError> {
    if Accepted(p.username, MAX_USERNAME_LENGTH) then Ok(Prefixed(p.username) + (Bool(true) + P.UuidBytes(p.uuid)))
    else Err(StringTooLong)
  }

  function ParseOptionalUuid(s: Bytes): Parsed<P.Uuid> {
    var (present, s1) :- ParseBool(s);
    if present then P.ParseUuid(s1) else Ok((NIL_UUID, s1))
  }

  function ParseLoginStartFields(s: Bytes): Parsed<LoginStart> {
    var (username, s1) :- ParseString(s, MAX_USERNAME_LENGTH);
    var (uuid, s2) :- ParseOptionalUuid(s1);
    Ok((LoginStart(username, uuid), s2))
  }

  function LoginStartBytes(p: LoginStart, maximum: usize): Result<Bytes, PacketError> {
    PacketBytes(LOGIN_START_PACKET_ID, LoginStartFields(p), maximum)
  }

  function ParseLoginStart(s: Bytes, maximum: usize): Framed<LoginStart, PacketError> {
    ParsePacket(LOGIN_START_PACKET_ID, ParseLoginStartFields, s, maximum)
  }

  lemma LoginStartRoundTrip(p: LoginStart, maximum: usize, tail: Bytes)
    requires LoginStartBytes(p, maximum).Ok?
    ensures ParseLoginStart(LoginStartBytes(p, maximum).value + tail, maximum) == Complete(p, tail)
  {
    hide Prefixed, Accepted, ParseString, FrameBytes, ParseFrame, P.UuidBytes, P.ParseUuid;
    var body := LoginStartFields(p).value;
    var s2 := P.UuidBytes(p.uuid);
    PacketFields(LOGIN_START_PACKET_ID, ParseLoginStartFields, body, maximum, tail);
    StringRoundTrip(p.username, MAX_USERNAME_LENGTH, Bool(true) + s2);
    BoolRoundTrip(true, s2);
    P.UuidRoundTrip(p.uuid, []);
    assert s2 + [] == s2;
  }

  /** A decoded Login Start, with or without a UUID, can be encoded again exactly when its name and a UUID fit the
      maximum; 67 bytes always suffice. What is written reads back as the same packet. */
  lemma LoginStartReencodes(s: Bytes, maximum: usize, tail: Bytes)
    requires ParseLoginStart(s, maximum).Complete?
    ensures var p := ParseLoginStart(s, maximum).value;
            var again := LoginStartBytes(p, maximum);
            && (again.Ok? <==> |Prefixed(p.username)| + 18 <= EffectiveMax(maximum))
            && (maximum >= 67 ==> again.Ok?)
            && (again.Ok? ==> ParseLoginStart(again.value + tail, maximum) == Complete(p, tail))
  {
    var p := ParseLoginStart(s, maximum).value;
    var payload := ParseFrame(s, maximum).value.payload;
    DecodedNameShort(payload);
    LoginStartLength(p, maximum);
    if LoginStartBytes(p, maximum).Ok? {
      LoginStartRoundTrip(p, maximum, tail);
    }
  }

  /** Without a UUID a Login Start carries the one of all zeros. */
  lemma LoginStartWithoutUuid(username: Text, tail: Bytes)
    requires Accepted(username, 16)
    ensures ParseLoginStartFields(Prefixed(username) + ([0] + tail)) == Ok((LoginStart(username, P.Uuid(0, 0)), tail))
  {
    hide Accepted, Prefixed, ParseString;
    StringRoundTrip(username, 16, [0] + tail);
    assert ([0] + tail)[1..] == tail;
  }

  lemma NameShort(name: Text)
    requires Accepted(name, MAX_USERNAME_LENGTH)
    ensures |Prefixed(name)| <= 49
  {
    hide Utf8, Utf16Units;
    ThreeBytesPerUnit(name);
    GroupsWidth(|Utf8(name)|, 1);
    Powers();
  }

  lemma DecodedNameShort(payload: Bytes)
    requires ParseLoginStartFields(payload).Ok?
    ensures var name := ParseLoginStartFields(payload).value.0.username;
            Accepted(name, MAX_USERNAME_LENGTH) && |Prefixed(name)| <= 49
  {
    hide ParseString, Accepted, Prefixed;
    StringMinimal(payload, MAX_USERNAME_LENGTH);
    NameShort(ParseString(payload, MAX_USERNAME_LENGTH).value.0);
  }

  lemma LoginStartLength(p: LoginStart, maximum: usize)
    requires Accepted(p.username, MAX_USERNAME_LENGTH)
    ensures LoginStartBytes(p, maximum).Ok? <==> |Prefixed(p.username)| + 18 <= EffectiveMax(maximum)
  {
    hide Prefixed, Accepted, P.UuidBytes, FrameBytes;
    var body := LoginStartFields(p).value;
    assert |body| == |Prefixed(p.username)| + 17;
    FrameAcceptance(LOGIN_START_PACKET_ID, body, maximum);
  }

  // ---------------------------------------------------------------------------
  // Login Success
  // ---------------------------------------------------------------------------

  datatype Property = Property(name: Text, value: Text, signature: Option<Text>)
  datatype LoginSuccess = LoginSuccess(uuid: P.Uuid, username: Text, properties: seq<Property>)

  predicate Fits(t: Text) {
    Accepted(t, MAX_PROPERTY_STRING_LENGTH)
  }

  predicate PropertyFits(p: Property) {
    Fits(p.name) && Fits(p.value) && (p.signature.Some? ==> Fits(p.signature.value))
  }

  function SignatureBytes(signature: Option<Text>): Bytes {
    match signature
    case None => Bool(false)
    case Some(t) => Bool(true) + Prefixed(t)
  }

  function PropertyBytes(p: Property): Bytes {
    Prefixed(p.name) + (Prefixed(p.value) + SignatureBytes(p.signature))
  }

  function ParsePropertyString(s: Bytes): Parsed<Text> {
    ParseString(s, MAX_PROPERTY_STRING_LENGTH)
  }

  function ParseSignature(s: Bytes): Parsed<Option<Text>> {
    var (present, s1) :- ParseBool(s);
    if !present then Ok((None, s1))
    else
      var (t, s2) :- ParsePropertyString(s1);
      Ok((Some(t), s2))
  }

  function ParseProperty(s: Bytes): Parsed<Property> {
    var (name, s1) :- ParsePropertyString(s);
    var (value, s2) :- ParsePropertyString(s1);
    var (signature, s3) :- ParseSignature(s2);
    Ok((Property(name, value, signature), s3))
  }

  function ParseProperties(s: Bytes): Parsed<seq<Property>> {
    var (count, s1) :- ParseVarInt(s);
    if count < 0 then Err(VarIntTooLong)
    else if count > MAX_PROPERTIES_COUNT then Err(StringTooLong)
    else ParseMany(ParseProperty, count, s1)
  }

  predicate Encodable(p: LoginSuccess) {
    && Accepted(p.username, MAX_USERNAME_LENGTH)
    && |p.properties| <= MAX_PROPERTIES_COUNT
    && forall q :: q in p.properties ==> PropertyFits(q)
  }

  function PropertiesBytes(ps: seq<Property>): Bytes {
    VarIntBytes(AsI32(|ps|)) + Many(PropertyBytes, ps)
  }

  function LoginSuccessFields(p: LoginSuccess): Result<Bytes, CodecError> {
    if Encodable(p) then Ok(P.UuidBytes(p.uuid) + (Prefixed(p.username) + PropertiesBytes(p.properties)))
    else if Accepted(p.username, MAX_USERNAME_LENGTH) && |p.properties| > I32_MAX then Err(VarIntTooLong)
    else Err(StringTooLong)
  }

  function ParseLoginSuccessFields(s: Bytes): Parsed<LoginSuccess> {
    var (uuid, s1) :- P.ParseUuid(s);
    var (username, s2) :- ParseString(s1, MAX_USERNAME_LENGTH);
    var (properties, s3) :- ParseProperties(s2);
    Ok((LoginSuccess(uuid, username, properties), s3))
  }

  function LoginSuccessBytes(p: LoginSuccess, maximum: usize): Result<Bytes, PacketError> {
    PacketBytes(LOGIN_SUCCESS_PACKET_ID, LoginSuccessFields(p), maximum)
  }

  function ParseLoginSuccess(s: Bytes, maximum: usize): Framed<LoginSuccess, PacketError> {
    ParsePacket(LOGIN_SUCCESS_PACKET_ID, ParseLoginSuccessFields, s, maximum)
  }

  lemma PropertyStringRoundTrip(t: Text, tail: Bytes)
    requires Fits(t)
    ensures ParsePropertyString(Prefixed(t) + tail) == Ok((t, tail))
  {
    StringRoundTrip(t, MAX_PROPERTY_STRING_LENGTH, tail);
  }

  lemma SignatureRoundTrip(signature: Option<Text>, tail: Bytes)
    requires signature.Some? ==> Fits(signature.value)
    ensures ParseSignature(SignatureBytes(signature) + tail) == Ok((signature, tail))
  {
    hide Fits, Prefixed, ParsePropertyString;
    match signature {
      case None => BoolRoundTrip(false, tail);
      case Some(t) =>
        assert SignatureBytes(signature) + tail == Bool(true) + (Prefixed(t) + tail);
        BoolRoundTrip(true, Prefixed(t) + tail);
        PropertyStringRoundTrip(t, tail);
    }
  }

  lemma PropertyRoundTrip(p: Property, tail: Bytes)
    requires PropertyFits(p)
    ensures ParseProperty(PropertyBytes(p) + tail) == Ok((p, tail))
  {
    hide Fits, Prefixed, ParsePropertyString, SignatureBytes, ParseSignature;
    var s2 := SignatureBytes(p.signature) + tail;
    var s1 := Prefixed(p.value) + s2;
    assert PropertyBytes(p) + tail == Prefixed(p.name) + s1;
    PropertyStringRoundTrip(p.name, s1);
    PropertyStringRoundTrip(p.value, s2);
    SignatureRoundTrip(p.signature, tail);
  }

  lemma PropertiesRoundTrip(ps: seq<Property>)
    requires |ps| <= MAX_PROPERTIES_COUNT && forall p :: p in ps ==> PropertyFits(p)
    ensures ParseProperties(PropertiesBytes(ps)) == Ok((ps, []))
  {
    hide PropertyFits, PropertyBytes, ParseProperty, VarIntBytes, ParseVarInt;
    var items := Many(PropertyBytes, ps);
    VarIntRoundTrip(|ps|, items);
    forall p, after | p in ps ensures ParseProperty(PropertyBytes(p) + after) == Ok((p, after)) {
      PropertyRoundTrip(p, after);
    }
    ManyExact(PropertyBytes, ParseProperty, ps, []);
    assert items + [] == items;
  }

  /** Any Login Success the encoder accepts, up to 1024 properties with or without signatures, is read back. */
  lemma LoginSuccessRoundTrip(p: LoginSuccess, maximum: usize, tail: Bytes)
    requires LoginSuccessBytes(p, maximum).Ok?
    ensures ParseLoginSuccess(LoginSuccessBytes(p, maximum).value + tail, maximum) == Complete(p, tail)
  {
    hide Accepted, PropertyFits, Prefixed, ParseString, PropertiesBytes, ParseProperties, FrameBytes, ParseFrame,
         P.UuidBytes, P.ParseUuid;
    var body := LoginSuccessFields(p).value;
    var s2 := PropertiesBytes(p.properties);
    var s1 := Prefixed(p.username) + s2;
    PacketFields(LOGIN_SUCCESS_PACKET_ID, ParseLoginSuccessFields, body, maximum, tail);
    P.UuidRoundTrip(p.uuid, s1);
    StringRoundTrip(p.username, MAX_USERNAME_LENGTH, s2);
    PropertiesRoundTrip(p.properties);
  }

  // ---------------------------------------------------------------------------
  // Encryption Request, as far as the server sends it
  // ---------------------------------------------------------------------------

  function Zeros(n: nat): (b: Bytes)
    ensures |b| == n
  {
    seq(n, _ => 0)
  }

  /** The placeholder request of the online path: empty server id, 128 and 4 zero bytes. */
  function EncryptionRequestBytes(maximum: usize): Result<Bytes, PacketError> {
    PacketBytes(ENCRYPTION_REQUEST_PACKET_ID,
                Ok(Prefixed([]) + (P.Prefixed(Zeros(128)) + P.Prefixed(Zeros(4)))), maximum)
  }

  // ---------------------------------------------------------------------------
  // The methods of the source
  // ---------------------------------------------------------------------------

  method EncodeLoginStart(p: LoginStart, maximum: usize, output: Output) returns (r: Result<(), PacketError>)
    modifies output
    ensures match LoginStartBytes(p, maximum)
            case Ok(b) => r == Ok(()) && output.bytes == old(output.bytes) + b
            case Err(e) => r == Err(e) && output.bytes == old(output.bytes)
  {
    hide Prefixed, Accepted, P.UuidBytes, FrameBytes;
    var body := new Output();
    var name := EncodeString(p.username, MAX_USERNAME_LENGTH, body);
    if name.Err? {
      return Err(FromCodec(name.error));
    }
    body.bytes := body.bytes + Bool(true);
    body.bytes := body.bytes + P.UuidBytes(p.uuid);
    assert body.bytes == LoginStartFields(p).value;
    r := WritePacket(LOGIN_START_PACKET_ID, body.bytes, maximum, output);
  }

  method DecodeLoginStartFields(body: Input) returns (r: Result<LoginStart, CodecError>)
    modifies body
    ensures Agrees(ParseLoginStartFields(old(body.rest)), r, body.rest)
  {
    hide ParseString, ParseBool, P.ParseUuid;
    var username :- DecodeString(body, MAX_USERNAME_LENGTH);
    var present :- DecodeBool(body);
    if !present {
      return Ok(LoginStart(username, NIL_UUID));
    }
    var uuid :- P.DecodeUuid(body);
    return Ok(LoginStart(username, uuid));
  }

  method DecodeLoginStart(input: Input, maximum: usize) returns (r: Outcome<LoginStart, PacketError>)
    modifies input
    ensures TransactionalFrame(ParseLoginStart(old(input.rest), maximum), r, old(input.rest), input.rest)
  {
    hide ParseLoginStartFields;
    var source := input.rest;
    var frame := OpenPacket(input, LOGIN_START_PACKET_ID, maximum);
    match frame {
      case NeedMore => return NeedMore;
      case Failed(e) => return Failed(e);
      case Decoded(payload) =>
        var body := new Input(payload);
        var fields := DecodeLoginStartFields(body);
        r := ClosePacket(input, source, fields, body);
    }
  }

  method EncodeProperty(p: Property, body: Output) returns (r: Result<(), CodecError>)
    modifies body
    ensures if PropertyFits(p) then r == Ok(()) && body.bytes == old(body.bytes) + PropertyBytes(p)
            else r == Err(StringTooLong)
  {
    hide Accepted, Prefixed;
    var _ :- EncodeString(p.name, MAX_PROPERTY_STRING_LENGTH, body);
    var _ :- EncodeString(p.value, MAX_PROPERTY_STRING_LENGTH, body);
    body.bytes := body.bytes + Bool(p.signature.Some?);
    if p.signature.Some? {
      var _ :- EncodeString(p.signature.value, MAX_PROPERTY_STRING_LENGTH, body);
    }
    return Ok(());
  }

  method EncodeProperties(ps: seq<Property>, body: Output) returns (r: Result<(), CodecError>)
    modifies body
    ensures r.Ok? <==> forall p :: p in ps ==> PropertyFits(p)
    ensures r.Ok? ==> body.bytes == old(body.bytes) + Many(PropertyBytes, ps)
    ensures r.Err? ==> r.error == StringTooLong
  {
    hide PropertyFits, PropertyBytes;
    for i := 0 to |ps|
      invariant forall j :: 0 <= j < i ==> PropertyFits(ps[j])
      invariant body.bytes == old(body.bytes) + Many(PropertyBytes, ps[..i])
    {
      assert ps[i] in ps;
      var _ :- EncodeProperty(ps[i], body);
      ManyNext(PropertyBytes, ps, i);
    }
    assert ps[..|ps|] == ps;
    return Ok(());
  }

  method EncodeLoginSuccess(p: LoginSuccess, maximum: usize, output: Output) returns (r: Result<(), PacketError>)
    modifies output
    ensures match LoginSuccessBytes(p, maximum)
            case Ok(b) => r == Ok(()) && output.bytes == old(output.bytes) + b
            case Err(e) => r == Err(e) && output.bytes == old(output.bytes)
  {
    hide Prefixed, Accepted, PropertyFits, PropertyBytes, VarIntBytes, P.UuidBytes, FrameBytes;
    var body := new Output();
    body.bytes := body.bytes + P.UuidBytes(p.uuid);
    var name := EncodeString(p.username, MAX_USERNAME_LENGTH, body);
    if name.Err? {
      return Err(FromCodec(name.error));
    }
    if |p.properties| > I32_MAX {
      return Err(Codec(VarIntTooLong));
    }
    if |p.properties| > MAX_PROPERTIES_COUNT {
      return Err(Codec(StringTooLong));
    }
    EncodeVarInt(|p.properties|, body);
    var properties := EncodeProperties(p.properties, body);
    if properties.Err? {
      return Err(FromCodec(properties.error));
    }
    assert body.bytes == LoginSuccessFields(p).value;
    r := WritePacket(LOGIN_SUCCESS_PACKET_ID, body.bytes, maximum, output);
  }

  method DecodeProperty(body: Input) returns (r: Result<Property, CodecError>)
    modifies body
    ensures Agrees(ParseProperty(old(body.rest)), r, body.rest)
  {
    hide ParseString;
    var name :- DecodeString(body, MAX_PROPERTY_STRING_LENGTH);
    var value :- DecodeString(body, MAX_PROPERTY_STRING_LENGTH);
    var present :- DecodeBool(body);
    if !present {
      return Ok(Property(name, value, None));
    }
    var signature :- DecodeString(body, MAX_PROPERTY_STRING_LENGTH);
    return Ok(Property(name, value, Some(signature)));
  }

  method DecodeProperties(body: Input) returns (r: Result<seq<Property>, CodecError>)
    modifies body
    ensures Agrees(ParseProperties(old(body.rest)), r, body.rest)
  {
    hide ParseVarInt, ParseProperty;
    var count :- DecodeVarInt(body);
    if count < 0 {
      return Err(VarIntTooLong);
    }
    if count > MAX_PROPERTIES_COUNT {
      return Err(StringTooLong);
    }
    var properties := [];
    ghost var start := body.rest;
    ReadNone(ParseProperty, count, start);
    for i := 0 to count
      invariant |properties| == i
      invariant ReadSoFar(ParseProperty, count, start, properties, body.rest)
    {
      ReadOne(ParseProperty, count, start, properties, body.rest);
      var property :- DecodeProperty(body);
      properties := properties + [property];
    }
    ReadAll(ParseProperty, count, start, properties, body.rest);
    return Ok(properties);
  }

  method DecodeLoginSuccessFields(body: Input) returns (r: Result<LoginSuccess, CodecError>)
    modifies body
    ensures Agrees(ParseLoginSuccessFields(old(body.rest)), r, body.rest)
  {
    hide ParseString, P.ParseUuid, ParseProperties;
    var uuid :- P.DecodeUuid(body);
    var username :- DecodeString(body, MAX_USERNAME_LENGTH);
    var properties :- DecodeProperties(body);
    return Ok(LoginSuccess(uuid, username, properties));
  }

  method DecodeLoginSuccess(input: Input, maximum: usize) returns (r: Outcome<LoginSuccess, PacketError>)
    modifies input
    ensures TransactionalFrame(ParseLoginSuccess(old(input.rest), maximum), r, old(input.rest), input.rest)
  {
    hide ParseLoginSuccessFields;
    var source := input.rest;
    var frame := OpenPacket(input, LOGIN_SUCCESS_PACKET_ID, maximum);
    match frame {
      case NeedMore => return NeedMore;
      case Failed(e) => return Failed(e);
      case Decoded(payload) =>
        var body := new Input(payload);
        var fields := DecodeLoginSuccessFields(body);
        r := ClosePacket(input, source, fields, body);
    }
  }
}
