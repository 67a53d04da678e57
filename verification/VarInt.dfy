/** The base-128 integers of `primitives.rs`: VarInt (32 bits, 5 bytes) and VarLong (64 bits, 10 bytes). */
module VarInt {
  import opened Wire

  function Pow128(k: nat): (p: nat)
    ensures p > 0
  {
    if k == 0 then 1 else 128 * Pow128(k - 1)
  }

  /** Seven bits a byte, least significant first, the top bit set on every byte but the last. */
  function Groups(n: nat): (b: Bytes)
    ensures 1 <= |b|
  {
    if n < 128 then [n] else [n % 128 + 128] + Groups(n / 128)
  }

  /** The number at the front of `s`, before it is cut to the word width, and how many bytes hold it. */
  function Scan(s: Bytes, limit: nat, tooLong: CodecError): (r: Result<(nat, nat), CodecError>)
    ensures r.Ok? ==> 1 <= r.value.1 <= limit && r.value.1 <= |s|
    ensures r.Err? ==> r.error == tooLong || r.error == IncompleteInput
  {
    if limit == 0 then Err(tooLong)
    else if s == [] then Err(IncompleteInput)
    else if s[0] < 128 then Ok((s[0], 1))
    else
      var (high, used) :- Scan(s[1..], limit - 1, tooLong);
      Ok((s[0] - 128 + 128 * high, 1 + used))
  }

  function VarIntBytes(v: i32): (b: Bytes)
    ensures 1 <= |b| <= 5
  {
    GroupsFit(Unsigned(v, TWO_32), 5);
    Groups(Unsigned(v, TWO_32))
  }

  function VarLongBytes(v: i64): (b: Bytes)
    ensures 1 <= |b| <= 10
  {
    GroupsFit(Unsigned(v, TWO_64), 10);
    Groups(Unsigned(v, TWO_64))
  }

  function ParseVarInt(s: Bytes): (r: Parsed<i32>)
    ensures r.Ok? ==> |r.value.1| < |s| <= |r.value.1| + 5
    ensures r.Err? ==> r.error == VarIntTooLong || r.error == IncompleteInput
  {
    var (raw, used) :- Scan(s, 5, VarIntTooLong);
    Ok((Signed(raw % TWO_32, TWO_32), s[used..]))
  }

  function ParseVarLong(s: Bytes): (r: Parsed<i64>)
    ensures r.Ok? ==> |r.value.1| < |s| <= |r.value.1| + 10
    ensures r.Err? ==> r.error == VarLongTooLong || r.error == IncompleteInput
  {
    var (raw, used) :- Scan(s, 10, VarLongTooLong);
    Ok((Signed(raw % TWO_64, TWO_64), s[used..]))
  }

  // ---------------------------------------------------------------------------
  // Lemmas about the groups
  // ---------------------------------------------------------------------------

  lemma Powers()
    ensures Pow128(1) == 0x80 && Pow128(2) == 0x4000 && Pow128(3) == 0x20_0000 && Pow128(4) == 0x1000_0000
    ensures Pow128(5) == 0x8_0000_0000 && Pow128(9) == TWO_64 / 2
    ensures Pow128(10) == 64 * TWO_64
  {
    assert Pow128(4) == 0x1000_0000;
    assert Pow128(8) == 0x100_0000 * TWO_32;
  }

  /** `n` needs at most `k` bytes exactly when it is below 128^k. */
  lemma {:induction false} GroupsWidth(n: nat, k: nat)
    requires k > 0
    ensures |Groups(n)| <= k <==> n < Pow128(k)
  {
    if n >= 128 {
      if k > 1 {
        GroupsWidth(n / 128, k - 1);
      }
    } else {
      assert Pow128(k - 1) >= 1;
    }
  }

  lemma GroupsFit(n: nat, k: nat)
    requires (k == 5 && n < TWO_32) || (k == 10 && n < TWO_64)
    ensures |Groups(n)| <= k
  {
    Powers();
    GroupsWidth(n, k);
  }

  lemma {:induction false} ScanGroups(n: nat, limit: nat, tooLong: CodecError, tail: Bytes)
    requires |Groups(n)| <= limit
    ensures Scan(Groups(n) + tail, limit, tooLong) == Ok((n, |Groups(n)|))
  {
    var s := Groups(n) + tail;
    if n >= 128 {
      ScanGroups(n / 128, limit - 1, tooLong, tail);
      assert s[1..] == Groups(n / 128) + tail;
    }
  }

  lemma {:induction false} ScanBound(s: Bytes, limit: nat, tooLong: CodecError)
    requires Scan(s, limit, tooLong).Ok?
    ensures Scan(s, limit, tooLong).value.0 < Pow128(Scan(s, limit, tooLong).value.1)
  {
    if s[0] >= 128 {
      ScanBound(s[1..], limit - 1, tooLong);
    }
  }

  /** Once the number is decided, by success or by excess length, more input changes nothing. */
  lemma {:induction false} ScanStable(s: Bytes, limit: nat, tooLong: CodecError, more: Bytes)
    requires Scan(s, limit, tooLong) != Err(IncompleteInput)
    ensures Scan(s + more, limit, tooLong) == Scan(s, limit, tooLong)
  {
    if limit > 0 && s != [] && s[0] >= 128 {
      assert (s + more)[1..] == s[1..] + more;
      ScanStable(s[1..], limit - 1, tooLong, more);
    }
  }

  /** The bytes after the number do not matter, and fewer bytes than the number has are never enough. */
  lemma {:induction false} ScanCut(s: Bytes, limit: nat, tooLong: CodecError, n: nat, used: nat, k: nat)
    requires Scan(s, limit, tooLong) == Ok((n, used)) && k <= |s|
    ensures Scan(s[..k], limit, tooLong) == if k < used then Err(IncompleteInput) else Ok((n, used))
  {
    if k > 0 && s[0] >= 128 {
      assert s[..k][1..] == s[1..][..k - 1];
      var (high, _) := Scan(s[1..], limit - 1, tooLong).value;
      ScanCut(s[1..], limit - 1, tooLong, high, used - 1, k - 1);
    }
  }

  // ---------------------------------------------------------------------------
  // The promises of the codec
  // ---------------------------------------------------------------------------

  lemma VarIntRoundTrip(v: i32, tail: Bytes)
    ensures ParseVarInt(VarIntBytes(v) + tail) == Ok((v, tail))
  {
    GroupsFit(Unsigned(v, TWO_32), 5);
    ScanGroups(Unsigned(v, TWO_32), 5, VarIntTooLong, tail);
  }

  lemma VarLongRoundTrip(v: i64, tail: Bytes)
    ensures ParseVarLong(VarLongBytes(v) + tail) == Ok((v, tail))
  {
    GroupsFit(Unsigned(v, TWO_64), 10);
    ScanGroups(Unsigned(v, TWO_64), 10, VarLongTooLong, tail);
  }

  /** Any accepted encoding, minimal or not, is at least as long as the one the encoder writes. */
  lemma VarIntMinimal(s: Bytes)
    requires ParseVarInt(s).Ok?
    ensures var (v, rest) := ParseVarInt(s).value; |VarIntBytes(v)| + |rest| <= |s|
  {
    var (raw, used) := Scan(s, 5, VarIntTooLong).value;
    ScanBound(s, 5, VarIntTooLong);
    GroupsWidth(raw % TWO_32, used);
  }

  lemma VarLongMinimal(s: Bytes)
    requires ParseVarLong(s).Ok?
    ensures var (v, rest) := ParseVarLong(s).value; |VarLongBytes(v)| + |rest| <= |s|
  {
    var (raw, used) := Scan(s, 10, VarLongTooLong).value;
    ScanBound(s, 10, VarLongTooLong);
    GroupsWidth(raw % TWO_64, used);
  }

  lemma VarIntStable(s: Bytes, more: Bytes)
    requires ParseVarInt(s) != Err(IncompleteInput)
    ensures match ParseVarInt(s)
            case Ok((v, rest)) => ParseVarInt(s + more) == Ok((v, rest + more))
            case Err(e) => ParseVarInt(s + more) == Err(e)
  {
    ScanStable(s, 5, VarIntTooLong, more);
    if ParseVarInt(s).Ok? {
      var used := Scan(s, 5, VarIntTooLong).value.1;
      assert (s + more)[used..] == s[used..] + more;
    }
  }

  lemma VarIntCut(s: Bytes, k: nat)
    requires ParseVarInt(s).Ok? && k <= |s|
    ensures var (v, rest) := ParseVarInt(s).value;
            var used := |s| - |rest|;
            ParseVarInt(s[..k]) == if k < used then Err(IncompleteInput) else Ok((v, s[used..k]))
  {
    var (raw, used) := Scan(s, 5, VarIntTooLong).value;
    ScanCut(s, 5, VarIntTooLong, raw, used, k);
  }

  /** Every byte asks for another one. */
  predicate AllContinue(s: Bytes) {
    forall i :: 0 <= i < |s| ==> s[i] >= 128
  }

  /** A VarInt that is cut short. */
  predicate Unfinished(s: Bytes) {
    |s| < 5 && AllContinue(s)
  }

  lemma {:induction false} ScanUnfinished(s: Bytes, limit: nat, tooLong: CodecError)
    requires tooLong != IncompleteInput
    ensures Scan(s, limit, tooLong) == Err(IncompleteInput) <==> |s| < limit && AllContinue(s)
  {
    if limit > 0 && s != [] {
      assert AllContinue(s) <==> s[0] >= 128 && AllContinue(s[1..]) by {
        if AllContinue(s[1..]) {
          assert forall i :: 0 < i < |s| ==> s[i] == s[1..][i - 1];
        }
      }
      ScanUnfinished(s[1..], limit - 1, tooLong);
    }
  }

  lemma VarIntUnfinished(s: Bytes)
    ensures ParseVarInt(s) == Err(IncompleteInput) <==> Unfinished(s)
  {
    ScanUnfinished(s, 5, VarIntTooLong);
  }

  lemma {:induction false} ScanTooLong(s: Bytes, limit: nat, tooLong: CodecError)
    requires tooLong != IncompleteInput
    ensures Scan(s, limit, tooLong) == Err(tooLong) <==> |s| >= limit && AllContinue(s[..limit])
  {
    if limit > 0 && s != [] {
      assert s[1..][..if |s| - 1 < limit - 1 then |s| - 1 else limit - 1]
          == s[..if |s| < limit then |s| else limit][1..];
      if |s| >= limit {
        assert AllContinue(s[..limit]) <==> s[0] >= 128 && AllContinue(s[..limit][1..]) by {
          if AllContinue(s[..limit][1..]) {
            assert forall i :: 0 < i < limit ==> s[..limit][i] == s[..limit][1..][i - 1];
          }
        }
      }
      ScanTooLong(s[1..], limit - 1, tooLong);
    }
  }

  /** Refused for its length exactly when the first five bytes all ask for another one. */
  lemma VarIntRefused(s: Bytes)
    ensures ParseVarInt(s) == Err(VarIntTooLong) <==> |s| >= 5 && AllContinue(s[..5])
  {
    ScanTooLong(s, 5, VarIntTooLong);
  }

  lemma VarLongRefused(s: Bytes)
    ensures ParseVarLong(s) == Err(VarLongTooLong) <==> |s| >= 10 && AllContinue(s[..10])
    ensures ParseVarLong(s) == Err(IncompleteInput) <==> |s| < 10 && AllContinue(s)
  {
    ScanTooLong(s, 10, VarLongTooLong);
    ScanUnfinished(s, 10, VarLongTooLong);
  }

  /** Otherwise the first byte below 128 ends it, and its value is the sum of the seven-bit groups, least significant
      first, cut to 32 bits. */
  lemma VarIntValue(s: Bytes, used: nat)
    requires 1 <= used <= 5 && used <= |s| && AllContinue(s[..used - 1]) && s[used - 1] < 128
    ensures ParseVarInt(s) == Ok((AsI32(Low(s, used)), s[used..]))
  {
    ScanAt(s, 5, VarIntTooLong, used);
    UnderIsSum(s, used, 0);
  }

  lemma VarLongValue(s: Bytes, used: nat)
    requires 1 <= used <= 10 && used <= |s| && AllContinue(s[..used - 1]) && s[used - 1] < 128
    ensures ParseVarLong(s) == Ok((Signed(Low(s, used) % TWO_64, TWO_64), s[used..]))
  {
    ScanAt(s, 10, VarLongTooLong, used);
    UnderIsSum(s, used, 0);
  }

  lemma ScanAt(s: Bytes, limit: nat, tooLong: CodecError, used: nat)
    requires 1 <= used <= limit && used <= |s| && AllContinue(s[..used - 1]) && s[used - 1] < 128
    ensures Scan(s, limit, tooLong) == Ok((Under(s, used, 0), used))
  {
    assert s[0..] == s;
    for i := 0 to used - 1
      invariant ScanSplit(s, limit, tooLong, i)
    {
      assert s[i] == s[..used - 1][i];
      ScanStep(s, limit, tooLong, i);
    }
    ScanStep(s, limit, tooLong, used - 1);
  }

  /** The published examples. */
  lemma VarIntExamples()
    ensures VarIntBytes(0) == [0] && VarIntBytes(1) == [1] && VarIntBytes(2) == [2] && VarIntBytes(127) == [0x7F]
    ensures VarIntBytes(128) == [0x80, 1] && VarIntBytes(255) == [0xFF, 1]
    ensures VarIntBytes(0x7FFF_FFFF) == [0xFF, 0xFF, 0xFF, 0xFF, 7]
    ensures VarIntBytes(-1) == [0xFF, 0xFF, 0xFF, 0xFF, 0x0F]
    ensures VarIntBytes(-0x8000_0000) == [0x80, 0x80, 0x80, 0x80, 8]
  {
    hide Groups;
    SmallGroups();
    MoreGroups(1, 0);
    MoreGroups(1, 0x7F);
    MoreGroups(7, 0x7F);
    MoreGroups(0x3FF, 0x7F);
    MoreGroups(0x1_FFFF, 0x7F);
    MoreGroups(0xFF_FFFF, 0x7F);
    MoreGroups(15, 0x7F);
    MoreGroups(0x7FF, 0x7F);
    MoreGroups(0x3_FFFF, 0x7F);
    MoreGroups(0x1FF_FFFF, 0x7F);
    MoreGroups(8, 0);
    MoreGroups(0x400, 0);
    MoreGroups(0x2_0000, 0);
    MoreGroups(0x100_0000, 0);
  }

  lemma SmallGroups()
    ensures forall n: nat :: n < 128 ==> Groups(n) == [n]
  {
  }

  lemma MoreGroups(n: nat, low: nat)
    requires n > 0 && low < 128
    ensures Groups(128 * n + low) == [128 + low] + Groups(n)
  {
    assert (128 * n + low) / 128 == n && (128 * n + low) % 128 == low;
  }

  /** Every proper prefix of an encoding is incomplete. */
  lemma VarIntPrefixIncomplete(v: i32, k: nat)
    requires k < |VarIntBytes(v)|
    ensures ParseVarInt(VarIntBytes(v)[..k]) == Err(IncompleteInput)
  {
    VarIntRoundTrip(v, []);
    assert VarIntBytes(v) + [] == VarIntBytes(v);
    VarIntCut(VarIntBytes(v), k);
  }

  lemma VarLongPrefixIncomplete(v: i64, k: nat)
    requires k < |VarLongBytes(v)|
    ensures ParseVarLong(VarLongBytes(v)[..k]) == Err(IncompleteInput)
  {
    GroupsFit(Unsigned(v, TWO_64), 10);
    ScanGroups(Unsigned(v, TWO_64), 10, VarLongTooLong, []);
    assert VarLongBytes(v) + [] == VarLongBytes(v);
    ScanCut(VarLongBytes(v), 10, VarLongTooLong, Unsigned(v, TWO_64), |VarLongBytes(v)|, k);
  }

  /** `var_int_length` of framing.rs: the masks of the source, as bounds on the unsigned word. */
  function VarIntLength(v: i32): (n: nat)
    ensures n == |VarIntBytes(v)|
  {
    var bits := Unsigned(v, TWO_32);
    Powers();
    GroupsWidth(bits, 1);
    GroupsWidth(bits, 2);
    GroupsWidth(bits, 3);
    GroupsWidth(bits, 4);
    if bits < 0x80 then 1
    else if bits < 0x4000 then 2
    else if bits < 0x20_0000 then 3
    else if bits < 0x1000_0000 then 4
    else 5
  }

  // ---------------------------------------------------------------------------
  // The loops of the source
  // ---------------------------------------------------------------------------

  method EncodeVarInt(value: i32, output: Output)
    modifies output
    ensures output.bytes == old(output.bytes) + VarIntBytes(value)
  {
    var remaining := Unsigned(value, TWO_32);
    while true
      invariant 0 <= remaining
      invariant output.bytes + Groups(remaining) == old(output.bytes) + VarIntBytes(value)
      decreases remaining
    {
      var low := remaining % 128;
      remaining := remaining / 128;
      output.bytes := output.bytes + [if remaining != 0 then low + 128 else low];
      if remaining == 0 {
        return;
      }
    }
  }

  method EncodeVarLong(value: i64, output: Output)
    modifies output
    ensures output.bytes == old(output.bytes) + VarLongBytes(value)
  {
    var remaining := Unsigned(value, TWO_64);
    while true
      invariant 0 <= remaining
      invariant output.bytes + Groups(remaining) == old(output.bytes) + VarLongBytes(value)
      decreases remaining
    {
      var low := remaining % 128;
      remaining := remaining / 128;
      output.bytes := output.bytes + [if remaining != 0 then low + 128 else low];
      if remaining == 0 {
        return;
      }
    }
  }

  /** The number whose low groups are the first `index` bytes of `s` and whose higher part is `high`. */
  function Under(s: Bytes, index: nat, high: nat): nat
    requires index <= |s|
  {
    if index == 0 then high else Under(s, index - 1, s[index - 1] % 128 + 128 * high)
  }

  /** The sum the decoding loops accumulate, before truncation. */
  function Low(s: Bytes, index: nat): nat
    requires index <= |s|
  {
    if index == 0 then 0 else Low(s, index - 1) + (s[index - 1] % 128) * Pow128(index - 1)
  }

  lemma {:induction false} UnderIsSum(s: Bytes, index: nat, high: nat)
    requires index <= |s|
    ensures Under(s, index, high) == Low(s, index) + Pow128(index) * high
  {
    if index > 0 {
      var digit, p := s[index - 1] % 128, Pow128(index - 1);
      UnderIsSum(s, index - 1, digit + 128 * high);
      Regroup(p, Pow128(index), digit, high);
    }
  }

  lemma Regroup(p: nat, q: nat, digit: nat, high: nat)
    requires q == 128 * p
    ensures p * (digit + 128 * high) == digit * p + q * high
  {
    assert q * high == 128 * (p * high);
  }

  /** After `index` continuation bytes the whole scan is decided by the bytes that follow them. */
  ghost predicate ScanSplit(s: Bytes, limit: nat, tooLong: CodecError, index: nat) {
    && index <= limit && index <= |s|
    && Scan(s, limit, tooLong) == match Scan(s[index..], limit - index, tooLong)
                                  case Ok((high, used)) => Ok((Under(s, index, high), index + used))
                                  case Err(e) => Err(e)
  }

  lemma ScanStep(s: Bytes, limit: nat, tooLong: CodecError, index: nat)
    requires ScanSplit(s, limit, tooLong, index) && index < limit && index < |s|
    ensures s[index] < 128 ==> Scan(s, limit, tooLong) == Ok((Under(s, index + 1, 0), index + 1))
    ensures s[index] >= 128 ==> ScanSplit(s, limit, tooLong, index + 1)
  {
    assert s[index..][1..] == s[index + 1..];
  }

  lemma AddGroup(low: nat, group: nat)
    ensures (low % TWO_32 + group) % TWO_32 == (low + group) % TWO_32
    ensures (low % TWO_64 + group) % TWO_64 == (low + group) % TWO_64
  {
    assert low + group == low % TWO_32 + group + TWO_32 * (low / TWO_32);
    assert low + group == low % TWO_64 + group + TWO_64 * (low / TWO_64);
  }

  method DecodeVarInt(input: Input) returns (r: Result<i32, CodecError>)
    modifies input
    ensures Transactional(ParseVarInt(old(input.rest)), r, old(input.rest), input.rest)
  {
    var source := input.rest;
    var result: nat := 0;
    var shift: nat := 1;
    assert source[0..] == source;
    for index := 0 to 5
      invariant shift == Pow128(index)
      invariant ScanSplit(source, 5, VarIntTooLong, index)
      invariant result == Low(source, index) % TWO_32
      invariant input.rest == source
    {
      if index >= |source| {
        assert source[index..] == [];
        return Err(IncompleteInput);
      }
      var payload: nat := source[index] % 128;
      var group: nat := payload * shift;
      ScanStep(source, 5, VarIntTooLong, index);
      AddGroup(Low(source, index), group);
      result := (result + group) % TWO_32;
      if source[index] < 128 {
        UnderIsSum(source, index + 1, 0);
        input.rest := source[index + 1..];
        return Ok(Signed(result, TWO_32));
      }
      shift := shift * 128;
    }
    return Err(VarIntTooLong);
  }

  method DecodeVarLong(input: Input) returns (r: Result<i64, CodecError>)
    modifies input
    ensures Transactional(ParseVarLong(old(input.rest)), r, old(input.rest), input.rest)
  {
    var source := input.rest;
    var result: nat := 0;
    var shift: nat := 1;
    assert source[0..] == source;
    for index := 0 to 10
      invariant shift == Pow128(index)
      invariant ScanSplit(source, 10, VarLongTooLong, index)
      invariant result == Low(source, index) % TWO_64
      invariant input.rest == source
    {
      if index >= |source| {
        assert source[index..] == [];
        return Err(IncompleteInput);
      }
      var payload: nat := source[index] % 128;
      var group: nat := payload * shift;
      ScanStep(source, 10, VarLongTooLong, index);
      AddGroup(Low(source, index), group);
      result := (result + group) % TWO_64;
      if source[index] < 128 {
        UnderIsSum(source, index + 1, 0);
        input.rest := source[index + 1..];
        return Ok(Signed(result, TWO_64));
      }
      shift := shift * 128;
    }
    return Err(VarLongTooLong);
  }
}
