/** The NBT skipper of `play.rs`: what it computes, as a function of the data and the position.

    A failing skipper's position is never looked at, so only success carries one. */
module Nbt {
  import opened Wire

  const TAG_END: byte := 0x00
  const TAG_BYTE_ARRAY: byte := 0x07
  const TAG_STRING: byte := 0x08
  const TAG_LIST: byte := 0x09
  const TAG_COMPOUND: byte := 0x0A
  const TAG_INT_ARRAY: byte := 0x0B
  const TAG_LONG_ARRAY: byte := 0x0C
  /** The skipper's own number for a length-prefixed byte array; the NBT format has no such tag. */
  const TAG_BYTES_0D: byte := 0x0D

  type Walked = Result<nat, CodecError>

  function ReadU16(data: Bytes, pos: nat): u16
    requires pos + 2 <= |data|
  {
    Widths();
    FromBigEndian(data[pos..pos + 2])
  }

  function ReadI32(data: Bytes, pos: nat): i32
    requires pos + 4 <= |data|
  {
    Widths();
    Signed(FromBigEndian(data[pos..pos + 4]), TWO_32)
  }

  function Skip(data: Bytes, pos: nat, size: nat): (r: Walked)
    ensures r.Ok? ==> pos + size == r.value <= |data|
  {
    if pos + size > |data| then Err(IncompleteInput) else Ok(pos + size)
  }

  /** `skip_nbt_name`; the string case of `skip_nbt_primitive` is the same. */
  function SkipName(data: Bytes, pos: nat): (r: Walked)
    ensures r.Ok? ==> pos + 2 <= r.value <= |data|
  {
    if pos + 2 > |data| then Err(IncompleteInput) else Skip(data, pos + 2, ReadU16(data, pos))
  }

  /** Bytes skipped for tags 1 to 7. For a byte array that is its length prefix and nothing more. */
  function FixedSize(tag: byte): nat
    requires 1 <= tag <= 7
  {
    if tag == 1 then 1 else if tag == 2 then 2 else if tag == 4 || tag == 6 then 8 else 4
  }

  /** Element size of the length-prefixed arrays 0x0B, 0x0C and 0x0D. */
  function UnitSize(tag: byte): nat {
    if tag == TAG_INT_ARRAY then 4 else if tag == TAG_LONG_ARRAY then 8 else 1
  }

  /** `pos += (length as usize) * unit` and the bounds check. A negative `length` is at least 2^64 - 2^31 as a
      `usize`: multiplied by 4 or 8 it overflows, added to `pos` it overflows or passes the end of any slice. */
  function SkipElements(data: Bytes, pos: nat, length: int, unit: nat): (r: Walked)
    ensures r.Ok? ==> pos <= r.value <= |data|
  {
    if length >= 0 then Skip(data, pos, length * unit)
    else if unit > 1 || pos >= -length then Err(Aborted)
    else Err(IncompleteInput)
  }

  function SkipUnits(unit: nat, data: Bytes, pos: nat): (r: Walked)
    ensures r.Ok? ==> pos + 4 <= r.value <= |data|
  {
    if pos + 4 > |data| then Err(IncompleteInput) else SkipElements(data, pos + 4, ReadI32(data, pos), unit)
  }

  function SkipArray(tag: byte, data: Bytes, pos: nat): (r: Walked)
    ensures r.Ok? ==> pos + 4 <= r.value <= |data|
  {
    SkipUnits(UnitSize(tag), data, pos)
  }

  /** The end of the payload of type `tag` that starts at `pos`. */
  function Walk(tag: byte, data: Bytes, pos: nat): (r: Walked)
    requires pos <= |data|
    ensures r.Ok? ==> pos <= r.value <= |data|
    decreases |data| - pos, 1, 0
  {
    if tag == TAG_END then Ok(pos)
    else if tag <= TAG_BYTE_ARRAY then Skip(data, pos, FixedSize(tag))
    else if tag == TAG_STRING then SkipName(data, pos)
    else if tag == TAG_LIST then
      if pos + 5 > |data| then Err(IncompleteInput)
      else WalkElements(data[pos], ReadI32(data, pos + 1), data, pos + 5)
    else if tag == TAG_COMPOUND then WalkEntries(data, pos)
    else if tag <= TAG_BYTES_0D then SkipArray(tag, data, pos)
    else Err(InvalidBoolean)
  }

  /** `count` payloads one after the other; a negative count is an empty loop. */
  function WalkElements(tag: byte, count: int, data: Bytes, pos: nat): (r: Walked)
    requires pos <= |data|
    ensures r.Ok? ==> pos <= r.value <= |data|
    decreases |data| - pos, 2, count
  {
    if count <= 0 then Ok(pos)
    else
      var next :- Walk(tag, data, pos);
      WalkElements(tag, count - 1, data, next)
  }

  /** Named entries up to and including TAG_End. */
  function WalkEntries(data: Bytes, pos: nat): (r: Walked)
    requires pos <= |data|
    ensures r.Ok? ==> pos < r.value <= |data|
    decreases |data| - pos, 0, 0
  {
    if pos >= |data| then Err(IncompleteInput)
    else if data[pos] == TAG_END then Ok(pos + 1)
    else
      var start :- SkipName(data, pos + 1);
      var next :- Walk(data[pos], data, start);
      WalkEntries(data, next)
  }

  /** `parse_nbt_payload`: a tag, then a name, then the payload. */
  function WalkNamed(data: Bytes, pos: nat): (r: Walked)
    requires pos <= |data|
    ensures r.Ok? ==> pos < r.value <= |data|
  {
    if pos >= |data| then Err(IncompleteInput)
    else if data[pos] == TAG_END then Ok(pos + 1)
    else if data[pos] > TAG_BYTES_0D then Err(InvalidBoolean)
    else
      var start :- SkipName(data, pos + 1);
      Walk(data[pos], data, start)
  }

  /** `read_nbt_compound`: the raw bytes of the compound at the front, and what follows them. */
  function ParseNbt(s: Bytes): (r: Parsed<Bytes>)
    ensures r.Ok? ==> r.value.0 != [] && r.value.0 + r.value.1 == s
  {
    if s == [] then Err(IncompleteInput)
    else if s[0] != TAG_COMPOUND then Err(InvalidBoolean)
    else
      var end :- WalkNamed(s, 0);
      Ok((s[..end], s[end..]))
  }

  // ---------------------------------------------------------------------------
  // Later bytes never change a decision
  // ---------------------------------------------------------------------------

  lemma SlicesAgree(data: Bytes, more: Bytes, i: nat, j: nat)
    requires i <= j <= |data|
    ensures (data + more)[i..j] == data[i..j]
  {
  }

  lemma SkipNameStable(data: Bytes, pos: nat, more: Bytes)
    requires SkipName(data, pos) != Err(IncompleteInput)
    ensures SkipName(data + more, pos) == SkipName(data, pos)
  {
    SlicesAgree(data, more, pos, pos + 2);
  }

  lemma SkipArrayStable(tag: byte, data: Bytes, pos: nat, more: Bytes)
    requires SkipArray(tag, data, pos) != Err(IncompleteInput)
    ensures SkipArray(tag, data + more, pos) == SkipArray(tag, data, pos)
  {
    SlicesAgree(data, more, pos, pos + 4);
  }

  lemma {:induction false} WalkStable(tag: byte, data: Bytes, pos: nat, more: Bytes)
    requires pos <= |data| && Walk(tag, data, pos) != Err(IncompleteInput)
    ensures Walk(tag, data + more, pos) == Walk(tag, data, pos)
    decreases |data| - pos, 1, 0
  {
    if tag == TAG_STRING {
      SkipNameStable(data, pos, more);
    } else if tag == TAG_LIST {
      SlicesAgree(data, more, pos + 1, pos + 5);
      WalkElementsStable(data[pos], ReadI32(data, pos + 1), data, pos + 5, more);
    } else if tag == TAG_COMPOUND {
      WalkEntriesStable(data, pos, more);
    } else if TAG_COMPOUND < tag <= TAG_BYTES_0D {
      SkipArrayStable(tag, data, pos, more);
    }
  }

  lemma {:induction false} WalkElementsStable(tag: byte, count: int, data: Bytes, pos: nat, more: Bytes)
    requires pos <= |data| && WalkElements(tag, count, data, pos) != Err(IncompleteInput)
    ensures WalkElements(tag, count, data + more, pos) == WalkElements(tag, count, data, pos)
    decreases |data| - pos, 2, count
  {
    if count > 0 {
      WalkStable(tag, data, pos, more);
      var next := Walk(tag, data, pos);
      if next.Ok? {
        WalkElementsStable(tag, count - 1, data, next.value, more);
      }
    }
  }

  lemma {:induction false} WalkEntriesStable(data: Bytes, pos: nat, more: Bytes)
    requires pos <= |data| && WalkEntries(data, pos) != Err(IncompleteInput)
    ensures WalkEntries(data + more, pos) == WalkEntries(data, pos)
    decreases |data| - pos, 0, 0
  {
    if data[pos] != TAG_END {
      SkipNameStable(data, pos + 1, more);
      var start := SkipName(data, pos + 1);
      if start.Ok? {
        WalkStable(data[pos], data, start.value, more);
        var next := Walk(data[pos], data, start.value);
        if next.Ok? {
          WalkEntriesStable(data, next.value, more);
        }
      }
    }
  }

  /** Success or a definite error survives any extension of the input. */
  lemma NbtStable(s: Bytes, more: Bytes)
    requires ParseNbt(s) != Err(IncompleteInput)
    ensures ParseNbt(s + more) == match ParseNbt(s)
                                  case Ok((nbt, rest)) => Ok((nbt, rest + more))
                                  case Err(e) => Err(e)
  {
    if s[0] == TAG_COMPOUND {
      var start := SkipName(s, 1);
      SkipNameStable(s, 1, more);
      if start.Ok? {
        WalkStable(TAG_COMPOUND, s, start.value, more);
        var end := Walk(TAG_COMPOUND, s, start.value);
        if end.Ok? {
          assert (s + more)[..end.value] == s[..end.value];
          assert (s + more)[end.value..] == s[end.value..] + more;
        }
      }
    }
  }

  /** Hence every proper prefix of a compound is incomplete, never a success and never another error. */
  lemma NbtPrefixIncomplete(s: Bytes, k: nat)
    requires ParseNbt(s).Ok? && k < |ParseNbt(s).value.0|
    ensures ParseNbt(s[..k]) == Err(IncompleteInput)
  {
    assert s[..k] + s[k..] == s;
    if ParseNbt(s[..k]) != Err(IncompleteInput) {
      NbtStable(s[..k], s[k..]);
    }
  }

  // ---------------------------------------------------------------------------
  // The named walker and the unnamed one
  // ---------------------------------------------------------------------------

  /** Read the tag, skip the name, walk the payload. */
  function TagNameWalk(data: Bytes, pos: nat): Walked
    requires pos <= |data|
  {
    if pos >= |data| then Err(IncompleteInput)
    else
      var start :- SkipName(data, pos + 1);
      Walk(data[pos], data, start)
  }

  /** `parse_nbt_payload` is that composition except on TAG_End, which it reads without a name, and on an unknown
      tag, which it refuses before looking for a name that may be cut off. */
  lemma NamedWalkerAgrees(data: Bytes, pos: nat)
    requires pos < |data|
    ensures WalkNamed(data, pos) == TagNameWalk(data, pos)
       <==> data[pos] != TAG_END && (data[pos] <= TAG_BYTES_0D || SkipName(data, pos + 1).Ok?)
  {
  }

  /** The two tags on which they differ, in one byte each. */
  lemma NamedWalkerDiffers()
    ensures WalkNamed([TAG_END], 0) == Ok(1) && TagNameWalk([TAG_END], 0) == Err(IncompleteInput)
    ensures WalkNamed([0x0E], 0) == Err(InvalidBoolean) && TagNameWalk([0x0E], 0) == Err(IncompleteInput)
  {
  }
}
