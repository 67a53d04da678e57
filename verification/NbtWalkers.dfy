/** The three NBT walkers of `play.rs`, loops, mutual recursion and shared position as in the source.

    `ParseNbtPayloadInner` and `ParseNbtListElement` are separate copies there; both are proved equal to `Nbt.Walk`. */
module NbtWalkers {
  import opened Wire
  import opened Nbt

  /** `data: &[u8], pos: &mut usize`. */
  class Cursor {
    const data: Bytes
    var pos: nat

    constructor (data: Bytes)
      ensures this.data == data && pos == 0
    {
      this.data := data;
      pos := 0;
    }

    /** The outcome of a walker that reports success or failure and leaves its result in `pos`. */
    ghost predicate Reached(expected: Walked, r: Result<(), CodecError>)
      reads this
    {
      match expected
      case Ok(end) => r == Ok(()) && pos == end
      case Err(e) => r == Err(e)
    }

    method SkipBytes(size: nat) returns (r: Result<(), CodecError>)
      modifies this
      ensures Reached(Skip(data, old(pos), size), r)
    {
      pos := pos + size;
      return if pos > |data| then Err(IncompleteInput) else Ok(());
    }

    method SkipNbtName() returns (r: Result<(), CodecError>)
      modifies this
      ensures Reached(SkipName(data, old(pos)), r)
    {
      if pos + 2 > |data| {
        return Err(IncompleteInput);
      }
      var length := ReadU16(data, pos);
      pos := pos + 2;
      r := SkipBytes(length);
    }

    method SkipNbtPrimitive(tag: byte) returns (r: Result<(), CodecError>)
      requires 1 <= tag <= TAG_STRING && pos <= |data|
      modifies this
      ensures Reached(Walk(tag, data, old(pos)), r)
    {
      if tag == TAG_STRING {
        if pos + 2 > |data| {
          return Err(IncompleteInput);
        }
        var length: nat := ReadU16(data, pos);
        r := SkipBytes(2 + length);
      } else {
        var size := if tag == 1 then 1
                    else if tag == 2 then 2
                    else if tag == 3 || tag == 5 || tag == 7 then 4
                    else 8;
        r := SkipBytes(size);
      }
    }

    /** The array branches, which differ in the element size only: `pos += (length as usize) * unit` on checked 64-bit
        arithmetic, then the bounds check. The product overflows for a negative length alone. */
    method SkipNbtArray(unit: nat) returns (r: Result<(), CodecError>)
      requires 1 <= unit <= 8
      modifies this
      ensures Reached(SkipUnits(unit, data, old(pos)), r)
    {
      if pos + 4 > |data| {
        return Err(IncompleteInput);
      }
      var length: int := ReadI32(data, pos);
      pos := pos + 4;
      if length < 0 {
        var size: nat := (length + TWO_64) * unit;
        if size > USIZE_MAX {
          return Err(Aborted);
        }
        pos := pos + size;
        return if pos > USIZE_MAX then Err(Aborted) else Err(IncompleteInput);
      }
      pos := pos + length * unit;
      return if pos > |data| then Err(IncompleteInput) else Ok(());
    }

    method ParseNbtPayload() returns (r: Result<Bytes, CodecError>)
      requires pos <= |data|
      modifies this
      ensures match WalkNamed(data, old(pos))
              case Ok(end) => pos == end && r == Ok(data[old(pos)..end])
              case Err(e) => r == Err(e)
    {
      var start := pos;
      var _ :- SkipNbtPayload();
      return Ok(data[start..pos]);
    }

    /** The body of `parse_nbt_payload`, apart from the copy of the bytes it returns. */
    method SkipNbtPayload() returns (r: Result<(), CodecError>)
      requires pos <= |data|
      modifies this
      ensures Reached(WalkNamed(data, old(pos)), r)
    {
      hide ReadI32, SkipName, SkipUnits;
      if pos >= |data| {
        return Err(IncompleteInput);
      }
      var tag := data[pos];
      pos := pos + 1;
      if tag == TAG_END {
        return Ok(());
      } else if tag <= TAG_STRING {
        var _ :- SkipNbtName();
        r := SkipNbtPrimitive(tag);
      } else if tag == TAG_LIST {
        var _ :- SkipNbtName();
        if pos + 5 > |data| {
          return Err(IncompleteInput);
        }
        var elementType := data[pos];
        pos := pos + 1;
        var length: int := ReadI32(data, pos);
        pos := pos + 4;
        ghost var expected := WalkElements(elementType, length, data, pos);
        var i := 0;
        while i < length
          invariant pos <= |data|
          invariant WalkElements(elementType, length - i, data, pos) == expected
          decreases length - i
        {
          var _ :- ParseNbtListElement(elementType);
          i := i + 1;
        }
        return Ok(());
      } else if tag == TAG_COMPOUND {
        var _ :- SkipNbtName();
        ghost var expected := WalkEntries(data, pos);
        while true
          invariant pos <= |data|
          invariant WalkEntries(data, pos) == expected
          decreases |data| - pos
        {
          if pos >= |data| {
            return Err(IncompleteInput);
          }
          var childType := data[pos];
          pos := pos + 1;
          if childType == TAG_END {
            return Ok(());
          }
          var _ :- SkipNbtName();
          var _ :- ParseNbtPayloadInner(childType);
        }
      } else if tag == TAG_INT_ARRAY {
        var _ :- SkipNbtName();
        r := SkipNbtArray(4);
      } else if tag == TAG_LONG_ARRAY {
        var _ :- SkipNbtName();
        r := SkipNbtArray(8);
      } else if tag == TAG_BYTES_0D {
        var _ :- SkipNbtName();
        r := SkipNbtArray(1);
      } else {
        return Err(InvalidBoolean);
      }
    }

    method ParseNbtPayloadInner(tag: byte) returns (r: Result<(), CodecError>)
      requires pos <= |data|
      modifies this
      ensures Reached(Walk(tag, data, old(pos)), r)
      decreases |data| - pos
    {
      if tag == TAG_END {
        return Ok(());
      } else if tag <= TAG_STRING {
        r := SkipNbtPrimitive(tag);
      } else if tag == TAG_LIST {
        if pos + 5 > |data| {
          return Err(IncompleteInput);
        }
        var elementType := data[pos];
        pos := pos + 1;
        var length: int := ReadI32(data, pos);
        pos := pos + 4;
        ghost var expected := WalkElements(elementType, length, data, pos);
        var i := 0;
        while i < length
          invariant old(pos) + 5 <= pos <= |data|
          invariant WalkElements(elementType, length - i, data, pos) == expected
          decreases length - i
        {
          var _ :- ParseNbtListElement(elementType);
          i := i + 1;
        }
        return Ok(());
      } else if tag == TAG_COMPOUND {
        ghost var expected := WalkEntries(data, pos);
        while true
          invariant old(pos) <= pos <= |data|
          invariant WalkEntries(data, pos) == expected
          decreases |data| - pos
        {
          if pos >= |data| {
            return Err(IncompleteInput);
          }
          var childType := data[pos];
          pos := pos + 1;
          if childType == TAG_END {
            return Ok(());
          }
          var _ :- SkipNbtName();
          var _ :- ParseNbtPayloadInner(childType);
        }
      } else if tag == TAG_INT_ARRAY {
        r := SkipNbtArray(4);
      } else if tag == TAG_LONG_ARRAY {
        r := SkipNbtArray(8);
      } else if tag == TAG_BYTES_0D {
        r := SkipNbtArray(1);
      } else {
        return Err(InvalidBoolean);
      }
    }

    method ParseNbtListElement(elementType: byte) returns (r: Result<(), CodecError>)
      requires pos <= |data|
      modifies this
      ensures Reached(Walk(elementType, data, old(pos)), r)
      decreases |data| - pos
    {
      if elementType == TAG_END {
        return Ok(());
      } else if elementType <= TAG_STRING {
        r := SkipNbtPrimitive(elementType);
      } else if elementType == TAG_LIST {
        if pos + 5 > |data| {
          return Err(IncompleteInput);
        }
        var innerType := data[pos];
        pos := pos + 1;
        var length: int := ReadI32(data, pos);
        pos := pos + 4;
        ghost var expected := WalkElements(innerType, length, data, pos);
        var i := 0;
        while i < length
          invariant old(pos) + 5 <= pos <= |data|
          invariant WalkElements(innerType, length - i, data, pos) == expected
          decreases length - i
        {
          var _ :- ParseNbtListElement(innerType);
          i := i + 1;
        }
        return Ok(());
      } else if elementType == TAG_COMPOUND {
        ghost var expected := WalkEntries(data, pos);
        while true
          invariant old(pos) <= pos <= |data|
          invariant WalkEntries(data, pos) == expected
          decreases |data| - pos
        {
          if pos >= |data| {
            return Err(IncompleteInput);
          }
          var childType := data[pos];
          pos := pos + 1;
          if childType == TAG_END {
            return Ok(());
          }
          var _ :- SkipNbtName();
          var _ :- ParseNbtPayloadInner(childType);
        }
      } else if elementType == TAG_INT_ARRAY {
        r := SkipNbtArray(4);
      } else if elementType == TAG_LONG_ARRAY {
        r := SkipNbtArray(8);
      } else if elementType == TAG_BYTES_0D {
        r := SkipNbtArray(1);
      } else {
        return Err(InvalidBoolean);
      }
    }
  }

  method ReadNbtCompound(input: Input) returns (r: Result<Bytes, CodecError>)
    modifies input
    ensures Transactional(ParseNbt(old(input.rest)), r, old(input.rest), input.rest)
  {
    var start := input.rest;
    if start == [] {
      return Err(IncompleteInput);
    }
    if start[0] != TAG_COMPOUND {
      return Err(InvalidBoolean);
    }
    var cursor := new Cursor(start);
    var nbt :- cursor.ParseNbtPayload();
    input.rest := start[cursor.pos..];
    return Ok(nbt);
  }
}
