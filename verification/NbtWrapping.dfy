/** The NBT skipper in builds without overflow checks: `pos += (length as usize) * unit` wraps at 64 bits, so a negative
    array length can move the position backwards and a walk need not end. The recursion and the loops are therefore
    given a budget of steps, and `None` is a walk that has not ended within it. */
module NbtWrapping {
  import opened Wire
  import opened Nbt

  function WrappedElements(data: Bytes, pos: nat, length: i32, unit: nat): (r: Walked)
    ensures r.Ok? ==> r.value <= |data|
  {
    var size := Unsigned(length, TWO_64) * unit % TWO_64;
    var end := (pos + size) % TWO_64;
    if end > |data| then Err(IncompleteInput) else Ok(end)
  }

  function WrappedArray(tag: byte, data: Bytes, pos: nat): (r: Walked)
    ensures r.Ok? ==> r.value <= |data|
  {
    if pos + 4 > |data| then Err(IncompleteInput)
    else WrappedElements(data, pos + 4, ReadI32(data, pos), UnitSize(tag))
  }

  function WrappedWalk(budget: nat, tag: byte, data: Bytes, pos: nat): (r: Option<Walked>)
    requires pos <= |data|
    ensures r.Some? && r.value.Ok? ==> r.value.value <= |data|
    decreases budget
  {
    if budget == 0 then None
    else if tag == TAG_LIST && pos + 5 <= |data| then
      WrappedList(budget - 1, data[pos], ReadI32(data, pos + 1), data, pos + 5)
    else if tag == TAG_COMPOUND then WrappedEntries(budget - 1, data, pos)
    else if TAG_COMPOUND < tag <= TAG_BYTES_0D then Some(WrappedArray(tag, data, pos))
    else Some(Walk(tag, data, pos))
  }

  function WrappedList(budget: nat, tag: byte, count: int, data: Bytes, pos: nat): (r: Option<Walked>)
    requires pos <= |data|
    ensures r.Some? && r.value.Ok? ==> r.value.value <= |data|
    decreases budget
  {
    if budget == 0 then None
    else if count <= 0 then Some(Ok(pos))
    else
      match WrappedWalk(budget - 1, tag, data, pos)
      case Some(Ok(next)) => WrappedList(budget - 1, tag, count - 1, data, next)
      case other => other
  }

  function WrappedEntries(budget: nat, data: Bytes, pos: nat): (r: Option<Walked>)
    requires pos <= |data|
    ensures r.Some? && r.value.Ok? ==> r.value.value <= |data|
    decreases budget
  {
    if budget == 0 then None
    else if pos >= |data| then Some(Err(IncompleteInput))
    else if data[pos] == TAG_END then Some(Ok(pos + 1))
    else
      match SkipName(data, pos + 1)
      case Err(e) => Some(Err(e))
      case Ok(start) =>
        match WrappedWalk(budget - 1, data[pos], data, start)
        case Some(Ok(next)) => WrappedEntries(budget - 1, data, next)
        case other => other
  }

  // ---------------------------------------------------------------------------
  // Where the two builds agree
  // ---------------------------------------------------------------------------

  /** No slice is longer than `isize::MAX` bytes. */
  predicate IsSlice(data: Bytes) {
    |data| < TWO_64 / 2
  }

  lemma ArraysAgree(tag: byte, data: Bytes, pos: nat)
    requires IsSlice(data) && pos <= |data| && TAG_COMPOUND < tag <= TAG_BYTES_0D
    requires SkipArray(tag, data, pos) != Err(Aborted)
    ensures WrappedArray(tag, data, pos) == SkipArray(tag, data, pos)
  {
    hide ReadI32;
    if pos + 4 <= |data| {
      var length, unit := ReadI32(data, pos), UnitSize(tag);
      if length >= 0 {
        assert length * unit <= 0x8000_0000 * 8;
      }
    }
  }

  lemma {:induction false} WalksAgree(tag: byte, data: Bytes, pos: nat) returns (enough: nat)
    requires IsSlice(data) && pos <= |data| && Walk(tag, data, pos) != Err(Aborted)
    ensures forall budget: nat :: budget >= enough ==> WrappedWalk(budget, tag, data, pos) == Some(Walk(tag, data, pos))
    decreases |data| - pos, 1, 0
  {
    hide ReadI32, SkipArray, WrappedArray, SkipName;
    enough := 1;
    if tag == TAG_LIST && pos + 5 <= |data| {
      enough := ListsAgree(data[pos], ReadI32(data, pos + 1), data, pos + 5);
      enough := enough + 1;
    } else if tag == TAG_COMPOUND {
      enough := EntriesAgree(data, pos);
      enough := enough + 1;
    } else if TAG_COMPOUND < tag <= TAG_BYTES_0D {
      ArraysAgree(tag, data, pos);
    }
  }

  lemma {:induction false} ListsAgree(tag: byte, count: int, data: Bytes, pos: nat) returns (enough: nat)
    requires IsSlice(data) && pos <= |data| && WalkElements(tag, count, data, pos) != Err(Aborted)
    ensures forall budget: nat :: budget >= enough ==>
              WrappedList(budget, tag, count, data, pos) == Some(WalkElements(tag, count, data, pos))
    decreases |data| - pos, 2, count
  {
    hide Walk, WrappedWalk;
    enough := 1;
    if count > 0 {
      var first := WalksAgree(tag, data, pos);
      enough := first + 1;
      var next := Walk(tag, data, pos);
      if next.Ok? {
        var others := ListsAgree(tag, count - 1, data, next.value);
        enough := first + others + 1;
      }
    }
  }

  lemma {:induction false} EntriesAgree(data: Bytes, pos: nat) returns (enough: nat)
    requires IsSlice(data) && pos <= |data| && WalkEntries(data, pos) != Err(Aborted)
    ensures forall budget: nat :: budget >= enough ==>
              WrappedEntries(budget, data, pos) == Some(WalkEntries(data, pos))
    decreases |data| - pos, 0, 0
  {
    hide Walk, WrappedWalk, SkipName;
    enough := 1;
    if pos < |data| && data[pos] != TAG_END && SkipName(data, pos + 1).Ok? {
      var start := SkipName(data, pos + 1).value;
      var first := WalksAgree(data[pos], data, start);
      enough := first + 1;
      var next := Walk(data[pos], data, start);
      if next.Ok? {
        var others := EntriesAgree(data, next.value);
        enough := first + others + 1;
      }
    }
  }

  /** The wrapping build never aborts. */
  lemma {:induction false} NeverAborts(budget: nat, tag: byte, data: Bytes, pos: nat)
    requires pos <= |data|
    ensures WrappedWalk(budget, tag, data, pos) != Some(Err(Aborted))
    decreases budget, 0
  {
    if budget > 0 {
      if tag == TAG_LIST && pos + 5 <= |data| {
        ListNeverAborts(budget - 1, data[pos], ReadI32(data, pos + 1), data, pos + 5);
      } else if tag == TAG_COMPOUND {
        EntriesNeverAbort(budget - 1, data, pos);
      }
    }
  }

  lemma {:induction false} ListNeverAborts(budget: nat, tag: byte, count: int, data: Bytes, pos: nat)
    requires pos <= |data|
    ensures WrappedList(budget, tag, count, data, pos) != Some(Err(Aborted))
    decreases budget, 0
  {
    hide WrappedWalk;
    if budget > 0 && count > 0 {
      NeverAborts(budget - 1, tag, data, pos);
      var next := WrappedWalk(budget - 1, tag, data, pos);
      if next.Some? && next.value.Ok? {
        ListNeverAborts(budget - 1, tag, count - 1, data, next.value.value);
      }
    }
  }

  lemma {:induction false} EntriesNeverAbort(budget: nat, data: Bytes, pos: nat)
    requires pos <= |data|
    ensures WrappedEntries(budget, data, pos) != Some(Err(Aborted))
    decreases budget, 0
  {
    hide WrappedWalk;
    if budget > 0 && pos < |data| && data[pos] != TAG_END && SkipName(data, pos + 1).Ok? {
      var start := SkipName(data, pos + 1).value;
      NeverAborts(budget - 1, data[pos], data, start);
      var next := WrappedWalk(budget - 1, data[pos], data, start);
      if next.Some? && next.value.Ok? {
        EntriesNeverAbort(budget - 1, data, next.value.value);
      }
    }
  }

  /** The wrapping walker ends, with the very same result, from some budget on. */
  ghost predicate SameResult(tag: byte, data: Bytes, pos: nat)
    requires pos <= |data|
  {
    exists enough: nat :: SameFrom(enough, tag, data, pos)
  }

  ghost predicate SameFrom(enough: nat, tag: byte, data: Bytes, pos: nat)
    requires pos <= |data|
  {
    forall budget: nat :: budget >= enough ==> WrappedWalk(budget, tag, data, pos) == Some(Walk(tag, data, pos))
  }

  /** The two builds walk any payload alike exactly when the checked one does not abort. */
  lemma BuildsAgree(tag: byte, data: Bytes, pos: nat)
    requires IsSlice(data) && pos <= |data|
    ensures SameResult(tag, data, pos) <==> Walk(tag, data, pos) != Err(Aborted)
  {
    hide WrappedWalk, Walk;
    if Walk(tag, data, pos) != Err(Aborted) {
      var enough := WalksAgree(tag, data, pos);
      assert SameFrom(enough, tag, data, pos);
    } else if SameResult(tag, data, pos) {
      var enough: nat :| SameFrom(enough, tag, data, pos);
      NeverAborts(enough, tag, data, pos);
    }
  }

  // ---------------------------------------------------------------------------
  // A walk that never ends
  // ---------------------------------------------------------------------------

  /** A compound with one int array "a" of length -2: eight bytes back from the end of its length is its own tag. */
  const ENDLESS: Bytes := [0x0A, 0, 0, 0x0B, 0, 1, 0x61, 0xFF, 0xFF, 0xFF, 0xFE]

  lemma EndlessFields()
    ensures ReadU16(ENDLESS, 1) == 0 && ReadU16(ENDLESS, 4) == 1 && ReadI32(ENDLESS, 7) == -2
  {
    assert ENDLESS[1..3] == [0, 0] && ENDLESS[4..6] == [0, 1] && ENDLESS[7..11] == [0xFF, 0xFF, 0xFF, 0xFE];
    assert FromBigEndian([0xFF, 0xFF, 0xFF, 0xFE][..3]) == 0xFF_FFFF by {
      assert [0xFF, 0xFF, 0xFF, 0xFE][..3] == [0xFF, 0xFF, 0xFF];
      assert [0xFF, 0xFF, 0xFF][..2] == [0xFF, 0xFF] && [0xFF, 0xFF][..1] == [0xFF];
    }
  }

  /** The checked build aborts on it; the wrapping build comes back to the same entry for ever. */
  lemma {:induction false} EndlessLoop(budget: nat)
    ensures ParseNbt(ENDLESS) == Err(Aborted)
    ensures WrappedEntries(budget, ENDLESS, 3) == None
  {
    hide ReadI32, ReadU16;
    EndlessFields();
    assert SkipName(ENDLESS, 1) == Ok(3) && SkipName(ENDLESS, 4) == Ok(7);
    assert SkipArray(TAG_INT_ARRAY, ENDLESS, 7) == Err(Aborted);
    assert Walk(TAG_INT_ARRAY, ENDLESS, 7) == Err(Aborted);
    assert WalkEntries(ENDLESS, 3) == Err(Aborted);
    assert WrappedArray(TAG_INT_ARRAY, ENDLESS, 7) == Ok(3);
    if budget > 1 {
      EndlessLoop(budget - 1);
    }
  }
}
