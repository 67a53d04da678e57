/** The block override file (`persist.rs`): a strict file of 16-byte records, its length checked before any is read. */
module OverrideFile {
  import opened Wire
  import opened Lists
  import opened SaveBytes

  const MAGIC: Magic := [0x52, 0x42, 0x4f, 0x56]
  const RECORD_LENGTH: nat := 16

  datatype BlockPos = BlockPos(x: i32, y: i32, z: i32)
  type Override = (BlockPos, i32)

  function OverrideBytes(e: Override): (b: Bytes)
    ensures |b| == RECORD_LENGTH
  {
    LEI32(e.0.x) + (LEI32(e.0.y) + (LEI32(e.0.z) + LEI32(e.1)))
  }

  function ParseOverride(s: Bytes): Read<Override> {
    if |s| < RECORD_LENGTH then Err(Truncated)
    else Ok(((BlockPos(Int32(s[0..4]), Int32(s[4..8]), Int32(s[8..12])), Int32(s[12..16])), s[16..]))
  }

  function FileBytes(entries: seq<Override>): Bytes {
    RecordFile(MAGIC, OverrideBytes, entries)
  }

  /** A file the writer may produce: the order in which the map is visited is the implementation's choice. */
  ghost predicate IsFileOf(bytes: Bytes, overrides: map<BlockPos, i32>) {
    exists entries :: Enumerates(entries, overrides) && bytes == FileBytes(entries)
  }

  function Load(data: Bytes): Result<map<BlockPos, i32>, PersistError> {
    LoadRecords(MAGIC, ParseOverride, data)
  }

  lemma OverrideBack(e: Override, tail: Bytes)
    ensures ParseOverride(OverrideBytes(e) + tail) == Ok((e, tail))
  {
    hide Int32, LEI32;
    WordsBack();
    var s := OverrideBytes(e) + tail;
    assert s[0..4] == LEI32(e.0.x) && s[4..8] == LEI32(e.0.y) && s[8..12] == LEI32(e.0.z);
    assert s[12..16] == LEI32(e.1) && s[16..] == tail;
  }

  /** The layout of a record: where each field stands. */
  lemma OverrideLayout(e: Override)
    ensures var b := OverrideBytes(e);
            && b[0..4] == LEI32(e.0.x) && b[4..8] == LEI32(e.0.y) && b[8..12] == LEI32(e.0.z) && b[12..16] == LEI32(e.1)
  {
    hide LEI32;
  }

  lemma OverridesBack(entries: seq<Override>)
    ensures ReadsExactly(OverrideBytes, ParseOverride, entries) && CutsFail(OverrideBytes, ParseOverride, entries)
  {
    hide Int32, LEI32;
    forall e, tail | e in entries ensures ParseOverride(OverrideBytes(e) + tail) == Ok((e, tail)) {
      OverrideBack(e, tail);
    }
  }

  /** A world's overrides survive the file, in any order and whatever follows, exactly when `u32` can count them. */
  lemma FileRoundTrip(overrides: map<BlockPos, i32>, file: Bytes, tail: Bytes)
    requires IsFileOf(file, overrides)
    ensures Load(file + tail) == Ok(overrides) <==> |overrides| <= U32_MAX
  {
    hide OverrideBytes, ParseOverride, LoadRecords, RecordFile;
    var entries :| Enumerates(entries, overrides) && file == FileBytes(entries);
    if |overrides| <= U32_MAX {
      OverridesBack(entries);
      RecordsBack(MAGIC, OverrideBytes, ParseOverride, entries, overrides, tail);
    }
    if Load(file + tail) == Ok(overrides) {
      RecordsBounded(MAGIC, ParseOverride, file + tail);
    }
  }

  /** A file that lost any part of its end is corrupt. */
  lemma FileCut(overrides: map<BlockPos, i32>, file: Bytes, k: nat)
    requires IsFileOf(file, overrides) && |overrides| <= U32_MAX && k < |file|
    ensures Load(file[..k]) == Err(CorruptFile)
  {
    hide OverrideBytes, ParseOverride, LoadRecords, RecordFile;
    var entries :| Enumerates(entries, overrides) && file == FileBytes(entries);
    OverridesBack(entries);
    RecordsCut(MAGIC, OverrideBytes, ParseOverride, entries, k);
  }

  /** The length check in front of the loop refuses just the files the loop would run out of. */
  lemma {:induction false} LengthDecides(n: nat, s: Bytes)
    ensures ParseMany(ParseOverride, n, s).Ok? <==> |s| >= RECORD_LENGTH * n
  {
    if n > 0 && |s| >= RECORD_LENGTH {
      LengthDecides(n - 1, s[RECORD_LENGTH..]);
    }
  }

  // ---------------------------------------------------------------------------
  // The methods of the source
  // ---------------------------------------------------------------------------

  method SerializeOverrides(overrides: map<BlockPos, i32>) returns (bytes: Bytes)
    ensures IsFileOf(bytes, overrides)
  {
    hide Header, Visited, Enumerates, Many, LEI32;
    bytes := Header(MAGIC, |overrides|);
    var remaining := overrides.Keys;
    ghost var entries: seq<Override> := [];
    VisitNone(overrides);
    ManyNone(OverrideBytes);
    while remaining != {}
      invariant remaining <= overrides.Keys && Visited(entries, overrides, remaining)
      invariant bytes == Header(MAGIC, |overrides|) + Many(OverrideBytes, entries)
      decreases |remaining|
    {
      var pos :| pos in remaining;
      ghost var before := bytes;
      bytes := bytes + LEI32(pos.x);
      bytes := bytes + LEI32(pos.y);
      bytes := bytes + LEI32(pos.z);
      bytes := bytes + LEI32(overrides[pos]);
      assert bytes == before + OverrideBytes((pos, overrides[pos]));
      ManyAppend(OverrideBytes, entries, (pos, overrides[pos]));
      VisitOne(entries, overrides, remaining, pos);
      entries := entries + [(pos, overrides[pos])];
      remaining := remaining - {pos};
    }
    VisitAll(entries, overrides);
    Enumerated(entries, overrides);
  }

  method DeserializeOverrides(data: Bytes) returns (r: Result<map<BlockPos, i32>, PersistError>)
    ensures r == Load(data)
  {
    hide Word32, Int32, FromPairs, ParseMany;
    if |data| < 12 {
      return Err(CorruptFile);
    }
    if data[0..4] != MAGIC {
      return Err(CorruptFile);
    }
    var version := Word32(data[4..8]);
    if version != FORMAT_VERSION {
      return Err(UnsupportedVersion(version));
    }
    var count: nat := Word32(data[8..12]);
    var expectedLength := 12 + count * RECORD_LENGTH;
    LengthDecides(count, data[12..]);
    if |data| < expectedLength {
      return Err(CorruptFile);
    }
    var overrides: map<BlockPos, i32> := map[];
    var offset := 12;
    ghost var done: seq<Override> := [];
    NoPairs<BlockPos, i32>();
    ReadNone(ParseOverride, count, data[12..]);
    for i := 0 to count
      invariant offset == 12 + RECORD_LENGTH * i && |done| == i
      invariant overrides == FromPairs(done)
      invariant ReadSoFar(ParseOverride, count, data[12..], done, data[offset..])
    {
      ghost var s := data[offset..];
      assert data[offset..offset + 4] == s[0..4] && data[offset + 4..offset + 8] == s[4..8];
      assert data[offset + 8..offset + 12] == s[8..12] && data[offset + 12..offset + 16] == s[12..16];
      assert data[offset + 16..] == s[16..];
      var x := Int32(data[offset..offset + 4]);
      var y := Int32(data[offset + 4..offset + 8]);
      var z := Int32(data[offset + 8..offset + 12]);
      var blockState := Int32(data[offset + 12..offset + 16]);
      ReadOne(ParseOverride, count, data[12..], done, s);
      OneMorePair(done, (BlockPos(x, y, z), blockState));
      overrides := overrides[BlockPos(x, y, z) := blockState];
      done := done + [(BlockPos(x, y, z), blockState)];
      offset := offset + RECORD_LENGTH;
    }
    ReadAll(ParseOverride, count, data[12..], done, data[offset..]);
    return Ok(overrides);
  }
}
