/** What the save files share: little-endian fields, and a counted list of records behind a 12-byte header. */
module SaveBytes {
  import opened Wire
  import opened Lists

  const FORMAT_VERSION: u32 := 1
  const U32_MAX: nat := 0xffff_ffff

  /** The `None` or the corrupt-file error of a reader that runs out of bytes. */
  datatype Truncated = Truncated

  type Read<+T> = Result<(T, Bytes), Truncated>

  function TakeField(s: Bytes, n: nat): (r: Read<Bytes>)
    ensures r.Ok? ==> |r.value.0| == n
  {
    if |s| < n then Err(Truncated) else Ok((s[..n], s[n..]))
  }

  function LE16(n: u16): (b: Bytes)
    ensures |b| == 2
  {
    Widths();
    LittleEndian(n, 2)
  }

  function LE32(n: u32): (b: Bytes)
    ensures |b| == 4
  {
    Widths();
    LittleEndian(n, 4)
  }

  function LE64(n: u64): (b: Bytes)
    ensures |b| == 8
  {
    Widths();
    LittleEndian(n, 8)
  }

  function Word16(b: Bytes): u16
    requires |b| == 2
  {
    Widths();
    FromLittleEndian(b)
  }

  function Word32(b: Bytes): u32
    requires |b| == 4
  {
    Widths();
    FromLittleEndian(b)
  }

  function Word64(b: Bytes): u64
    requires |b| == 8
  {
    Widths();
    FromLittleEndian(b)
  }

  function LEI32(v: i32): (b: Bytes)
    ensures |b| == 4
  {
    LE32(Unsigned(v, TWO_32))
  }

  function Int32(b: Bytes): i32
    requires |b| == 4
  {
    Signed(Word32(b), TWO_32)
  }

  lemma WordsBack()
    ensures forall n: u16 :: Word16(LE16(n)) == n
    ensures forall n: u32 :: Word32(LE32(n)) == n
    ensures forall n: u64 :: Word64(LE64(n)) == n
    ensures forall v: i32 :: Int32(LEI32(v)) == v
  {
  }

  lemma FieldFront(b: Bytes, tail: Bytes)
    ensures TakeField(b + tail, |b|) == Ok((b, tail))
  {
    assert (b + tail)[..|b|] == b && (b + tail)[|b|..] == tail;
  }

  // ---------------------------------------------------------------------------
  // Files of records
  // ---------------------------------------------------------------------------

  /** The `PersistError`s a reader can give; I/O errors arise outside the formats. */
  datatype PersistError = CorruptFile | UnsupportedVersion(version: u32)

  type Magic = b: Bytes | |b| == 4 witness [0, 0, 0, 0]

  /** Magic, version and the number of records, which saturates at `u32::MAX`. */
  function Header(magic: Magic, count: nat): (b: Bytes)
    ensures |b| == 12
  {
    magic + (LE32(FORMAT_VERSION) + LE32(if count > U32_MAX then U32_MAX else count))
  }

  /** A file with the entries in the order the map yields them. */
  function RecordFile<T>(magic: Magic, enc: T -> Bytes, entries: seq<T>): Bytes {
    Header(magic, |entries|) + Many(enc, entries)
  }

  /** The readers that reject a file with any record missing; later bytes are ignored. */
  function LoadRecords<K, V>(magic: Magic, dec: Bytes -> Read<(K, V)>, data: Bytes): Result<map<K, V>, PersistError> {
    if |data| < 12 || data[0..4] != magic then Err(CorruptFile)
    else if Word32(data[4..8]) != FORMAT_VERSION then Err(UnsupportedVersion(Word32(data[4..8])))
    else
      match ParseMany(dec, Word32(data[8..12]), data[12..])
      case Ok((entries, _)) => Ok(FromPairs(entries))
      case Err(_) => Err(CorruptFile)
  }

  lemma HeaderFields(magic: Magic, count: nat, rest: Bytes)
    ensures var s := Header(magic, count) + rest;
            && |s| >= 12 && s[0..4] == magic && Word32(s[4..8]) == FORMAT_VERSION
            && Word32(s[8..12]) == (if count > U32_MAX then U32_MAX else count) && s[12..] == rest
  {
    hide Word32, LE32;
    WordsBack();
    var s := Header(magic, count) + rest;
    var stored: u32 := if count > U32_MAX then U32_MAX else count;
    assert s[0..4] == magic && s[4..8] == LE32(FORMAT_VERSION) && s[8..12] == LE32(stored) && s[12..] == rest;
  }

  /** A strict file gives back its map whatever the iteration order, and whatever follows it. */
  lemma RecordsBack<K(!new), V(!new)>(magic: Magic, enc: ((K, V)) -> Bytes, dec: Bytes -> Read<(K, V)>,
                                      entries: seq<(K, V)>, m: map<K, V>, tail: Bytes)
    requires Enumerates(entries, m) && |m| <= U32_MAX
    requires ReadsExactly(enc, dec, entries)
    ensures LoadRecords(magic, dec, RecordFile(magic, enc, entries) + tail) == Ok(m)
  {
    hide Header, Word32, FromPairs;
    var records := Many(enc, entries) + tail;
    assert RecordFile(magic, enc, entries) + tail == Header(magic, |entries|) + records;
    HeaderFields(magic, |entries|, records);
    ManyExact(enc, dec, entries, tail);
    EnumerationRestored(entries, m);
  }

  /** Cut anywhere, it is corrupt. */
  lemma RecordsCut<K(!new), V(!new)>(magic: Magic, enc: ((K, V)) -> Bytes, dec: Bytes -> Read<(K, V)>,
                                     entries: seq<(K, V)>, k: nat)
    requires |entries| <= U32_MAX
    requires ReadsExactly(enc, dec, entries) && CutsFail(enc, dec, entries)
    requires k < |RecordFile(magic, enc, entries)|
    ensures LoadRecords(magic, dec, RecordFile(magic, enc, entries)[..k]) == Err(CorruptFile)
  {
    hide Header, Word32, FromPairs;
    if k >= 12 {
      var records := Many(enc, entries);
      assert RecordFile(magic, enc, entries)[..k] == Header(magic, |entries|) + records[..k - 12];
      HeaderFields(magic, |entries|, records[..k - 12]);
      ManyCutFails(enc, dec, (e: (K, V)) => e, entries, k - 12);
    }
  }

  /** Other magic bytes are corrupt, another version is named, and fewer than twelve bytes are no header at all. */
  lemma RecordsRefused<K, V>(magic: Magic, dec: Bytes -> Read<(K, V)>, other: Magic, version: u32, rest: Bytes)
    requires other != magic && version != 1
    ensures LoadRecords(magic, dec, other + rest) == Err(CorruptFile)
    ensures |rest| >= 4 ==> LoadRecords(magic, dec, magic + (LE32(version) + rest)) == Err(UnsupportedVersion(version))
    ensures |rest| < 4 ==> LoadRecords(magic, dec, magic + (LE32(version) + rest)) == Err(CorruptFile)
  {
    hide Word32, LE32, FromPairs, ParseMany;
    WordsBack();
    assert (other + rest)[..4] == other;
    var s := magic + (LE32(version) + rest);
    assert s[0..4] == magic && s[4..8] == LE32(version);
  }

  /** The header in bytes: four of magic, the version 1 and the count, least significant byte first. */
  lemma HeaderBytes(magic: Magic, count: nat)
    requires count <= U32_MAX
    ensures Header(magic, count) == magic + [1, 0, 0, 0]
            + [count % 256, count / 256 % 256, count / 0x1_0000 % 256, count / 0x100_0000 % 256]
  {
    LE32Bytes(count);
    LE32Bytes(1);
  }

  /** Little-endian words, byte by byte. */
  lemma LE32Bytes(n: u32)
    ensures LE32(n) == [n % 256, n / 256 % 256, n / 0x1_0000 % 256, n / 0x100_0000 % 256]
  {
    hide LittleEndian;
    Widths();
    assert Pow256(3) == 0x100_0000 && Pow256(0) == 1;
    LittleEndianDigits(n, 4, 0);
    LittleEndianDigits(n, 4, 1);
    LittleEndianDigits(n, 4, 2);
    LittleEndianDigits(n, 4, 3);
  }

  lemma LE16Bytes(n: u16)
    ensures LE16(n) == [n % 256, n / 256 % 256]
  {
    hide LittleEndian;
    Widths();
    assert Pow256(0) == 1;
    LittleEndianDigits(n, 2, 0);
    LittleEndianDigits(n, 2, 1);
  }

  /** No file yields more entries than its count field can say. */
  lemma RecordsBounded<K, V>(magic: Magic, dec: Bytes -> Read<(K, V)>, data: Bytes)
    requires LoadRecords(magic, dec, data).Ok?
    ensures |LoadRecords(magic, dec, data).value| <= U32_MAX
  {
    hide Word32, FromPairs;
    FromPairsOrigin(ParseMany(dec, Word32(data[8..12]), data[12..]).value.0);
  }

  // ---------------------------------------------------------------------------
  // Loops over records
  // ---------------------------------------------------------------------------

  lemma NoPairs<K, V>()
    ensures FromPairs<K, V>([]) == map[]
  {
  }

  lemma OneMorePair<K, V>(done: seq<(K, V)>, e: (K, V))
    ensures FromPairs(done + [e]) == FromPairs(done)[e.0 := e.1]
  {
    assert (done + [e])[..|done + [e]| - 1] == done;
  }
}
