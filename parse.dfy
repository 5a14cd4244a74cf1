/** `BigArchive::new`: the fixed sixteen-byte header, the entry table and the
    junk length, both as the step-by-step loop the constructor runs and as a
    function of the input bytes, with lemmas that describe the outcome in
    terms of the independent table description. */
module Parsing {
  import opened ByteOrder
  import opened Errors
  import opened Formats
  import opened EntryTable

  /** Magic, archive size, entry count and first offset, four bytes each. */
  const HEADER_LEN: nat := 16

  /** What `BigArchive::new` ends with: the archive's parts and the stream
      position its reader is left at, the error it returns, or a panic of a
      debug build on a u32 overflow or underflow. */
  datatype ParseOutcome =
    | Parsed(format: Format, size: u32, junkLen: u32, entries: map<string, BigEntry>, cursor: nat)
    | Failed(error: ReadError)
    | Panicked

  /** The archive size field: the only little-endian field of the header. */
  function ArchiveSize(s: seq<byte>): u32
    requires |s| >= HEADER_LEN
  {
    LE32(s, 4)
  }

  function NumEntries(s: seq<byte>): u32
    requires |s| >= HEADER_LEN
  {
    BE32(s, 8)
  }

  function FirstOffset(s: seq<byte>): u32
    requires |s| >= HEADER_LEN
  {
    BE32(s, 12)
  }

  /** The outcome of `BigArchive::new` on a stream holding `s`, with
      `decode` standing for `String::from_utf8_lossy`. An unknown magic is
      reported before any other read; a header cut short is an I/O error;
      the table is read by `Table`; then `first_offset - pos + 1` is the junk
      length, and `first_offset < pos` underflows. */
  function ParseSpec(s: seq<byte>, decode: Decoder): ParseOutcome
  {
    var format := ReadFormat(s).0;
    if format.Unknown? then Failed(UnknownArchiveFormat(format.bytes))
    else if |s| < HEADER_LEN then Failed(StdIoError)
    else
      TablePosGrows(StreamReader(s), HEADER_LEN, NumEntries(s), HEADER_LEN, map[], decode);
      match Table(StreamReader(s), HEADER_LEN, NumEntries(s), HEADER_LEN, map[], decode)
      case TableFailed(e) => Failed(e)
      case TablePanicked => Panicked
      case TableOk(entries, pos, cursor) =>
        if FirstOffset(s) < pos then Panicked
        else Parsed(format, ArchiveSize(s), FirstOffset(s) - pos + 1, entries, cursor)
  }

  /** The reads of one table loop iteration from position `at`: the
      big-endian offset and length, then the name up to and including its
      NUL, of which `buf[..name_len - 1]` is kept. */
  method ReadTableRecord(s: seq<byte>, at: nat) returns (rr: RecordRead)
    ensures rr == ReadRecord(s, at)
  {
    var cursor := at;
    if cursor + 4 > |s| {
      return Truncated;
    }
    var offset := BE32(s, cursor);
    cursor := cursor + 4;
    if cursor + 4 > |s| {
      return Truncated;
    }
    var dataLen := BE32(s, cursor);
    cursor := cursor + 4;
    var nameLen := ReadUntilCount(s, cursor);
    if nameLen == 0 {
      return EmptyName;
    }
    NameBytesIsConsumedPrefix(s, cursor);
    var nameBytes := s[cursor .. cursor + nameLen - 1];
    return Got(Record(offset, dataLen, nameBytes, nameLen));
  }

  /** `BigArchive::new` step by step over the stream `s` and a read
      position: the magic, three header integers, then `num_entries` table
      records, each inserted into the map under its decoded name while `pos`
      counts the header bytes. */
  method Parse(s: seq<byte>, decode: Decoder) returns (r: ParseOutcome)
    ensures r == ParseSpec(s, decode)
  {
    var detected := ReadFormat(s);
    var format := detected.0;
    var cursor: nat := detected.1;
    if format.Unknown? {
      return Failed(UnknownArchiveFormat(format.bytes));
    }
    if cursor + 4 > |s| {
      return Failed(StdIoError);
    }
    var archiveLen := LE32(s, cursor);
    cursor := cursor + 4;
    if cursor + 4 > |s| {
      return Failed(StdIoError);
    }
    var numEntries := BE32(s, cursor);
    cursor := cursor + 4;
    if cursor + 4 > |s| {
      return Failed(StdIoError);
    }
    var firstOffset := BE32(s, cursor);
    cursor := cursor + 4;
    var table := ReadTable(s, numEntries, decode);
    match table
    case TableFailed(e) =>
      return Failed(e);
    case TablePanicked =>
      return Panicked;
    case TableOk(entries, pos, end) =>
      TablePosGrows(StreamReader(s), HEADER_LEN, numEntries, HEADER_LEN, map[], decode);
      if firstOffset < pos {
        // `first_offset - pos` underflows
        return Panicked;
      }
      return Parsed(format, archiveLen, firstOffset - pos + 1, entries, end);
  }

  /** The table loop of `BigArchive::new`: `num_entries` records read from
      the end of the header, each inserted into the map under its decoded
      name, while `pos` counts the header bytes from sixteen. */
  method ReadTable(s: seq<byte>, numEntries: u32, decode: Decoder) returns (t: TableOutcome)
    ensures t == Table(StreamReader(s), HEADER_LEN, numEntries, HEADER_LEN, map[], decode)
  {
    var cursor: nat := HEADER_LEN;
    var pos: u32 := 16;
    var entries: map<string, BigEntry> := map[];
    var i: nat := 0;
    ghost var read := StreamReader(s);
    ghost var goal := Table(read, HEADER_LEN, numEntries, HEADER_LEN, map[], decode);
    while i < numEntries
      invariant i <= numEntries
      invariant Table(read, cursor, numEntries - i, pos, entries, decode) == goal
    {
      var rr := ReadTableRecord(s, cursor);
      assert read(cursor) == rr;
      match rr
      case Truncated =>
        return TableFailed(StdIoError);
      case EmptyName =>
        // `name_len - 1` underflows
        return TablePanicked;
      case Got(rec) =>
        ghost var (cursor0, pos0, entries0, left0) := (cursor, pos, entries, numEntries - i);
        var name := decode(rec.nameBytes);
        entries := entries[name := BigEntry(rec.offset, rec.dataLen, name)];
        var metadataLen := 8 + rec.nameLen % U32_LIMIT;
        if metadataLen >= U32_LIMIT || pos + metadataLen >= U32_LIMIT {
          // `pos += entry_metadata_len` overflows
          return TablePanicked;
        }
        cursor := cursor + 8 + rec.nameLen;
        pos := pos + metadataLen;
        i := i + 1;
        TableIteration(read, cursor0, left0, pos0, entries0, decode, rec, cursor, numEntries - i, pos, entries);
    }
    return TableOk(entries, pos, cursor);
  }
  // ---------------------------------------------------------------------
  // The outcome described through the table's records.

  /** The magic is known and the header is complete, so the table is read. */
  ghost predicate HeaderRead(s: seq<byte>)
  {
    !ReadFormat(s).0.Unknown? && |s| >= HEADER_LEN
  }

  /** The table records of a stream whose header was read. */
  function TableOf(s: seq<byte>): ScanOutcome
    requires |s| >= HEADER_LEN
  {
    Scan(StreamReader(s), HEADER_LEN, NumEntries(s))
  }

  /** An unrecognised magic, a stream shorter than four bytes included, is
      the error carrying the four-byte buffer. */
  lemma ParseUnknownFormat(s: seq<byte>, decode: Decoder)
    requires !(|s| >= 4 && (s[..4] == BIG4 || s[..4] == BIGF))
    ensures ParseSpec(s, decode) == Failed(UnknownArchiveFormat(MagicBuffer(s)))
  {
  }

  /** When the table reads and the counter ends no later than the first
      offset, `new` succeeds: the map is the last-write-wins index of the
      records, the junk length is the first offset less the counter plus
      one, and the reader stands at the end of the table. */
  lemma ParseSucceeds(s: seq<byte>, decode: Decoder, recs: seq<Record>, end: nat)
    requires HeaderRead(s)
    requires TableOf(s) == Scanned(recs, end)
    requires HEADER_LEN + SumMeta(recs) <= FirstOffset(s)
    ensures ParseSpec(s, decode)
         == Parsed(ReadFormat(s).0, ArchiveSize(s), FirstOffset(s) - (HEADER_LEN + SumMeta(recs)) + 1,
                   IndexOf(recs, decode), end)
  {
    TableOkFromScan(map[], StreamReader(s), HEADER_LEN, NumEntries(s), HEADER_LEN, decode);
    IndexOfEmpty(decode);
    InsertAllIsIndex([], recs, decode);
    assert [] + recs == recs;
  }

  /** When the table reads but the counter passes the first offset, the
      subtraction underflows, or the counter itself overflowed earlier. */
  lemma ParseJunkUnderflow(s: seq<byte>, decode: Decoder, recs: seq<Record>, end: nat)
    requires HeaderRead(s)
    requires TableOf(s) == Scanned(recs, end)
    requires HEADER_LEN + SumMeta(recs) > FirstOffset(s)
    ensures ParseSpec(s, decode) == Panicked
  {
    if HEADER_LEN + SumMeta(recs) < U32_LIMIT {
      TableOkFromScan(map[], StreamReader(s), HEADER_LEN, NumEntries(s), HEADER_LEN, decode);
    } else {
      TableOverflowFromScan(map[], StreamReader(s), HEADER_LEN, NumEntries(s), HEADER_LEN, decode);
    }
  }

  /** A known magic on a stream that ends before the sixteen header bytes
      is an I/O error from one of the three header reads. */
  lemma ParseHeaderTruncated(s: seq<byte>, decode: Decoder)
    requires |s| >= 4 && (s[..4] == BIG4 || s[..4] == BIGF)
    requires |s| < HEADER_LEN
    ensures ParseSpec(s, decode) == Failed(StdIoError)
  {
  }

  /** A record cut short by the end of the stream makes `new` fail with an
      I/O error, or panic if the counter overflowed before it. */
  lemma ParseTableTruncated(s: seq<byte>, decode: Decoder)
    requires HeaderRead(s)
    requires TableOf(s).ScanFailed?
    ensures ParseSpec(s, decode) in {Failed(StdIoError), Panicked}
    ensures |s| < U32_LIMIT ==> ParseSpec(s, decode) == Failed(StdIoError)
  {
    TableFailFromScan(map[], StreamReader(s), HEADER_LEN, NumEntries(s), HEADER_LEN, decode);
    if |s| < U32_LIMIT {
      TableFailFromScanSmall(map[], s, HEADER_LEN, NumEntries(s), decode);
    }
  }

  /** A name read that finds no byte left makes `new` panic. */
  lemma ParseNameAtEnd(s: seq<byte>, decode: Decoder)
    requires HeaderRead(s)
    requires TableOf(s).ScanPanicked?
    ensures ParseSpec(s, decode) == Panicked
  {
    TablePanicFromScan(map[], StreamReader(s), HEADER_LEN, NumEntries(s), HEADER_LEN, decode);
  }

  /** `new` succeeds exactly when the magic is known, the header is complete,
      every record reads, and the header bytes counted do not pass the first
      offset. */
  lemma ParseSucceedsIff(s: seq<byte>, decode: Decoder)
    ensures ParseSpec(s, decode).Parsed? <==>
      HeaderRead(s) && TableOf(s).Scanned? && HEADER_LEN + SumMeta(TableOf(s).recs) <= FirstOffset(s)
  {
    if HeaderRead(s) {
      match TableOf(s)
      case Scanned(recs, end) =>
        if HEADER_LEN + SumMeta(recs) <= FirstOffset(s) {
          ParseSucceeds(s, decode, recs, end);
        } else {
          ParseJunkUnderflow(s, decode, recs, end);
        }
      case ScanFailed(_) => ParseTableTruncated(s, decode);
      case ScanPanicked => ParseNameAtEnd(s, decode);
    }
  }

  /** The header counter is the table's size in the stream, sixteen bytes of
      header plus, per record, eight bytes of integers and the name with its
      terminator, for an archive below 4 GiB: then the junk length is the
      distance from the end of the table to the first offset, plus one. */
  lemma ParseSmallArchive(s: seq<byte>, decode: Decoder)
    requires |s| < U32_LIMIT
    requires ParseSpec(s, decode).Parsed?
    ensures TableOf(s).Scanned?
    ensures var recs := TableOf(s).recs;
      && ParseSpec(s, decode).cursor == HEADER_LEN + TotalSize(recs)
      && (forall i :: 0 <= i < |recs| ==> RecordSize(recs[i]) == 8 + |recs[i].nameBytes| + 1)
      && ParseSpec(s, decode).junkLen as int == FirstOffset(s) - ParseSpec(s, decode).cursor + 1
  {
    ParseSucceedsIff(s, decode);
    var recs := TableOf(s).recs;
    ParseSucceeds(s, decode, recs, TableOf(s).end);
    ScanWellFormed(s, HEADER_LEN, NumEntries(s), recs, TableOf(s).end);
    SumMetaIsTotalSize(recs, |s| + 1);
  }

  /** The junk length is the first offset less the header bytes counted,
      plus one; below 4 GiB the counted bytes are where the table ends. */
  lemma ParseJunkLen(s: seq<byte>, decode: Decoder)
    requires ParseSpec(s, decode).Parsed?
    ensures TableOf(s).Scanned?
    ensures ParseSpec(s, decode).junkLen as int == FirstOffset(s) - (HEADER_LEN + SumMeta(TableOf(s).recs)) + 1
    ensures |s| < U32_LIMIT ==>
      ParseSpec(s, decode).junkLen as int == FirstOffset(s) - (HEADER_LEN + TotalSize(TableOf(s).recs)) + 1
  {
    ParseSucceedsIff(s, decode);
    ParseSucceeds(s, decode, TableOf(s).recs, TableOf(s).end);
    if |s| < U32_LIMIT {
      ParseSmallArchive(s, decode);
    }
  }

  /** The number of entries is at most the header's entry count, and equals
      it exactly when no two records share a decoded name. */
  lemma ParseEntryCount(s: seq<byte>, decode: Decoder)
    requires ParseSpec(s, decode).Parsed?
    ensures TableOf(s).Scanned?
    ensures |ParseSpec(s, decode).entries| <= NumEntries(s)
    ensures |ParseSpec(s, decode).entries| == NumEntries(s) <==> DistinctNames(TableOf(s).recs, decode)
  {
    ParseSucceedsIff(s, decode);
    var recs := TableOf(s).recs;
    ParseSucceeds(s, decode, recs, TableOf(s).end);
    KeyCount(recs, decode);
    var m := IndexOf(recs, decode);
    assert |m| == |m.Keys|;
  }
}
