/** The entry table: its records, the loop of `BigArchive::new` that reads
    them into a name-keyed index while counting header bytes in `pos`, and an
    independent description of the same table (the records in stream order,
    the index as "last record with that name wins", the byte counts as sums)
    together with the lemmas that connect the two. */
module EntryTable {
  import opened ByteOrder
  import opened Errors

  /** `String::from_utf8_lossy` is left abstract: every lemma here holds for
      any decoder from name bytes to strings, an injective one or not. */
  type Decoder = seq<byte> -> string

  /** `BigEntry`: where an entry's payload lies and under which name. */
  datatype BigEntry = BigEntry(offset: u32, dataLen: u32, name: string)

  /** One table record as read from the stream, before its name is decoded.
      `nameLen` is the count `read_until` reported, terminator included;
      `nameBytes` are the bytes that go to the decoder. */
  datatype Record = Record(offset: u32, dataLen: u32, nameBytes: seq<byte>, nameLen: nat)

  datatype RecordRead = Got(rec: Record) | Truncated | EmptyName

  /** Bytes a record occupies in the stream. */
  function RecordSize(r: Record): nat { 8 + r.nameLen }

  /** What the loop adds to `pos` for a record, `4 + 4 + name_len as u32`,
      before the overflow check: the cast keeps the low 32 bits. */
  function Meta(r: Record): nat { 8 + r.nameLen % U32_LIMIT }

  function Key(decode: Decoder, r: Record): string { decode(r.nameBytes) }

  function EntryOf(decode: Decoder, r: Record): BigEntry
  {
    BigEntry(r.offset, r.dataLen, decode(r.nameBytes))
  }

  /** A record as the table reader delivers it: the name bytes hold no NUL
      and are one byte shorter than what `read_until` consumed. */
  ghost predicate WellFormed(r: Record)
  {
    && r.nameLen == |r.nameBytes| + 1
    && forall j :: 0 <= j < |r.nameBytes| ==> r.nameBytes[j] != 0
  }

  /** The reads of one table loop iteration from stream position `at`: a
      big-endian offset, a big-endian length and a name read up to and
      including a NUL. A short integer read is an I/O error; a name read
      that finds no byte at all makes `name_len - 1` underflow. A name cut
      off by the end of the stream loses its last byte, like the terminator
      it takes the place of. */
  function ReadRecord(s: seq<byte>, at: nat): RecordRead
  {
    if at + 8 > |s| then Truncated
    else
      var n := ReadUntilCount(s, at + 8);
      if n == 0 then EmptyName
      else Got(Record(BE32(s, at), BE32(s, at + 4), NameBytes(s, at + 8), n))
  }

  /** A record read fails on fewer than eight bytes, panics on exactly eight
      and otherwise delivers a record that lies within the stream. */
  lemma ReadRecordCases(s: seq<byte>, at: nat)
    ensures ReadRecord(s, at).Truncated? <==> at + 8 > |s|
    ensures ReadRecord(s, at).EmptyName? <==> at + 8 == |s|
    ensures ReadRecord(s, at).Got? ==> at + RecordSize(ReadRecord(s, at).rec) <= |s|
  {
  }

  /** What a record read delivers: the two big-endian fields at `at` and
      `at + 4`, then the name bytes, which hold no NUL and end where the
      first NUL is; a name that runs into the end of the stream loses its
      last byte. */
  lemma ReadRecordParts(s: seq<byte>, at: nat)
    requires ReadRecord(s, at).Got?
    ensures var r := ReadRecord(s, at).rec;
      && WellFormed(r)
      && r.offset == BE32(s, at)
      && r.dataLen == BE32(s, at + 4)
      && r.nameBytes == s[at + 8 .. at + 8 + |r.nameBytes|]
      && (at + RecordSize(r) < |s| ==> s[at + 8 + |r.nameBytes|] == 0)
    ensures var r := ReadRecord(s, at).rec;
      (forall j :: at + 8 <= j < |s| ==> s[j] != 0) ==>
        at + RecordSize(r) == |s| && r.nameBytes == s[at + 8 .. |s| - 1]
  {
    ReadUntilCountStopsAtNul(s, at + 8);
    NameBytesIsConsumedPrefix(s, at + 8);
  }

  /** A source of table records by stream position. The archive reads its
      records from its stream, `StreamReader`; the loop and the lemmas about
      it hold for any source. */
  type RecordReader = nat -> RecordRead

  function StreamReader(s: seq<byte>): RecordReader
  {
    (at: nat) => ReadRecord(s, at)
  }

  datatype TableOutcome =
    | TableOk(entries: map<string, BigEntry>, pos: u32, cursor: nat)
    | TableFailed(error: ReadError)
    | TablePanicked

  /** The table loop exactly as `BigArchive::new` runs it: `remaining`
      iterations from stream position `at`, with the running counter `pos`
      and the map filled so far. Each record is inserted under its decoded
      name, replacing an earlier one with that name; then `pos` grows by the
      record's metadata length, and a u32 overflow of that sum panics. */
  function Table(read: RecordReader, at: nat, remaining: nat, pos: u32,
                 entries: map<string, BigEntry>, decode: Decoder): TableOutcome
    decreases remaining
  {
    if remaining == 0 then TableOk(entries, pos, at)
    else match read(at)
      case Truncated => TableFailed(StdIoError)
      case EmptyName => TablePanicked
      case Got(r) =>
        var entries' := entries[Key(decode, r) := EntryOf(decode, r)];
        if Meta(r) >= U32_LIMIT || pos + Meta(r) >= U32_LIMIT then TablePanicked
        else Table(read, at + RecordSize(r), remaining - 1, pos + Meta(r), entries', decode)
  }

  /** `TableStep` stated over the loop's state before and after one
      iteration, the shape the table loop's invariant needs. */
  lemma TableIteration(read: RecordReader, at: nat, remaining: nat, pos: u32, entries: map<string, BigEntry>,
                       decode: Decoder, r: Record,
                       at': nat, remaining': nat, pos': u32, entries': map<string, BigEntry>)
    requires read(at) == Got(r) && remaining == remaining' + 1
    requires at' == at + RecordSize(r) && pos' == pos + Meta(r)
    requires entries' == entries[Key(decode, r) := EntryOf(decode, r)]
    ensures Table(read, at, remaining, pos, entries, decode) == Table(read, at', remaining', pos', entries', decode)
  {
    TableStep(read, at, remaining, pos, entries, decode, r);
  }

  /** One iteration of the loop: a record read, inserted, and counted
      without overflow leaves the rest of the loop to run from where the
      record ends, on the grown map and counter. */
  lemma TableStep(read: RecordReader, at: nat, remaining: nat, pos: u32, entries: map<string, BigEntry>,
                  decode: Decoder, r: Record)
    requires read(at) == Got(r) && 0 < remaining && pos + Meta(r) < U32_LIMIT
    ensures Table(read, at, remaining, pos, entries, decode)
         == Table(read, at + RecordSize(r), remaining - 1, pos + Meta(r),
                  entries[Key(decode, r) := EntryOf(decode, r)], decode)
  {
  }

  /** A record read whose metadata length overflows the counter panics. */
  lemma TableOverflowStep(read: RecordReader, at: nat, remaining: nat, pos: u32, entries: map<string, BigEntry>,
                          decode: Decoder, r: Record)
    requires read(at) == Got(r) && 0 < remaining
    requires Meta(r) >= U32_LIMIT || pos + Meta(r) >= U32_LIMIT
    ensures Table(read, at, remaining, pos, entries, decode) == TablePanicked
  {
  }

  /** The map the loop ends with, started on `entries`, when no record fails
      and the counter does not overflow: each record inserted in turn. */
  function InsertAll(entries: map<string, BigEntry>, rs: seq<Record>, decode: Decoder): map<string, BigEntry>
    decreases rs
  {
    if rs == [] then entries
    else InsertAll(entries[Key(decode, rs[0]) := EntryOf(decode, rs[0])], rs[1..], decode)
  }

  // ---------------------------------------------------------------------
  // The same table described independently.

  datatype ScanOutcome = Scanned(recs: seq<Record>, end: nat) | ScanFailed(error: ReadError) | ScanPanicked

  function TotalSize(rs: seq<Record>): nat
  {
    if rs == [] then 0 else RecordSize(rs[0]) + TotalSize(rs[1..])
  }

  function SumMeta(rs: seq<Record>): nat
  {
    if rs == [] then 0 else Meta(rs[0]) + SumMeta(rs[1..])
  }

  /** The `n` records laid out back to back from position `at`, or the first
      reason they cannot be read. No map, no counter. */
  function Scan(read: RecordReader, at: nat, n: nat): (o: ScanOutcome)
    ensures o.Scanned? ==> |o.recs| == n && o.end == at + TotalSize(o.recs)
    ensures o.ScanFailed? ==> o.error == StdIoError
    decreases n
  {
    if n == 0 then Scanned([], at)
    else match read(at)
      case Truncated => ScanFailed(StdIoError)
      case EmptyName => ScanPanicked
      case Got(r) =>
        match Scan(read, at + RecordSize(r), n - 1)
        case Scanned(rest, end) =>
          assert ([r] + rest)[1..] == rest;
          Scanned([r] + rest, end)
        case other => other
  }

  /** The decoded names of the records. */
  function KeysOf(rs: seq<Record>, decode: Decoder): set<string>
  {
    set i | 0 <= i < |rs| :: Key(decode, rs[i])
  }

  /** The index of the last record whose name decodes to `k`, or -1. */
  function LastWith(rs: seq<Record>, decode: Decoder, k: string): (j: int)
    ensures -1 <= j < |rs|
    ensures j >= 0 ==> Key(decode, rs[j]) == k
  {
    if rs == [] then -1
    else if Key(decode, rs[|rs| - 1]) == k then |rs| - 1
    else LastWith(rs[..|rs| - 1], decode, k)
  }

  /** `LastWith` finds a record whenever one carries the name, and no later
      record carries it. */
  lemma {:induction false} LastWithIsLast(rs: seq<Record>, decode: Decoder, k: string)
    ensures k in KeysOf(rs, decode) ==> LastWith(rs, decode, k) >= 0
    ensures forall i :: LastWith(rs, decode, k) < i < |rs| ==> Key(decode, rs[i]) != k
  {
    if rs != [] && Key(decode, rs[|rs| - 1]) != k {
      var p := rs[..|rs| - 1];
      LastWithIsLast(p, decode, k);
      forall i | LastWith(rs, decode, k) < i < |rs| ensures Key(decode, rs[i]) != k {
        if i < |p| {
          assert rs[i] == p[i];
        }
      }
      if k in KeysOf(rs, decode) {
        var i :| 0 <= i < |rs| && Key(decode, rs[i]) == k;
        assert rs[i] == p[i];
        assert k in KeysOf(p, decode);
      }
    }
  }

  /** Last write wins: every decoded name maps to the entry of the last
      record carrying it. */
  function IndexOf(rs: seq<Record>, decode: Decoder): (m: map<string, BigEntry>)
    ensures m.Keys == KeysOf(rs, decode)
  {
    map k | k in KeysOf(rs, decode) :: LastWithIsLast(rs, decode, k); EntryOf(decode, rs[LastWith(rs, decode, k)])
  }

  ghost predicate DistinctNames(rs: seq<Record>, decode: Decoder)
  {
    forall i, j :: 0 <= i < j < |rs| ==> Key(decode, rs[i]) != Key(decode, rs[j])
  }

  // ---------------------------------------------------------------------
  // The index.

  lemma IndexOfEmpty(decode: Decoder)
    ensures IndexOf([], decode) == map[]
  {
  }

  lemma {:induction false} KeysOfSnoc(p: seq<Record>, r: Record, decode: Decoder)
    ensures KeysOf(p + [r], decode) == KeysOf(p, decode) + {Key(decode, r)}
  {
    var q := p + [r];
    forall k | k in KeysOf(q, decode) ensures k in KeysOf(p, decode) + {Key(decode, r)} {
      var i :| 0 <= i < |q| && Key(decode, q[i]) == k;
      if i < |p| { assert q[i] == p[i]; }
    }
    forall k | k in KeysOf(p, decode) ensures k in KeysOf(q, decode) {
      var i :| 0 <= i < |p| && Key(decode, p[i]) == k;
      assert q[i] == p[i];
    }
    assert Key(decode, q[|p|]) == Key(decode, r);
  }

  /** The last record named `k` in a longer prefix is the new record if it
      is named `k`, and otherwise the last one in the shorter prefix. */
  lemma LastWithSnoc(p: seq<Record>, r: Record, decode: Decoder, k: string)
    ensures LastWith(p + [r], decode, k) == if Key(decode, r) == k then |p| else LastWith(p, decode, k)
  {
    var q := p + [r];
    assert q[..|q| - 1] == p;
    assert q[|q| - 1] == r;
  }

  /** One name's entry in the index of a longer prefix. */
  lemma IndexOfSnocAt(p: seq<Record>, r: Record, decode: Decoder, k: string)
    requires k in KeysOf(p + [r], decode)
    ensures k == Key(decode, r) ==> IndexOf(p + [r], decode)[k] == EntryOf(decode, r)
    ensures k != Key(decode, r) ==> k in IndexOf(p, decode) && IndexOf(p + [r], decode)[k] == IndexOf(p, decode)[k]
  {
    var q := p + [r];
    KeysOfSnoc(p, r, decode);
    LastWithSnoc(p, r, decode, k);
    if k == Key(decode, r) {
      assert q[|p|] == r;
    } else {
      LastWithIsLast(p, decode, k);
      assert q[LastWith(p, decode, k)] == p[LastWith(p, decode, k)];
    }
  }

  /** Inserting one more record into the index of a prefix gives the index of
      the longer prefix. */
  lemma IndexOfSnoc(p: seq<Record>, r: Record, decode: Decoder)
    ensures IndexOf(p + [r], decode) == IndexOf(p, decode)[Key(decode, r) := EntryOf(decode, r)]
  {
    var m1 := IndexOf(p + [r], decode);
    var m2 := IndexOf(p, decode)[Key(decode, r) := EntryOf(decode, r)];
    KeysOfSnoc(p, r, decode);
    forall k | k in m1 ensures m1[k] == m2[k] {
      IndexOfSnocAt(p, r, decode, k);
    }
    assert m1.Keys == m2.Keys;
  }

  /** Inserting the records in turn into the index of `done` gives the
      last-write-wins index of `done` followed by them. */
  lemma {:induction false} InsertAllIsIndex(done: seq<Record>, rs: seq<Record>, decode: Decoder)
    ensures InsertAll(IndexOf(done, decode), rs, decode) == IndexOf(done + rs, decode)
    decreases |rs|
  {
    if rs == [] {
      assert done + rs == done;
    } else {
      IndexOfSnoc(done, rs[0], decode);
      InsertAllIsIndex(done + [rs[0]], rs[1..], decode);
      assert done + [rs[0]] + rs[1..] == done + rs;
    }
  }

  /** One more record keeps the names distinct exactly when its name is new. */
  lemma DistinctSnoc(p: seq<Record>, r: Record, decode: Decoder)
    ensures DistinctNames(p + [r], decode) <==> DistinctNames(p, decode) && Key(decode, r) !in KeysOf(p, decode)
  {
    var q := p + [r];
    assert q[|p|] == r;
    if DistinctNames(q, decode) {
      forall i, j | 0 <= i < j < |p| ensures Key(decode, p[i]) != Key(decode, p[j]) {
        assert q[i] == p[i] && q[j] == p[j];
      }
      forall i | 0 <= i < |p| ensures Key(decode, p[i]) != Key(decode, r) {
        assert q[i] == p[i];
      }
    }
    if DistinctNames(p, decode) && Key(decode, r) !in KeysOf(p, decode) {
      forall i, j | 0 <= i < j < |q| ensures Key(decode, q[i]) != Key(decode, q[j]) {
        assert q[i] == p[i];
        if j < |p| {
          assert q[j] == p[j];
        } else {
          assert Key(decode, p[i]) in KeysOf(p, decode);
        }
      }
    }
  }

  /** The index has at most one key per record, and exactly one per record
      if and only if no two records share a decoded name. */
  lemma {:induction false} KeyCount(rs: seq<Record>, decode: Decoder)
    ensures |KeysOf(rs, decode)| <= |rs|
    ensures |KeysOf(rs, decode)| == |rs| <==> DistinctNames(rs, decode)
  {
    if rs == [] {
      assert KeysOf(rs, decode) == {};
    } else {
      var p := rs[..|rs| - 1];
      var last := rs[|rs| - 1];
      assert rs == p + [last];
      KeyCount(p, decode);
      KeysOfSnoc(p, last, decode);
      DistinctSnoc(p, last, decode);
      var k := Key(decode, last);
      if k in KeysOf(p, decode) {
        assert KeysOf(p, decode) + {k} == KeysOf(p, decode);
      } else {
        assert |KeysOf(p, decode) + {k}| == |KeysOf(p, decode)| + 1;
      }
    }
  }

  /** When no two records share a decoded name, every record is the entry
      the index holds under its name. */
  lemma IndexOfDistinct(rs: seq<Record>, decode: Decoder, i: nat)
    requires DistinctNames(rs, decode) && i < |rs|
    ensures Key(decode, rs[i]) in IndexOf(rs, decode)
    ensures IndexOf(rs, decode)[Key(decode, rs[i])] == EntryOf(decode, rs[i])
  {
    var k := Key(decode, rs[i]);
    assert k in KeysOf(rs, decode);
    LastWithIsLast(rs, decode, k);
  }

  // ---------------------------------------------------------------------
  // The loop against the independent description.

  /** A record read at `at` followed by a table read where it ends is a
      table read at `at`. */
  lemma ScanCons(read: RecordReader, at: nat, rs: seq<Record>)
    requires rs != [] && read(at) == Got(rs[0])
    requires Scan(read, at + RecordSize(rs[0]), |rs| - 1).Scanned?
    requires Scan(read, at + RecordSize(rs[0]), |rs| - 1).recs == rs[1..]
    ensures Scan(read, at, |rs|).Scanned? && Scan(read, at, |rs|).recs == rs
  {
    assert [rs[0]] + rs[1..] == rs;
  }

  /** The first record of a table followed by the rest. */
  lemma ConsParts(r: Record, rest: seq<Record>)
    ensures ([r] + rest)[0] == r && ([r] + rest)[1..] == rest
  {
  }

  /** The loop agrees with the independent description when the table can
      be read and the counter stays in range: its map is the records
      inserted in turn, its counter has grown by their metadata lengths and
      its cursor stands at the end of the table. */
  lemma {:induction false} TableOkFromScan(entries: map<string, BigEntry>, read: RecordReader, at: nat, n: nat,
                                           pos: u32, decode: Decoder)
    requires Scan(read, at, n).Scanned?
    requires pos + SumMeta(Scan(read, at, n).recs) < U32_LIMIT
    ensures Table(read, at, n, pos, entries, decode)
         == TableOk(InsertAll(entries, Scan(read, at, n).recs, decode), pos + SumMeta(Scan(read, at, n).recs),
                    Scan(read, at, n).end)
    decreases n
  {
    if n > 0 {
      var r := read(at).rec;
      var entries' := entries[Key(decode, r) := EntryOf(decode, r)];
      ConsParts(r, Scan(read, at + RecordSize(r), n - 1).recs);
      TableOkFromScan(entries', read, at + RecordSize(r), n - 1, pos + Meta(r), decode);
      TableStep(read, at, n, pos, entries, decode, r);
    }
  }

  /** When the table can be read but the metadata lengths overflow the
      counter, the loop panics. */
  lemma {:induction false} TableOverflowFromScan(entries: map<string, BigEntry>, read: RecordReader, at: nat,
                                                 n: nat, pos: u32, decode: Decoder)
    requires Scan(read, at, n).Scanned?
    requires pos + SumMeta(Scan(read, at, n).recs) >= U32_LIMIT
    ensures Table(read, at, n, pos, entries, decode) == TablePanicked
    decreases n
  {
    if n == 0 {
      assert false;
    } else {
      var r := read(at).rec;
      ConsParts(r, Scan(read, at + RecordSize(r), n - 1).recs);
      if Meta(r) < U32_LIMIT && pos + Meta(r) < U32_LIMIT {
        var entries' := entries[Key(decode, r) := EntryOf(decode, r)];
        TableOverflowFromScan(entries', read, at + RecordSize(r), n - 1, pos + Meta(r), decode);
        TableStep(read, at, n, pos, entries, decode, r);
      } else {
        TableOverflowStep(read, at, n, pos, entries, decode, r);
      }
    }
  }

  /** A name read that finds the stream exhausted panics in the loop too,
      whatever came before. */
  lemma {:induction false} TablePanicFromScan(entries: map<string, BigEntry>, read: RecordReader, at: nat,
                                              n: nat, pos: u32, decode: Decoder)
    requires Scan(read, at, n).ScanPanicked?
    ensures Table(read, at, n, pos, entries, decode) == TablePanicked
    decreases n
  {
    match read(at)
    case Truncated =>
    case EmptyName =>
    case Got(r) =>
      if Meta(r) < U32_LIMIT && pos + Meta(r) < U32_LIMIT {
        TablePanicFromScan(entries[Key(decode, r) := EntryOf(decode, r)], read, at + RecordSize(r), n - 1,
                           pos + Meta(r), decode);
      }
  }

  /** A truncated record is an I/O error in the loop, unless the counter
      overflowed on an earlier record and panicked first. */
  lemma {:induction false} TableFailFromScan(entries: map<string, BigEntry>, read: RecordReader, at: nat,
                                             n: nat, pos: u32, decode: Decoder)
    requires Scan(read, at, n).ScanFailed?
    ensures Table(read, at, n, pos, entries, decode) in {TableFailed(StdIoError), TablePanicked}
    decreases n
  {
    match read(at)
    case Truncated =>
    case EmptyName =>
    case Got(r) =>
      if Meta(r) < U32_LIMIT && pos + Meta(r) < U32_LIMIT {
        TableFailFromScan(entries[Key(decode, r) := EntryOf(decode, r)], read, at + RecordSize(r), n - 1,
                          pos + Meta(r), decode);
      }
  }

  /** The counter only grows while the table is read. */
  lemma {:induction false} TablePosGrows(read: RecordReader, at: nat, remaining: nat, pos: u32,
                                         entries: map<string, BigEntry>, decode: Decoder)
    ensures var t := Table(read, at, remaining, pos, entries, decode);
            t.TableOk? ==> pos <= t.pos
    decreases remaining
  {
    if remaining > 0 {
      match read(at)
      case Truncated =>
      case EmptyName =>
      case Got(r) =>
        if Meta(r) < U32_LIMIT && pos + Meta(r) < U32_LIMIT {
          TablePosGrows(read, at + RecordSize(r), remaining - 1, pos + Meta(r),
                        entries[Key(decode, r) := EntryOf(decode, r)], decode);
        }
    }
  }

  /** A non-empty prefix occupies its first record and then the rest of
      the prefix. */
  lemma TotalSizePrefix(rs: seq<Record>, i: nat)
    requires 0 < i <= |rs|
    ensures TotalSize(rs[..i]) == RecordSize(rs[0]) + TotalSize(rs[1..][..i - 1])
  {
    assert rs[..i][1..] == rs[1..][..i - 1];
  }

  /** Records each read at the position where the records before them end. */
  ghost predicate ReadsAt(read: RecordReader, at: nat, rs: seq<Record>)
  {
    forall i :: 0 <= i < |rs| ==> read(at + TotalSize(rs[..i])) == Got(rs[i])
  }

  /** Dropping the first of such records leaves such records, starting
      where the first one ends. */
  lemma ReadsAtRest(read: RecordReader, at: nat, rs: seq<Record>)
    requires ReadsAt(read, at, rs) && rs != []
    ensures read(at) == Got(rs[0])
    ensures ReadsAt(read, at + RecordSize(rs[0]), rs[1..])
  {
    var rest := rs[1..];
    assert rs[..0] == [];
    forall i | 0 <= i < |rest| ensures read(at + RecordSize(rs[0]) + TotalSize(rest[..i])) == Got(rest[i]) {
      assert rs[..i + 1][1..] == rest[..i];
      assert rs[i + 1] == rest[i];
      assert read(at + TotalSize(rs[..i + 1])) == Got(rs[i + 1]);
    }
  }

  /** Conversely, records each read at the position where the records
      before them end make up a table. */
  lemma {:induction false} ScanFromReads(read: RecordReader, at: nat, rs: seq<Record>)
    requires ReadsAt(read, at, rs)
    ensures Scan(read, at, |rs|) == Scanned(rs, at + TotalSize(rs))
    decreases |rs|
  {
    if rs != [] {
      ReadsAtRest(read, at, rs);
      ScanFromReads(read, at + RecordSize(rs[0]), rs[1..]);
      ScanCons(read, at, rs);
    }
  }

  /** A record read at `at`, followed by records read from where it ends,
      are records read from `at`. */
  lemma ReadsAtCons(read: RecordReader, at: nat, r: Record, rest: seq<Record>)
    requires read(at) == Got(r) && ReadsAt(read, at + RecordSize(r), rest)
    ensures ReadsAt(read, at, [r] + rest)
  {
    var rs := [r] + rest;
    ConsParts(r, rest);
    forall i | 0 <= i < |rs| ensures read(at + TotalSize(rs[..i])) == Got(rs[i]) {
      if i == 0 {
        assert rs[..0] == [];
      } else {
        TotalSizePrefix(rs, i);
        assert rs[i] == rest[i - 1];
        assert read(at + RecordSize(r) + TotalSize(rest[..i - 1])) == Got(rest[i - 1]);
      }
    }
  }

  /** Every record of a table is the record read at the position where the
      records before it end. */
  lemma {:induction false} ScanLocates(read: RecordReader, at: nat, n: nat)
    requires Scan(read, at, n).Scanned?
    ensures ReadsAt(read, at, Scan(read, at, n).recs)
    decreases n
  {
    if n > 0 {
      var r := read(at).rec;
      ScanLocates(read, at + RecordSize(r), n - 1);
      ReadsAtCons(read, at, r, Scan(read, at + RecordSize(r), n - 1).recs);
    } else {
      assert Scan(read, at, n).recs == [];
    }
  }

  /** The records of a table are exactly the records read back to back:
      `Scan` finds `rs` if and only if each is read where those before it
      end. */
  lemma ScanIffReads(read: RecordReader, at: nat, rs: seq<Record>)
    ensures Scan(read, at, |rs|).Scanned? && Scan(read, at, |rs|).recs == rs <==> ReadsAt(read, at, rs)
  {
    if ReadsAt(read, at, rs) {
      ScanFromReads(read, at, rs);
    }
    if Scan(read, at, |rs|).Scanned? && Scan(read, at, |rs|).recs == rs {
      ScanLocates(read, at, |rs|);
    }
  }

  // ---------------------------------------------------------------------
  // Tables read from a stream.

  /** Every record `read` delivers is well formed and ends by `bound`. */
  ghost predicate RecordsWithin(read: RecordReader, bound: nat)
  {
    forall at: nat :: read(at).Got? ==> WellFormed(read(at).rec) && at + RecordSize(read(at).rec) <= bound
  }

  /** The records of a stream are well formed and lie within it. */
  lemma StreamRecordsWithin(s: seq<byte>)
    ensures RecordsWithin(StreamReader(s), |s|)
  {
    forall at: nat | StreamReader(s)(at).Got?
      ensures WellFormed(StreamReader(s)(at).rec) && at + RecordSize(StreamReader(s)(at).rec) <= |s|
    {
      RecordInStream(s, at, StreamReader(s)(at).rec);
    }
  }

  /** A record read from a stream is well formed and lies within it. */
  lemma RecordInStream(s: seq<byte>, at: nat, r: Record)
    requires StreamReader(s)(at) == Got(r)
    ensures WellFormed(r) && at + RecordSize(r) <= |s|
  {
    ReadRecordCases(s, at);
    ReadRecordParts(s, at);
  }

  /** When records end below 4 GiB the counter cannot overflow if it
      starts at the cursor, so a truncated record is always an I/O error. */
  lemma {:induction false} TableFailWithin(entries: map<string, BigEntry>, read: RecordReader, at: nat,
                                           n: nat, decode: Decoder, bound: nat)
    requires bound < U32_LIMIT && at <= bound && RecordsWithin(read, bound)
    requires Scan(read, at, n).ScanFailed?
    ensures Table(read, at, n, at, entries, decode) == TableFailed(StdIoError)
    decreases n
  {
    match read(at)
    case Truncated =>
    case EmptyName =>
    case Got(r) =>
      assert r.nameLen % U32_LIMIT == r.nameLen;
      var entries' := entries[Key(decode, r) := EntryOf(decode, r)];
      TableFailWithin(entries', read, at + RecordSize(r), n - 1, decode, bound);
      TableStep(read, at, n, at, entries, decode, r);
  }

  /** Below 4 GiB of input the counter cannot overflow when it starts at the
      stream position, so a truncated record is always an I/O error. */
  lemma TableFailFromScanSmall(entries: map<string, BigEntry>, data: seq<byte>, at: nat, n: nat, decode: Decoder)
    requires |data| < U32_LIMIT && at <= |data|
    requires Scan(StreamReader(data), at, n).ScanFailed?
    ensures Table(StreamReader(data), at, n, at, entries, decode) == TableFailed(StdIoError)
  {
    StreamRecordsWithin(data);
    TableFailWithin(entries, StreamReader(data), at, n, decode, |data|);
  }

  /** No record occupies more bytes than the table it is part of. */
  lemma {:induction false} TotalSizeBoundsRecords(rs: seq<Record>)
    ensures forall i :: 0 <= i < |rs| ==> RecordSize(rs[i]) <= TotalSize(rs)
  {
    if rs != [] {
      TotalSizeBoundsRecords(rs[1..]);
      forall i | 0 < i < |rs| ensures RecordSize(rs[i]) <= TotalSize(rs) {
        assert rs[i] == rs[1..][i - 1];
      }
    }
  }

  /** Below 4 GiB of input no name is long enough for its length to be
      truncated, so each record's metadata length is its size in the stream. */
  lemma {:induction false} SumMetaIsTotalSize(rs: seq<Record>, bound: nat)
    requires bound <= U32_LIMIT
    requires forall i :: 0 <= i < |rs| ==> rs[i].nameLen < bound
    ensures SumMeta(rs) == TotalSize(rs)
  {
    if rs != [] {
      assert rs[0].nameLen % U32_LIMIT == rs[0].nameLen;
      SumMetaIsTotalSize(rs[1..], bound);
    }
  }

  /** The records of a table read from records that stay within `bound`
      are well formed and the table ends by `bound`. */
  lemma {:induction false} ScanWithin(read: RecordReader, at: nat, n: nat, bound: nat)
    requires at <= bound && RecordsWithin(read, bound)
    requires Scan(read, at, n).Scanned?
    ensures Scan(read, at, n).end <= bound
    ensures var recs := Scan(read, at, n).recs;
      forall i :: 0 <= i < |recs| ==> WellFormed(recs[i]) && recs[i].nameLen <= bound
    decreases n
  {
    if n > 0 {
      var r := read(at).rec;
      var rest := Scan(read, at + RecordSize(r), n - 1).recs;
      var recs := Scan(read, at, n).recs;
      ConsParts(r, rest);
      ScanWithin(read, at + RecordSize(r), n - 1, bound);
      forall i | 0 < i < |recs| ensures WellFormed(recs[i]) && recs[i].nameLen <= bound {
        assert recs[i] == rest[i - 1];
      }
    }
  }

  /** The records of a table read from a stream lie within it, and each is
      well formed: its name holds no NUL and is one byte shorter than what
      `read_until` consumed for it. */
  lemma ScanWellFormed(data: seq<byte>, at: nat, n: nat, recs: seq<Record>, end: nat)
    requires at <= |data|
    requires Scan(StreamReader(data), at, n) == Scanned(recs, end)
    ensures end <= |data|
    ensures forall i :: 0 <= i < |recs| ==> WellFormed(recs[i]) && recs[i].nameLen <= |data|
  {
    StreamRecordsWithin(data);
    ScanWithin(StreamReader(data), at, n, |data|);
  }
}
