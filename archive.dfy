/** `BigArchive`: an archive opened over a seekable stream, its parsed
    header and index, and the operations on it. The stream is its bytes
    `data` and the reader's position `cursor`, the one piece of state that
    changes after construction. */
module Archive {
  import opened ByteOrder
  import opened Errors
  import opened Formats
  import opened EntryTable
  import opened Parsing

  /** What a lookup or a read returns: a value, or nothing. */
  datatype Option<T> = None | Some(value: T)

  class BigArchive {
    const format: Format
    const size: u32
    const junkLen: u32
    const entries: map<string, BigEntry>
    /** The bytes behind the buffered reader. */
    const data: seq<byte>
    /** The name decoder the index was built with. */
    ghost const decode: Decoder
    /** The reader's position in `data`. */
    var cursor: nat

    /** The archive is what `BigArchive::new` produced from `data`. */
    ghost predicate Valid()
    {
      && ParseSpec(data, decode).Parsed?
      && ParseSpec(data, decode).format == format
      && ParseSpec(data, decode).size == size
      && ParseSpec(data, decode).junkLen == junkLen
      && ParseSpec(data, decode).entries == entries
    }

    /** The table records of `data`, in stream order. */
    ghost function Records(): seq<Record>
      requires Valid()
    {
      ParseSucceedsIff(data, decode);
      TableOf(data).recs
    }

    constructor (format: Format, size: u32, junkLen: u32, entries: map<string, BigEntry>,
                 data: seq<byte>, ghost decode: Decoder, cursor: nat)
      requires ParseSpec(data, decode) == Parsed(format, size, junkLen, entries, cursor)
      ensures Valid()
      ensures this.format == format && this.size == size && this.junkLen == junkLen
      ensures this.entries == entries && this.data == data && this.decode == decode
      ensures this.cursor == cursor
    {
      this.format := format;
      this.size := size;
      this.junkLen := junkLen;
      this.entries := entries;
      this.data := data;
      this.decode := decode;
      this.cursor := cursor;
    }

    /** `BigArchive::new`: parse the stream and keep its reader, positioned
        where parsing stopped, or return the error. */
    static method New(data: seq<byte>, decode: Decoder) returns (r: NewResult)
      ensures r.Ok? <==> ParseSpec(data, decode).Parsed?
      ensures r.Ok? ==> fresh(r.archive) && r.archive.Valid()
                        && r.archive.data == data && r.archive.decode == decode
                        && r.archive.cursor == ParseSpec(data, decode).cursor
      ensures r.Err? <==> ParseSpec(data, decode).Failed?
      ensures r.Err? ==> r.error == ParseSpec(data, decode).error
      ensures r.Panic? <==> ParseSpec(data, decode).Panicked?
    {
      var outcome := Parse(data, decode);
      match outcome
      case Parsed(format, size, junkLen, entries, cursor) =>
        var archive := new BigArchive(format, size, junkLen, entries, data, decode, cursor);
        return Ok(archive);
      case Failed(e) =>
        return Err(e);
      case Panicked =>
        return Panic;
    }

    /** `junk_len`: the first offset less the header bytes counted, plus
        one; below 4 GiB the counted bytes are where the table ends. */
    function JunkLen(): (n: u32)
      requires Valid()
      ensures n as int == FirstOffset(data) - (HEADER_LEN + SumMeta(Records())) + 1
      ensures |data| < U32_LIMIT ==> n as int == FirstOffset(data) - (HEADER_LEN + TotalSize(Records())) + 1
    {
      ParseJunkLen(data, decode);
      junkLen
    }

    /** `entry_count`: the number of distinct decoded names, at most the
        header's entry count and equal to it exactly when no name repeats. */
    function EntryCount(): (n: nat)
      requires Valid()
      ensures n == |KeysOf(Records(), decode)|
      ensures n <= NumEntries(data)
      ensures n == NumEntries(data) <==> DistinctNames(Records(), decode)
    {
      ParseSucceedsIff(data, decode);
      ParseSucceeds(data, decode, TableOf(data).recs, TableOf(data).end);
      ParseEntryCount(data, decode);
      assert |entries| == |entries.Keys|;
      |entries|
    }

    /** `contains`: some record of the table carries the name. */
    function Contains(name: string): (b: bool)
      requires Valid()
      ensures b <==> name in KeysOf(Records(), decode)
    {
      ParseSucceedsIff(data, decode);
      ParseSucceeds(data, decode, TableOf(data).recs, TableOf(data).end);
      name in entries
    }

    /** `get_entry`: present exactly for the names `contains` accepts, and
        then the entry of the last record carrying the name. */
    function GetEntry(name: string): (r: Option<BigEntry>)
      requires Valid()
      ensures r.Some? <==> Contains(name)
      ensures r.Some? ==>
        var j := LastWith(Records(), decode, name);
        && 0 <= j && r.value == EntryOf(decode, Records()[j]) && r.value.name == name
        && forall i :: j < i < |Records()| ==> Key(decode, Records()[i]) != name
    {
      ParseSucceedsIff(data, decode);
      ParseSucceeds(data, decode, TableOf(data).recs, TableOf(data).end);
      LastWithIsLast(TableOf(data).recs, decode, name);
      if name in entries then Some(entries[name]) else None
    }

    /** `get_all_entry_names`: the names, one per entry. */
    function GetAllEntryNames(): (names: set<string>)
      requires Valid()
      ensures names == KeysOf(Records(), decode)
      ensures |names| == EntryCount()
      ensures forall name :: name in names <==> Contains(name)
    {
      ParseSucceedsIff(data, decode);
      ParseSucceeds(data, decode, TableOf(data).recs, TableOf(data).end);
      assert |entries| == |entries.Keys|;
      entries.Keys
    }

    /** The bytes `read_entry` returns for a name: none for a name not in the
        index; for an entry of length zero, no bytes wherever it points; the
        entry's `data_len` bytes from its offset when they lie within the
        stream; and none when they run past its end. They depend on the
        index and the stream's bytes only, never on the reader's position. */
    function EntryBytes(name: string): (r: Option<seq<byte>>)
      requires Valid()
      ensures r.Some? ==> GetEntry(name).Some? && |r.value| == GetEntry(name).value.dataLen
      ensures GetEntry(name).Some? ==>
        var e := GetEntry(name).value;
        && (e.dataLen == 0 ==> r == Some([]))
        && (e.offset + e.dataLen <= |data| ==> r == Some(data[e.offset .. e.offset + e.dataLen]))
        && (0 < e.dataLen && e.offset + e.dataLen > |data| ==> r == None)
    {
      if name !in entries then None
      else
        var e := entries[name];
        if e.offset + e.dataLen <= |data| then Some(data[e.offset .. e.offset + e.dataLen])
        else if e.dataLen == 0 then Some([])
        else None
    }

    /** `Read::read_exact` on the reader: fill a buffer of `len` bytes from
        the position, one byte at a time, failing when the stream ends
        first. An empty buffer is filled at once, wherever the position is;
        a failed read has consumed what was left of the stream. */
    method ReadExact(len: nat) returns (r: Option<seq<byte>>)
      modifies this`cursor
      ensures len == 0 ==> r == Some([]) && cursor == old(cursor)
      ensures old(cursor) + len <= |data| ==>
        r == Some(data[old(cursor) .. old(cursor) + len]) && cursor == old(cursor) + len
      ensures 0 < len && old(cursor) + len > |data| ==>
        r == None && cursor == if old(cursor) < |data| then |data| else old(cursor)
    {
      var buf := new byte[len](_ => 0);
      var i := 0;
      while i < len && cursor < |data|
        invariant 0 <= i <= len
        invariant cursor == old(cursor) + i
        invariant i > 0 ==> cursor <= |data|
        invariant old(cursor) <= |data| ==> buf[..i] == data[old(cursor) .. old(cursor) + i]
      {
        buf[i] := data[cursor];
        cursor := cursor + 1;
        i := i + 1;
      }
      if i < len {
        return None;
      }
      assert buf[..] == buf[..i];
      return Some(buf[..]);
    }

    /** `read_entry`: look the name up, seek to the entry's offset and read
        its `data_len` bytes. The seek to a start position always succeeds
        on the stream modelled here, even past its end. */
    method ReadEntry(name: string) returns (r: Option<seq<byte>>)
      requires Valid()
      modifies this`cursor
      ensures r == EntryBytes(name)
      ensures name !in entries ==> cursor == old(cursor)
      ensures name in entries ==>
        var e := entries[name];
        cursor == if e.dataLen == 0 || e.offset + e.dataLen <= |data| then e.offset + e.dataLen
                  else if e.offset < |data| then |data| else e.offset
    {
      if name in entries {
        var entry := entries[name];
        cursor := entry.offset;
        r := ReadExact(entry.dataLen);
      } else {
        r := None;
      }
    }
  }

  /** The outcome of `BigArchive::new`: the archive, the error it returns,
      or a panic. */
  datatype NewResult = Ok(archive: BigArchive) | Err(error: ReadError) | Panic

  /** Reading one entry, then another, then the first again returns the
      first entry's bytes both times: the shared reader's position left by
      one read does not affect the next. */
  method ReadEntryAgain(archive: BigArchive, first: string, other: string)
    returns (before: Option<seq<byte>>, after: Option<seq<byte>>)
    requires archive.Valid()
    modifies archive`cursor
    ensures before == after == archive.EntryBytes(first)
  {
    before := archive.ReadEntry(first);
    var _ := archive.ReadEntry(other);
    after := archive.ReadEntry(first);
  }
}
