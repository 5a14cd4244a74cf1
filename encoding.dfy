/** The `.big` layout written out: the bytes an archive with given parts
    consists of, and the lemmas that `BigArchive::new` reads exactly those
    parts back. The library has no writer; these functions describe the
    format the reader expects and serve as its inverse. */
module Encoding {
  import opened ByteOrder
  import opened Formats
  import opened EntryTable
  import opened Parsing

  /** The magic of a known format. */
  function Magic(f: Format): (m: seq<byte>)
    requires !f.Unknown?
    ensures |m| == 4
  {
    if f.Big4? then BIG4 else BIGF
  }

  /** A table record: big-endian offset and length, then the name and its
      NUL terminator. */
  function EncodeRecord(r: Record): (b: seq<byte>)
    ensures |b| == 9 + |r.nameBytes|
  {
    BE32Bytes(r.offset) + BE32Bytes(r.dataLen) + r.nameBytes + [0]
  }

  /** The records back to back. */
  function EncodeTable(rs: seq<Record>): seq<byte>
  {
    if rs == [] then [] else EncodeRecord(rs[0]) + EncodeTable(rs[1..])
  }

  /** The sixteen header bytes: the magic, the little-endian archive size,
      the big-endian entry count and the big-endian first offset. */
  function Header(f: Format, size: u32, count: u32, firstOffset: u32): (h: seq<byte>)
    requires !f.Unknown?
    ensures |h| == HEADER_LEN
  {
    Magic(f) + LE32Bytes(size) + BE32Bytes(count) + BE32Bytes(firstOffset)
  }

  /** A whole archive: the header, the table, then whatever follows it
      (padding and payloads). */
  function EncodeArchive(f: Format, size: u32, firstOffset: u32, rs: seq<Record>, rest: seq<byte>): seq<byte>
    requires !f.Unknown? && |rs| < U32_LIMIT
  {
    Header(f, size, |rs|, firstOffset) + EncodeTable(rs) + rest
  }

  ghost predicate AllWellFormed(rs: seq<Record>)
  {
    forall i :: 0 <= i < |rs| ==> WellFormed(rs[i])
  }

  /** `bytes` stand in `s` from position `at` on. */
  ghost predicate At(s: seq<byte>, at: nat, bytes: seq<byte>)
  {
    at + |bytes| <= |s| && s[at .. at + |bytes|] == bytes
  }

  /** A part of bytes that stand in a stream stands there too. */
  lemma AtPart(s: seq<byte>, at: nat, bytes: seq<byte>, i: nat, j: nat)
    requires At(s, at, bytes) && i <= j <= |bytes|
    ensures At(s, at + i, bytes[i .. j])
  {
    forall k | 0 <= k < j - i ensures s[at + i .. at + j][k] == bytes[i .. j][k] {
      assert s[at + i + k] == s[at .. at + |bytes|][i + k];
    }
  }

  /** The big-endian read depends only on the four bytes it covers. */
  lemma BE32Slice(s: seq<byte>, i: nat)
    requires i + 4 <= |s|
    ensures BE32(s, i) == BE32(s[i .. i + 4], 0)
  {
  }

  /** The little-endian read depends only on the four bytes it covers. */
  lemma LE32Slice(s: seq<byte>, i: nat)
    requires i + 4 <= |s|
    ensures LE32(s, i) == LE32(s[i .. i + 4], 0)
  {
  }

  /** The header is read back field by field. */
  lemma ReadHeader(s: seq<byte>, f: Format, size: u32, count: u32, firstOffset: u32)
    requires !f.Unknown? && At(s, 0, Header(f, size, count, firstOffset))
    ensures ReadFormat(s).0 == f
    ensures ArchiveSize(s) == size && NumEntries(s) == count && FirstOffset(s) == firstOffset
  {
    var h := Header(f, size, count, firstOffset);
    AtPart(s, 0, h, 0, 4);
    AtPart(s, 0, h, 4, 8);
    AtPart(s, 0, h, 8, 12);
    AtPart(s, 0, h, 12, 16);
    assert h[..4] == Magic(f);
    assert h[4 .. 8] == LE32Bytes(size);
    assert h[8 .. 12] == BE32Bytes(count);
    assert h[12 .. 16] == BE32Bytes(firstOffset);
    LE32Slice(s, 4);
    BE32Slice(s, 8);
    BE32Slice(s, 12);
  }

  /** The first NUL at or after `i` is `k` bytes on when those `k` bytes are
      non-zero and the next one is zero. */
  lemma {:induction false} NulIndexAt(s: seq<byte>, i: nat, k: nat)
    requires i + k < |s| && s[i + k] == 0
    requires forall j :: i <= j < i + k ==> s[j] != 0
    ensures NulIndex(s, i) == i + k
    decreases k
  {
    if k > 0 {
      NulIndexAt(s, i + 1, k - 1);
    }
  }

  /** A byte of `bytes` standing in `s` from `at`. */
  lemma AtByte(s: seq<byte>, at: nat, bytes: seq<byte>, i: nat)
    requires At(s, at, bytes) && i < |bytes|
    ensures s[at + i] == bytes[i]
  {
    assert s[at + i] == s[at .. at + |bytes|][i];
  }

  /** A NUL-free name standing at `i` with a NUL right after it is what
      `read_until` delivers there, and it consumes the name and the NUL. */
  lemma ReadNameAt(s: seq<byte>, i: nat, name: seq<byte>)
    requires At(s, i, name + [0])
    requires forall j :: 0 <= j < |name| ==> name[j] != 0
    ensures NameBytes(s, i) == name && ReadUntilCount(s, i) == |name| + 1
  {
    var k := |name|;
    forall j | i <= j < i + k ensures s[j] != 0 {
      AtByte(s, i, name + [0], j - i);
    }
    AtByte(s, i, name + [0], k);
    NulIndexAt(s, i, k);
    NameBytesIsConsumedPrefix(s, i);
    AtPart(s, i, name + [0], 0, k);
    assert (name + [0])[..k] == name;
  }

  /** A well-formed record written anywhere in a stream is read back
      unchanged from where it starts. */
  lemma ReadEncodedRecord(s: seq<byte>, at: nat, r: Record)
    requires WellFormed(r) && At(s, at, EncodeRecord(r))
    ensures ReadRecord(s, at) == Got(r)
  {
    var b := EncodeRecord(r);
    var k := |r.nameBytes|;
    AtPart(s, at, b, 0, 4);
    AtPart(s, at, b, 4, 8);
    AtPart(s, at, b, 8, 9 + k);
    assert b[..4] == BE32Bytes(r.offset);
    assert b[4 .. 8] == BE32Bytes(r.dataLen);
    assert b[8 .. 9 + k] == r.nameBytes + [0];
    BE32Slice(s, at);
    BE32Slice(s, at + 4);
    ReadNameAt(s, at + 8, r.nameBytes);
  }

  /** An encoded table starts with its first record, and the rest of the
      table follows where that record ends. */
  lemma AtTableHead(s: seq<byte>, at: nat, rs: seq<Record>)
    requires rs != [] && WellFormed(rs[0]) && At(s, at, EncodeTable(rs))
    ensures At(s, at, EncodeRecord(rs[0]))
    ensures At(s, at + RecordSize(rs[0]), EncodeTable(rs[1..]))
  {
    var b := EncodeRecord(rs[0]);
    var t := EncodeTable(rs[1..]);
    assert EncodeTable(rs) == b + t;
    AtPart(s, at, b + t, 0, |b|);
    assert (b + t)[..|b|] == b;
    AtPart(s, at, b + t, |b|, |b| + |t|);
    assert (b + t)[|b| .. |b| + |t|] == t;
  }

  lemma AllWellFormedTail(rs: seq<Record>)
    requires rs != [] && AllWellFormed(rs)
    ensures WellFormed(rs[0]) && AllWellFormed(rs[1..])
  {
    forall j | 0 <= j < |rs[1..]| ensures WellFormed(rs[1..][j]) {
      assert rs[1..][j] == rs[j + 1];
    }
  }

  /** Record `i` of a table written in a stream stands where the records
      before it end. */
  lemma {:induction false} EncodedRecordAt(s: seq<byte>, at: nat, rs: seq<Record>, i: nat)
    requires AllWellFormed(rs) && At(s, at, EncodeTable(rs)) && i < |rs|
    ensures At(s, at + TotalSize(rs[..i]), EncodeRecord(rs[i]))
    decreases i
  {
    AllWellFormedTail(rs);
    AtTableHead(s, at, rs);
    if i == 0 {
      assert rs[..0] == [];
    } else {
      var rest := rs[1..];
      EncodedRecordAt(s, at + RecordSize(rs[0]), rest, i - 1);
      TotalSizePrefix(rs, i);
      assert at + TotalSize(rs[..i]) == at + RecordSize(rs[0]) + TotalSize(rest[..i - 1]);
      assert rs[i] == rest[i - 1];
    }
  }

  /** Well-formed records written back to back anywhere in a stream are read
      back, in order, as a table that ends where the last one does. */
  lemma ScanEncoded(s: seq<byte>, at: nat, rs: seq<Record>)
    requires AllWellFormed(rs) && At(s, at, EncodeTable(rs))
    ensures Scan(StreamReader(s), at, |rs|) == Scanned(rs, at + TotalSize(rs))
  {
    forall i | 0 <= i < |rs| ensures StreamReader(s)(at + TotalSize(rs[..i])) == Got(rs[i]) {
      EncodedRecordAt(s, at, rs, i);
      ReadEncodedRecord(s, at + TotalSize(rs[..i]), rs[i]);
    }
    assert ReadsAt(StreamReader(s), at, rs);
    ScanFromReads(StreamReader(s), at, rs);
  }

  /** Below 4 GiB of table no name length is truncated, so the counter
      grows by exactly the bytes the records occupy. */
  lemma SumMetaSmall(rs: seq<Record>)
    requires TotalSize(rs) < U32_LIMIT
    ensures SumMeta(rs) == TotalSize(rs)
  {
    TotalSizeBoundsRecords(rs);
    SumMetaIsTotalSize(rs, U32_LIMIT);
  }

  /** A stream holding a header and then well-formed records: the header
      fields read back, and the table scans back as the records. */
  lemma LaidOut(s: seq<byte>, f: Format, size: u32, firstOffset: u32, rs: seq<Record>)
    requires !f.Unknown? && |rs| < U32_LIMIT && AllWellFormed(rs)
    requires At(s, 0, Header(f, size, |rs|, firstOffset)) && At(s, HEADER_LEN, EncodeTable(rs))
    ensures HeaderRead(s) && ReadFormat(s).0 == f
    ensures ArchiveSize(s) == size && NumEntries(s) == |rs| && FirstOffset(s) == firstOffset
    ensures Scan(StreamReader(s), HEADER_LEN, |rs|) == Scanned(rs, HEADER_LEN + TotalSize(rs))
  {
    ReadHeader(s, f, size, |rs|, firstOffset);
    ScanEncoded(s, HEADER_LEN, rs);
  }

  /** `BigArchive::new` once its header fields are known and its table
      scans as `rs`: it succeeds exactly when the first offset is not below
      the end of the table as counted, and then gives back the format and
      size, the last-write-wins index of the records, the junk length and
      the end of the table. */
  lemma ParseKnownParts(s: seq<byte>, f: Format, size: u32, firstOffset: u32, rs: seq<Record>, decode: Decoder)
    requires HeaderRead(s) && ReadFormat(s).0 == f
    requires ArchiveSize(s) == size && NumEntries(s) == |rs| && FirstOffset(s) == firstOffset
    requires Scan(StreamReader(s), HEADER_LEN, |rs|) == Scanned(rs, HEADER_LEN + TotalSize(rs))
    ensures ParseSpec(s, decode).Parsed? <==> HEADER_LEN + SumMeta(rs) <= firstOffset
    ensures HEADER_LEN + SumMeta(rs) <= firstOffset ==>
      ParseSpec(s, decode)
        == Parsed(f, size, firstOffset - (HEADER_LEN + SumMeta(rs)) + 1, IndexOf(rs, decode), HEADER_LEN + TotalSize(rs))
  {
    var end := HEADER_LEN + TotalSize(rs);
    assert TableOf(s) == Scanned(rs, end);
    if HEADER_LEN + SumMeta(rs) <= firstOffset {
      ParseSucceeds(s, decode, rs, end);
    } else {
      ParseJunkUnderflow(s, decode, rs, end);
    }
  }

  /** An encoded archive holds its header at the start and its table
      right after it. */
  lemma EncodedLayout(f: Format, size: u32, firstOffset: u32, rs: seq<Record>, rest: seq<byte>)
    requires !f.Unknown? && |rs| < U32_LIMIT
    ensures var s := EncodeArchive(f, size, firstOffset, rs, rest);
      At(s, 0, Header(f, size, |rs|, firstOffset)) && At(s, HEADER_LEN, EncodeTable(rs))
  {
    var h := Header(f, size, |rs|, firstOffset);
    var t := EncodeTable(rs);
    var s := EncodeArchive(f, size, firstOffset, rs, rest);
    assert s[..HEADER_LEN] == h;
    assert s[HEADER_LEN .. HEADER_LEN + |t|] == t;
  }

  /** Round trip: `BigArchive::new` reads back the parts an archive was
      built from. Below 4 GiB of table the junk length is the distance from
      the end of the table to the first offset, plus one. */
  lemma ParseEncoded(f: Format, size: u32, firstOffset: u32, rs: seq<Record>, rest: seq<byte>, decode: Decoder)
    requires !f.Unknown? && |rs| < U32_LIMIT && AllWellFormed(rs)
    ensures var s := EncodeArchive(f, size, firstOffset, rs, rest);
      ParseSpec(s, decode).Parsed? <==> HEADER_LEN + SumMeta(rs) <= firstOffset
    ensures HEADER_LEN + SumMeta(rs) <= firstOffset ==>
      ParseSpec(EncodeArchive(f, size, firstOffset, rs, rest), decode)
        == Parsed(f, size, firstOffset - (HEADER_LEN + SumMeta(rs)) + 1, IndexOf(rs, decode), HEADER_LEN + TotalSize(rs))
    ensures HEADER_LEN + TotalSize(rs) <= firstOffset ==> SumMeta(rs) == TotalSize(rs)
  {
    var s := EncodeArchive(f, size, firstOffset, rs, rest);
    EncodedLayout(f, size, firstOffset, rs, rest);
    LaidOut(s, f, size, firstOffset, rs);
    ParseKnownParts(s, f, size, firstOffset, rs, decode);
    if HEADER_LEN + TotalSize(rs) <= firstOffset {
      SumMetaSmall(rs);
    }
  }
}
