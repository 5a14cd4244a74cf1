/** A two-entry BIG4 archive laid out like the one the library's own tests
    open: "art/image.txt" holding seven bytes and "data/test.ini" holding
    twenty-six, stored right after the table. The archive is built with
    `EncodeArchive`; the lemmas and the method below state what the tests
    expect of it. */
module Fixture {
  import opened ByteOrder
  import opened Formats
  import opened EntryTable
  import opened Parsing
  import opened Encoding
  import opened Archive

  /** ASCII "art/image.txt". */
  const IMAGE_NAME: seq<byte> := [97, 114, 116, 47, 105, 109, 97, 103, 101, 46, 116, 120, 116]
  /** ASCII "data/test.ini". */
  const INI_NAME: seq<byte> := [100, 97, 116, 97, 47, 116, 101, 115, 116, 46, 105, 110, 105]

  /** ASCII "blablba". */
  const IMAGE_DATA: seq<byte> := [98, 108, 97, 98, 108, 98, 97]
  /** ASCII "This is a simple test file". */
  const INI_DATA: seq<byte> :=
    [84, 104, 105, 115, 32, 105, 115, 32, 97, 32, 115, 105, 109, 112, 108, 101, 32,
     116, 101, 115, 116, 32, 102, 105, 108, 101]

  /** Sixteen header bytes and two records of 8 + 13 + 1 bytes each: the
      payloads start at 60. */
  const IMAGE_OFFSET: u32 := 60
  const INI_OFFSET: u32 := 67

  function TestRecords(): seq<Record>
  {
    [Record(IMAGE_OFFSET, |IMAGE_DATA|, IMAGE_NAME, |IMAGE_NAME| + 1),
     Record(INI_OFFSET, |INI_DATA|, INI_NAME, |INI_NAME| + 1)]
  }

  /** The archive: header, table, then the two payloads, with the first
      offset where the table ends. */
  function TestArchive(): seq<byte>
  {
    EncodeArchive(Big4, 93, IMAGE_OFFSET, TestRecords(), IMAGE_DATA + INI_DATA)
  }

  /** `String::from_utf8_lossy` is the identity on ASCII names. */
  ghost predicate DecodesNames(decode: Decoder)
  {
    decode(IMAGE_NAME) == "art/image.txt" && decode(INI_NAME) == "data/test.ini"
  }

  /** Both names are set once, so the index holds both records. */
  lemma TestIndex(decode: Decoder)
    requires DecodesNames(decode)
    ensures IndexOf(TestRecords(), decode)
         == map["art/image.txt" := BigEntry(IMAGE_OFFSET, 7, "art/image.txt"),
                "data/test.ini" := BigEntry(INI_OFFSET, 26, "data/test.ini")]
  {
    var rs := TestRecords();
    IndexOfEmpty(decode);
    IndexOfSnoc([], rs[0], decode);
    IndexOfSnoc([rs[0]], rs[1], decode);
    assert [] + [rs[0]] == [rs[0]] && [rs[0]] + [rs[1]] == rs;
  }

  /** The test archive opens as BIG4 with both entries at their offsets
      and a junk length of one, the off-by-one patch on a table that ends
      exactly at the first offset. */
  lemma TestArchiveParses(decode: Decoder)
    requires DecodesNames(decode)
    ensures var p := ParseSpec(TestArchive(), decode);
      && p.Parsed? && p.format == Big4 && p.size == 93 && p.junkLen == 1
      && p.entries == map["art/image.txt" := BigEntry(IMAGE_OFFSET, 7, "art/image.txt"),
                          "data/test.ini" := BigEntry(INI_OFFSET, 26, "data/test.ini")]
  {
    var rs := TestRecords();
    assert AllWellFormed(rs);
    assert SumMeta(rs) == 44 by {
      assert rs[1..][1..] == [];
    }
    ParseEncoded(Big4, 93, IMAGE_OFFSET, rs, IMAGE_DATA + INI_DATA, decode);
    TestIndex(decode);
  }

  /** The payloads lie where the index says. */
  lemma TestArchivePayloads()
    ensures |TestArchive()| == 93
    ensures TestArchive()[IMAGE_OFFSET .. IMAGE_OFFSET + 7] == IMAGE_DATA
    ensures TestArchive()[INI_OFFSET .. INI_OFFSET + 26] == INI_DATA
  {
    var rs := TestRecords();
    var s := TestArchive();
    var prefix := Header(Big4, 93, |rs|, IMAGE_OFFSET) + EncodeTable(rs);
    assert |EncodeTable(rs)| == 44 by {
      assert EncodeTable(rs[1..][1..]) == [];
    }
    assert s == prefix + (IMAGE_DATA + INI_DATA);
    assert s[60 .. 67] == IMAGE_DATA;
    assert s[67 .. 93] == INI_DATA;
  }

  /** What the library's tests check of the archive: the format is BIG4,
      there are two names, both are contained, and each entry reads back as
      its payload. */
  method OpenTestArchive(decode: Decoder)
    returns (format: Format, names: set<string>, hasImage: bool, hasIni: bool,
             image: Option<seq<byte>>, ini: Option<seq<byte>>)
    requires DecodesNames(decode)
    ensures format == Big4
    ensures names == {"art/image.txt", "data/test.ini"} && |names| == 2
    ensures hasImage && hasIni
    ensures image == Some(IMAGE_DATA) && ini == Some(INI_DATA)
  {
    TestArchiveParses(decode);
    TestArchivePayloads();
    var result := BigArchive.New(TestArchive(), decode);
    var archive := result.archive;
    format := archive.format;
    names := archive.GetAllEntryNames();
    hasImage := archive.Contains("art/image.txt");
    hasIni := archive.Contains("data/test.ini");
    image := archive.ReadEntry("art/image.txt");
    ini := archive.ReadEntry("data/test.ini");
  }
}
