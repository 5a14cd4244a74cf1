# libbig: the `.big` archive reader, modelled in Dafny

libbig reads `.big` archives, the container format of several real-time
strategy games. An archive starts with a sixteen-byte header: the four-byte
magic `BIG4` or `BIGF`, then the archive size, the entry count and the
offset of the first payload. Then comes a table of entry records.
Each record is an offset, a length and a NUL-terminated name. `BigArchive::new`
reads the header and the table into a map from decoded names to entries. It
keeps a running byte counter `pos`, and derives from it the "junk" length
between the table and the first payload. The accessors then answer queries
from that map. `read_entry` seeks the shared reader to an entry's offset and
reads its bytes.

The model is split into modules that follow the program:

- `ByteOrder` (bytes.dfy): bytes, `u32`, the `byteorder` reads and
  `read_until(b'\0')`.
- `Errors` (errors.dfy): `ReadError`.
- `Formats` (format.dfy): `Format` and magic detection.
- `EntryTable` (table.dfy): `BigEntry`, one table record as read, the table
  loop as a tail-recursive function `Table`, and an independent description
  of the same table:
  - `Scan`, the records in stream order;
  - `IndexOf`, the last record with each name wins;
  - `SumMeta` and `TotalSize`, the byte counts.
  The step lemmas connect this description to the loop.
- `Parsing` (parse.dfy): `BigArchive::new` as an imperative method with its
  `while` loop, proved equal to the function `ParseSpec`. It also has lemmas
  that describe every outcome of `ParseSpec` through the independent table
  description.
- `Archive` (archive.dfy): the `BigArchive` class. The stream is its bytes
  `data` and the reader's position `cursor`, the only field that changes
  after construction. The class has the accessors, `read_entry` (proved
  independent of the cursor) and `read_exact`.
- `Encoding` (encoding.dfy): the bytes an archive with given parts consists
  of, and the round trip that `new` reads those parts back.
- `Fixture` (fixture.dfy): a two-entry BIG4 archive built with the encoder.
  Its lemmas state what the library's unit tests expect of their archive.

Decisions about the model:

- `String::from_utf8_lossy` is a parameter `decode: seq<byte> -> string`.
  Every property outside `Fixture` holds for any decoder, including one that
  is not injective: last-write-wins and the entry count are stated over
  decoded names. The `Fixture` lemmas assume that the decoder is the
  identity on the fixture's two ASCII names (`DecodesNames`).
- Integer overflow follows a debug build. The `u32` sums
  `pos += entry_metadata_len` and `4 + 4 + name_len as u32` can overflow, and
  the subtractions `first_offset - pos` and `name_len - 1` can underflow;
  each of these is the outcome `Panicked`.
- `name_len as u32` keeps the low 32 bits.
- The magic read discards its error. On a stream of fewer than four bytes,
  the buffer keeps the zeros the `[0; 4]` buffer started with.
- A seek to a start position always succeeds, even past the end of the
  stream. `read_exact` of an empty buffer succeeds wherever the cursor is.
  A failed `read_exact` leaves the cursor at the end of the stream, having
  consumed what was left, or where it was if it was already past the end.

Behaviour of the code that the model keeps as written:

- Only the archive size is read little-endian (src/lib.rs:39); the entry
  count and the first offset are big-endian (src/lib.rs:40-41), as are each
  record's offset and length (src/lib.rs:47-48).
- `junk_len` is `first_offset - pos + 1`; the comment at src/lib.rs:66
  calls the `+ 1` a patch for an off-by-one.
- When `first_offset < pos`, the `u32` subtraction at src/lib.rs:65
  underflows: a debug build panics, and that is the outcome modelled. No
  error value is returned for it.
- A name with no NUL before the end of the stream is not an error.
  `read_until` returns the bytes that were left, and `buf[..name_len - 1]`
  drops the last of them (src/lib.rs:51, 56).
- The result of the magic's `read_exact` is discarded (src/lib.rs:140), so a
  stream shorter than four bytes is an unknown format, not an I/O error.

## Model

| member | source | states |
|---|---|---|
| Formats.MagicBuffer | src/lib.rs:139-140 | the buffer after `read_exact` into `[0; 4]`: the stream's first four bytes, or all its bytes padded with the initial zeros |
| Formats.ReadFormat | src/lib.rs:137-151 | `Big4` iff the first four bytes are exactly "BIG4"; `BigF` iff they are exactly "BIGF"; otherwise `Unknown` carrying the buffer; consumes min(4, length) bytes |
| ByteOrder.LE32 | src/lib.rs:39 | `read_u32::<LittleEndian>()`: the four bytes at a position, least significant first |
| ByteOrder.BE32 | src/lib.rs:40-41 | `read_u32::<BigEndian>()`: the four bytes at a position, most significant first |
| ByteOrder.ReadUntilCount | src/lib.rs:51 | the count `read_until(b'\0', ..)` returns: the bytes up to and including the first NUL, or all remaining bytes when no NUL is left; zero exactly at the end of the stream |
| ByteOrder.NameBytes | src/lib.rs:51-56 | `buf[..name_len - 1]`: the bytes before the first NUL, or, when the stream ends first, the remaining bytes less the last |
| ByteOrder.NulIndexIsFirstNul | src/lib.rs:51 | the delimiter search stops at the first NUL and skips only non-zero bytes |
| ByteOrder.ReadUntilCountStopsAtNul | src/lib.rs:51 | `read_until` consumes up to and including the first NUL, or the rest of the stream when no NUL is left |
| ByteOrder.NameBytesIsConsumedPrefix | src/lib.rs:51-56 | the kept name is the consumed bytes minus the last, taken in place, and holds no NUL |
| ByteOrder.LE32IsReversedBE32 | src/lib.rs:39-41 | the little-endian size read is the big-endian read of the same four bytes reversed |
| EntryTable.ReadRecord | src/lib.rs:47-56 | one iteration's reads at a position: fewer than eight bytes is an I/O error; no byte left for the name is the `name_len - 1` underflow; otherwise the big-endian offset and length, the name bytes and `name_len` |
| EntryTable.Table | src/lib.rs:46-63 | the `for` loop: per record, an I/O error or underflow ends it; otherwise the entry is inserted under its decoded name, replacing an earlier one, then `pos += 4 + 4 + name_len as u32` panics on overflow or the loop continues where the record ends; after `num_entries` records it yields the map, `pos` and the cursor |
| EntryTable.ReadRecordCases | src/lib.rs:47-56 | one iteration's reads fail with an I/O error on fewer than eight bytes, hit `name_len - 1` underflow on exactly eight, and otherwise deliver a record inside the stream |
| EntryTable.ReadRecordParts | src/lib.rs:47-56 | offset and length are the big-endian words at the record's start; the name bytes run to the first NUL and exclude it; a name cut off by the end of the stream loses its last byte |
| EntryTable.LastWithIsLast | src/lib.rs:59 | the record chosen for a name carries it, and no later record carries it |
| EntryTable.IndexOfSnoc | src/lib.rs:59 | inserting one more record into the last-write-wins index gives the index of the longer sequence |
| EntryTable.InsertAllIsIndex | src/lib.rs:46-63 | inserting records in turn, as the loop does, builds the last-write-wins index |
| EntryTable.KeyCount | src/lib.rs:82-84 | the number of distinct names is at most the number of records, with equality iff no name repeats |
| EntryTable.IndexOfDistinct | src/lib.rs:59 | with distinct names, every record is in the index as it was read |
| EntryTable.TableOkFromScan | src/lib.rs:46-63 | when every record reads and the counter stays below 2^32, the loop's map, counter and cursor are the index, 16 plus the metadata sum, and the table's end |
| EntryTable.TableOverflowFromScan | src/lib.rs:61-62 | when every record reads but the counter sum reaches 2^32, the loop panics |
| EntryTable.TablePanicFromScan | src/lib.rs:51-56 | a name read that finds no byte left makes the loop panic |
| EntryTable.TableFailFromScan | src/lib.rs:47-51 | a record cut short makes the loop fail with an I/O error, or panic if the counter overflowed first |
| EntryTable.TableFailFromScanSmall | src/lib.rs:47-51 | below 4 GiB a cut-short record is always the I/O error |
| EntryTable.TablePosGrows | src/lib.rs:61-62 | the counter never decreases |
| EntryTable.ScanIffReads | src/lib.rs:46-51 | the table is exactly the records read back to back, in both directions |
| EntryTable.ScanWellFormed | src/lib.rs:51-56 | every scanned record lies inside the stream and its name excludes the terminator |
| EntryTable.SumMetaIsTotalSize | src/lib.rs:61-62 | without truncation of `name_len`, the counter grows by the bytes the records occupy |
| Parsing.ParseSpec | src/lib.rs:32-76 | `BigArchive::new` as a function of the bytes: an unknown magic is `UnknownArchiveFormat` with the buffer; a header cut short is an I/O error; then the table loop's outcome, and on success `first_offset - pos + 1` as the junk length, with `first_offset < pos` a panic |
| Parsing.ReadTableRecord | src/lib.rs:47-56 | the method's reads of one iteration equal `ReadRecord` |
| Parsing.ReadTable | src/lib.rs:42-63 | the `while` loop over `num_entries` equals the table function, with its invariant |
| Parsing.Parse | src/lib.rs:32-67 | `BigArchive::new`, step by step, equals `ParseSpec` |
| Parsing.ParseUnknownFormat | src/lib.rs:33-37 | an unrecognised magic, a short stream included, is `UnknownArchiveFormat` with the same four bytes |
| Parsing.ParseSucceeds | src/lib.rs:32-76 | a table that reads, with the counter at most the first offset: the format, the little-endian size, the index, the junk length `first_offset - pos + 1` and the cursor at the table's end |
| Parsing.ParseJunkUnderflow | src/lib.rs:65-67 | a counter past the first offset is rejected (underflow panic) |
| Parsing.ParseHeaderTruncated | src/lib.rs:39-41 | a known magic on a stream shorter than the sixteen header bytes is `StdIoError` |
| Parsing.ParseTableTruncated | src/lib.rs:39-51 | a truncated record field is `StdIoError` below 4 GiB |
| Parsing.ParseNameAtEnd | src/lib.rs:51-56 | zero bytes left for a name makes `new` panic |
| Parsing.ParseSucceedsIff | src/lib.rs:32-76 | `new` succeeds iff the magic is known, the header is complete, every record reads and the counter does not pass the first offset |
| Parsing.ParseSmallArchive | src/lib.rs:42-67 | below 4 GiB, `pos` is 16 plus the sum of `8 + name length + 1`, which is where the table ends, and the junk length is measured from there |
| Parsing.ParseJunkLen | src/lib.rs:65-67 | the junk length is the first offset less the counter plus one |
| Parsing.ParseEntryCount | src/lib.rs:46-63 | the map holds at most `num_entries` names, exactly that many iff no decoded name repeats |
| Encoding.ReadHeader | src/lib.rs:33-41 | header fields written with the layout read back: the magic's format, the little-endian size, the big-endian count and offset |
| Encoding.ReadEncodedRecord | src/lib.rs:47-56 | a well-formed record written anywhere in a stream reads back unchanged |
| Encoding.ScanEncoded | src/lib.rs:46-63 | records written back to back scan back in order |
| Encoding.ParseEncoded | src/lib.rs:32-76 | round trip: `new` on an encoded archive succeeds iff the counter does not pass the first offset, and then returns the format, size, index of the records, junk length and table end |
| Archive.BigArchive.New | src/lib.rs:32-76 | the constructor returns an archive exactly when `ParseSpec` parses, else the same error or the panic |
| Archive.BigArchive.JunkLen | src/lib.rs:78-80 | the first offset less the header bytes counted, plus one; below 4 GiB measured from the table's end |
| Archive.BigArchive.EntryCount | src/lib.rs:82-84 | the number of distinct decoded names, ≤ `num_entries`, equal iff no name repeats |
| Archive.BigArchive.Contains | src/lib.rs:106-108 | true iff some table record carries the name |
| Archive.BigArchive.GetEntry | src/lib.rs:110-112 | `Some` iff `Contains`; then the entry of the last record with that name |
| Archive.BigArchive.GetAllEntryNames | src/lib.rs:118-120 | exactly the names of the records; as many as `EntryCount`; a name is in it iff `Contains` |
| Archive.BigArchive.EntryBytes | src/lib.rs:87-104 | `None` for an absent name; no bytes for a zero length; `data[offset .. offset + data_len]` when in range; `None` past the end |
| Archive.BigArchive.ReadExact | src/lib.rs:95-98 | fills the buffer from the cursor or fails at the end of the stream; the new cursor |
| Archive.BigArchive.ReadEntry | src/lib.rs:87-104 | returns `EntryBytes(name)` whatever the prior cursor, and the new cursor |
| Archive.ReadEntryAgain | src/lib.rs:87-104 | a read, another read, and the first read again return the same bytes |
| Fixture.TestIndex | src/lib.rs:168-189 | the two records' names are both in the index, with their offsets and lengths |
| Fixture.TestArchiveParses | src/lib.rs:160-189 | the two-entry archive opens as BIG4 with both entries and junk length one |
| Fixture.TestArchivePayloads | src/lib.rs:192-209 | the payloads lie at the entries' offsets |
| Fixture.OpenTestArchive | src/lib.rs:159-209 | format BIG4, two names, both contained, each reads back as its payload |

## Left out

- `BigArchive::new_from_path` (src/lib.rs:23-29) only opens a file. The model takes the stream as its bytes.
- `BufReader` buffering and `RefCell` borrowing are left out. The stream is the byte sequence and one `cursor` field. `RefCell` is single-threaded, so there is no concurrency.
- `String::from_utf8_lossy` is a parameter. Its replacement of invalid UTF-8 is not modelled.
- `get_entry_mut` (src/lib.rs:114-116) hands out a mutable reference into the map. Nothing in the library uses it, and its aliasing is not modelled.
- The wrapped `io::Error` value and the `From<io::Error>` conversion (src/errors/mod.rs:9-13) are left out. Every stream error is `StdIoError`.
- Underlying I/O failures other than the end of the stream are not modelled. The byte source never fails mid-read.
- The stream length is unbounded. The `u64` seek position is left out, since a `u32` offset always fits.
- Release-build wrap-around is not modelled: the model panics on every `u32` overflow and underflow.
- `get_all_entry_names` returns the key set. The iteration order of the hash map's keys is not modelled.
- The `test.big` file the unit tests open is not part of this model. `Fixture` builds a two-entry archive with the same names and payloads instead. It places the payloads right after the table, because the real file's offsets are unknown.
- The benchmarks (src/lib.rs:211-245, 292-325) and the tests that open `test.big` by path (src/lib.rs:252-290) repeat the byte tests.
- cli-tools/sagebig, src/bin/main.rs and src/feature_neon are command-line and Node.js front ends around the library, and are not part of this model.
