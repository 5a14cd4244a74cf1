/** Byte-level reading primitives the decoder relies on: the `byteorder`
    integer reads and `BufRead::read_until` with a NUL delimiter, stated over
    the stream's bytes and a position in them. */
module ByteOrder {

  /** One byte of the input stream. */
  type byte = b: int | 0 <= b < 0x100

  /** Rust's `u32`. */
  type u32 = x: int | 0 <= x < 0x1_0000_0000

  const U32_LIMIT: int := 0x1_0000_0000

  /** `read_u32::<BigEndian>()` applied to the four bytes at `i`. */
  function BE32(s: seq<byte>, i: nat): u32
    requires i + 4 <= |s|
  {
    s[i] as int * 0x100_0000 + s[i + 1] as int * 0x1_0000 + s[i + 2] as int * 0x100 + s[i + 3] as int
  }

  /** `read_u32::<LittleEndian>()` applied to the four bytes at `i`. */
  function LE32(s: seq<byte>, i: nat): u32
    requires i + 4 <= |s|
  {
    s[i + 3] as int * 0x100_0000 + s[i + 2] as int * 0x1_0000 + s[i + 1] as int * 0x100 + s[i] as int
  }

  /** The four bytes that `write_u32::<BigEndian>` would produce. */
  function BE32Bytes(x: u32): (b: seq<byte>)
    ensures |b| == 4 && BE32(b, 0) == x
  {
    var hi := x / 0x1_0000;
    var lo := x % 0x1_0000;
    [hi / 0x100, hi % 0x100, lo / 0x100, lo % 0x100]
  }

  /** The four bytes that `write_u32::<LittleEndian>` would produce. */
  function LE32Bytes(x: u32): (b: seq<byte>)
    ensures |b| == 4 && LE32(b, 0) == x
    ensures b == Reverse4(BE32Bytes(x))
  {
    var hi := x / 0x1_0000;
    var lo := x % 0x1_0000;
    [lo % 0x100, lo / 0x100, hi % 0x100, hi / 0x100]
  }

  function Reverse4(b: seq<byte>): seq<byte>
    requires |b| == 4
  {
    [b[3], b[2], b[1], b[0]]
  }

  /** The little-endian reading of four bytes is the big-endian reading of
      the same bytes in reverse order. */
  lemma LE32IsReversedBE32(s: seq<byte>, i: nat)
    requires i + 4 <= |s|
    ensures LE32(s, i) == BE32(Reverse4(s[i..i + 4]), 0)
  {
  }

  /** The position of the first NUL byte at or after `i`, or `|s|` if there
      is none. */
  function NulIndex(s: seq<byte>, i: nat): (k: nat)
    requires i <= |s|
    ensures i <= k <= |s|
    decreases |s| - i
  {
    if i == |s| then |s|
    else if s[i] == 0 then i
    else NulIndex(s, i + 1)
  }

  /** `NulIndex` finds the first NUL: every byte it skips is non-zero, and it
      stops on a NUL unless it reached the end of the stream. */
  lemma {:induction false} NulIndexIsFirstNul(s: seq<byte>, i: nat)
    requires i <= |s|
    ensures forall j :: i <= j < NulIndex(s, i) ==> s[j] != 0
    ensures NulIndex(s, i) < |s| ==> s[NulIndex(s, i)] == 0
    decreases |s| - i
  {
    if i < |s| && s[i] != 0 {
      NulIndexIsFirstNul(s, i + 1);
    }
  }

  /** The count `read_until(b'\0', ..)` reports when started at position `i`:
      every byte up to and including the first NUL, or every remaining byte
      when the stream ends first. */
  function ReadUntilCount(s: seq<byte>, i: nat): (n: nat)
    requires i <= |s|
    ensures i + n <= |s|
    ensures n == 0 <==> i == |s|
  {
    var k := NulIndex(s, i);
    if k < |s| then k - i + 1 else |s| - i
  }

  /** The bytes `read_until` consumed: none but possibly the last is a NUL;
      the last is a NUL unless the read ran into the end of the stream; and
      a stream with no NUL left is read to its end. */
  lemma ReadUntilCountStopsAtNul(s: seq<byte>, i: nat)
    requires i <= |s|
    ensures var n := ReadUntilCount(s, i);
      && (forall j :: i <= j < i + n - 1 ==> s[j] != 0)
      && (i + n < |s| ==> s[i + n - 1] == 0)
      && ((forall j :: i <= j < |s| ==> s[j] != 0) ==> i + n == |s|)
  {
    NulIndexIsFirstNul(s, i);
  }

  /** The name `BigArchive::new` keeps from a `read_until` started at `i`:
      the bytes it consumed, less the last one. That last byte is the NUL
      terminator, or, when the stream ends before any NUL, the stream's final
      byte. */
  function NameBytes(s: seq<byte>, i: nat): seq<byte>
    requires i <= |s|
    decreases |s| - i
  {
    if i + 1 >= |s| || s[i] == 0 then [] else [s[i]] + NameBytes(s, i + 1)
  }

  /** The name is the consumed bytes minus the last, taken from the stream in
      place, and it holds no NUL. */
  lemma {:induction false} NameBytesIsConsumedPrefix(s: seq<byte>, i: nat)
    requires i < |s|
    ensures |NameBytes(s, i)| == ReadUntilCount(s, i) - 1
    ensures NameBytes(s, i) == s[i .. i + |NameBytes(s, i)|]
    ensures forall j :: 0 <= j < |NameBytes(s, i)| ==> NameBytes(s, i)[j] != 0
    decreases |s| - i
  {
    if i + 1 < |s| && s[i] != 0 {
      NameBytesIsConsumedPrefix(s, i + 1);
      assert NulIndex(s, i) == NulIndex(s, i + 1);
    }
  }
}
