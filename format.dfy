/** Magic-based format detection: `Format::from` over the stream's first
    four bytes. */
module Formats {
  import opened ByteOrder

  datatype Format = Unknown(bytes: seq<byte>) | Big4 | BigF

  /** ASCII "BIG4". */
  const BIG4: seq<byte> := [0x42, 0x49, 0x47, 0x34]
  /** ASCII "BIGF". */
  const BIGF: seq<byte> := [0x42, 0x49, 0x47, 0x46]

  /** The four-byte buffer after `read_exact` on a zero-initialised
      `[0; 4]`: the stream's first four bytes, or, for a shorter stream,
      all of its bytes followed by the zeros the buffer started with. The
      read error on a short stream is discarded. */
  function MagicBuffer(s: seq<byte>): (buf: seq<byte>)
    ensures |buf| == 4
    ensures forall j :: 0 <= j < 4 && j < |s| ==> buf[j] == s[j]
    ensures forall j :: |s| <= j < 4 ==> buf[j] == 0
  {
    if |s| >= 4 then s[..4] else s + seq(4 - |s|, _ => 0)
  }

  /** `read_format`: classify the magic and report how many bytes were
      consumed. Only an exact, case-sensitive match of "BIG4" or "BIGF"
      selects a known format; everything else, a stream of fewer than four
      bytes included, is `Unknown` carrying the buffer. */
  function ReadFormat(s: seq<byte>): (r: (Format, nat))
    ensures r.1 == if |s| < 4 then |s| else 4
    ensures r.0 == Big4 <==> |s| >= 4 && s[..4] == BIG4
    ensures r.0 == BigF <==> |s| >= 4 && s[..4] == BIGF
    ensures r.0.Unknown? <==> !(|s| >= 4 && (s[..4] == BIG4 || s[..4] == BIGF))
    ensures r.0.Unknown? ==> r.0.bytes == MagicBuffer(s)
  {
    var buf := MagicBuffer(s);
    var consumed := if |s| < 4 then |s| else 4;
    assert |s| < 4 ==> buf[3] == 0;
    if buf == BIG4 then (Big4, consumed)
    else if buf == BIGF then (BigF, consumed)
    else (Unknown(buf), consumed)
  }
}
