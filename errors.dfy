/** The error type `BigArchive::new` returns (src/errors/mod.rs). */
module Errors {
  import opened ByteOrder

  /** `StdIoError` stands for every failed read of the underlying stream; the
      wrapped `io::Error` value is not modelled. `UnknownArchiveFormat`
      carries the four magic bytes that were not recognised. */
  datatype ReadError = StdIoError | UnknownArchiveFormat(bytes: seq<byte>)
}
