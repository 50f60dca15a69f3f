/** The open volume file as the reader sees it through its descriptor: fixed bytes and a file offset. */
module Streams {
  import opened Bytes

  /** The bytes of the volume file and the descriptor's current offset (which may lie past the end). */
  datatype Stream = Stream(bytes: seq<u8>, pos: nat)

  /** The outcome of read(2): whether all n bytes came back, the bytes that did, and the new offset. */
  datatype ReadOutcome = ReadOutcome(ok: bool, data: seq<u8>, after: Stream)

  /**
   * read(fd, buf, n) on a regular file, as archreader_read_data judges it: the call fails unless
   * exactly n bytes come back. A read of 0 bytes returns 0 wherever the offset is, and so
   * succeeds. A short read still delivers the bytes up to the end of the file and leaves the
   * offset at the end; a read at or past the end delivers nothing.
   */
  function Read(s: Stream, n: nat): ReadOutcome
  {
    if n == 0 then ReadOutcome(true, [], s)
    else if s.pos + n <= |s.bytes| then ReadOutcome(true, s.bytes[s.pos..s.pos + n], Stream(s.bytes, s.pos + n))
    else if s.pos < |s.bytes| then ReadOutcome(false, s.bytes[s.pos..], Stream(s.bytes, |s.bytes|))
    else ReadOutcome(false, [], s)
  }
}
