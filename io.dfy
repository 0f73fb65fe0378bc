/** The byte streams the codecs run over: an `AsyncRead` half and an `AsyncWrite`
    half of one libp2p substream, and the `std::io::Error` values the codecs return.
    Only end of stream is modelled as a failure of the stream itself. */
module Io {
  import opened Wrappers
  import opened Bytes

  /** The `io::ErrorKind`s the codecs produce. */
  datatype ErrorKind = UnexpectedEof | InvalidData | InvalidInput

  /** `CodecError` of src/p2p.rs. It is declared here because an `io::Error`
      carries it as its inner error; its `Io` variant is summarised by the kind
      of the wrapped error. */
  datatype CodecError = Io(ioKind: ErrorKind) | TooLarge(size: nat)

  /** An `io::Error`: a kind, and the custom error it was built from, if any. */
  datatype IoError = IoError(kind: ErrorKind, inner: Option<CodecError>)

  /** The error `read_exact` reports when the stream ends before the buffer is full. */
  const EOF_ERROR: IoError := IoError(UnexpectedEof, None)

  /** The capacity by which `read_to_end` grows its buffer before each read. */
  const READ_TO_END_CHUNK: nat := 32

  /** The read half: every byte the peer will ever send, and how many of them
      have been consumed. */
  class Reader {
    var data: seq<byte>
    var pos: nat

    ghost predicate Valid()
      reads this
    {
      pos <= |data|
    }

    /** The bytes that have not been read yet. */
    function Remaining(): (rest: seq<byte>)
      reads this
      requires Valid()
      ensures |rest| == |data| - pos
    {
      data[pos..]
    }

    constructor (input: seq<byte>)
      ensures Valid() && data == input && pos == 0
    {
      data := input;
      pos := 0;
    }

    /** One `poll_read` into a buffer of `max` bytes: it may fill only part of
        the buffer, but returns nothing only at end of stream or for an empty
        buffer. */
    method Read(max: nat) returns (chunk: seq<byte>)
      requires Valid()
      modifies this
      ensures Valid() && data == old(data)
      ensures |chunk| <= max && |chunk| <= |old(Remaining())|
      ensures chunk == old(Remaining())[..|chunk|]
      ensures pos == old(pos) + |chunk|
      ensures chunk == [] <==> max == 0 || old(pos) == |data|
    {
      var avail := |data| - pos;
      var n := if max < avail then max else avail;
      var k: nat :| k <= n && (k == 0 ==> n == 0);
      chunk := data[pos..pos + k];
      pos := pos + k;
    }

    /** `read_exact`: fills `n` bytes, or fails with `UnexpectedEof` once the
        stream ends first, having consumed everything that was left. */
    method ReadExact(n: nat) returns (r: Result<seq<byte>, IoError>)
      requires Valid()
      modifies this
      ensures Valid() && data == old(data)
      ensures r.Ok? <==> n <= |old(Remaining())|
      ensures r.Ok? ==> r.value == old(Remaining())[..n] && pos == old(pos) + n
      ensures r.Err? ==> r.error == EOF_ERROR && pos == |data|
    {
      var buf: seq<byte> := [];
      while |buf| < n
        invariant Valid() && data == old(data)
        invariant |buf| <= n
        invariant pos == old(pos) + |buf|
        invariant buf == data[old(pos)..pos]
        decreases n - |buf|
      {
        ghost var before := pos;
        var chunk := Read(n - |buf|);
        if chunk == [] {
          return Err(EOF_ERROR);
        }
        assert chunk == data[before..pos];
        assert data[old(pos)..pos] == data[old(pos)..before] + data[before..pos];
        buf := buf + chunk;
      }
      r := Ok(buf);
    }

    /** `read_to_end`: appends every byte up to end of stream. */
    method ReadToEnd() returns (buffer: seq<byte>)
      requires Valid()
      modifies this
      ensures Valid() && data == old(data)
      ensures buffer == old(Remaining()) && pos == |data|
    {
      buffer := [];
      while true
        invariant Valid() && data == old(data)
        invariant pos == old(pos) + |buffer|
        invariant buffer == data[old(pos)..pos]
        decreases |data| - pos
      {
        ghost var before := pos;
        var chunk := Read(READ_TO_END_CHUNK);
        if chunk == [] {
          break;
        }
        assert chunk == data[before..pos];
        assert data[old(pos)..pos] == data[old(pos)..before] + data[before..pos];
        buffer := buffer + chunk;
      }
    }
  }

  /** The write half: the bytes handed to the stream so far, and how many of
      them a flush has pushed to the transport. */
  class Writer {
    var written: seq<byte>
    var flushed: nat

    ghost predicate Valid()
      reads this
    {
      flushed <= |written|
    }

    constructor ()
      ensures Valid() && written == [] && flushed == 0
    {
      written := [];
      flushed := 0;
    }

    /** One `poll_write`: accepts some non-empty prefix of a non-empty buffer. */
    method Write(buf: seq<byte>) returns (n: nat)
      requires Valid()
      modifies this
      ensures Valid() && flushed == old(flushed)
      ensures n <= |buf| && (n == 0 <==> buf == [])
      ensures written == old(written) + buf[..n]
    {
      n :| n <= |buf| && (n == 0 ==> buf == []);
      written := written + buf[..n];
    }

    /** `write_all`: writes until the whole buffer has been accepted. */
    method WriteAll(buf: seq<byte>)
      requires Valid()
      modifies this
      ensures Valid() && flushed == old(flushed)
      ensures written == old(written) + buf
    {
      var done := 0;
      while done < |buf|
        invariant Valid() && flushed == old(flushed)
        invariant done <= |buf|
        invariant written == old(written) + buf[..done]
        decreases |buf| - done
      {
        var n := Write(buf[done..]);
        assert buf[..done] + buf[done..][..n] == buf[..done + n];
        done := done + n;
      }
      assert buf[..done] == buf;
    }

    /** `flush`: everything written so far reaches the transport. */
    method Flush()
      requires Valid()
      modifies this
      ensures Valid() && written == old(written)
      ensures flushed == |written|
    {
      flushed := |written|;
    }
  }
}
