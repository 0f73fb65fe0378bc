/** `MyCodec` of src/p2p.rs: one request or one response per substream, framed
    as a 4-byte big-endian unsigned length followed by that many payload bytes,
    with payloads capped at MAX_SIZE bytes. */
module P2p {
  import opened Wrappers
  import opened Bytes
  import opened Io

  /** Maximum allowed message size: 1 MiB. */
  const MAX_SIZE: nat := 1_024 * 1_024

  /** The protocol identifier `MyProtocol`. */
  datatype MyProtocol = MyProtocol {
    /** `as_ref`: the name the transport negotiates, an ASCII, slash-delimited,
        versioned identifier. */
    function AsRef(): (name: string)
      ensures IsAscii(name) && |name| == 25
      ensures name[..1] == "/" && name[|name| - 6..] == "/1.0.0"
    {
      "/my-custom-protocol/1.0.0"
    }
  }

  datatype MyRequest = MyRequest(data: seq<byte>)

  datatype MyResponse = MyResponse(data: seq<byte>)

  function TooLargeError(kind: ErrorKind, size: nat): IoError {
    IoError(kind, Some(TooLarge(size)))
  }

  /** What decoding one frame from the front of `input` yields, and how many
      bytes of `input` it consumes. */
  datatype Decoded = Decoded(payload: Result<seq<byte>, IoError>, consumed: nat)

  /** The bytes `write_request`/`write_response` put on the stream for `data`,
      or the error they return. The length is truncated to 32 bits before the
      size check, as `data.len() as u32` does. */
  function EncodeFrame(data: seq<byte>): (r: Result<seq<byte>, IoError>)
    ensures r.Ok? ==> |r.value| == 4 + |data|
    ensures r.Ok? ==> r.value[..4] == ToBeBytes(TruncateU32(|data|)) && r.value[4..] == data
    ensures r.Err? ==> |data| > MAX_SIZE
    ensures r.Err? ==> r.error == IoError(InvalidInput, Some(TooLarge(TruncateU32(|data|))))
  {
    var len := TruncateU32(|data|);
    if len > MAX_SIZE then Err(TooLargeError(InvalidInput, len))
    else Ok(ToBeBytes(len) + data)
  }

  /** What `read_request`/`read_response` return for a stream whose unread
      bytes are `input`. */
  function DecodeFrame(input: seq<byte>): (d: Decoded)
    ensures d.consumed <= |input|
  {
    if |input| < 4 then Decoded(Err(EOF_ERROR), |input|)
    else
      var len := FromBeBytes(input[..4]);
      if len > MAX_SIZE then Decoded(Err(TooLargeError(InvalidData, len)), 4)
      else if |input| - 4 < len then Decoded(Err(EOF_ERROR), |input|)
      else Decoded(Ok(input[4..4 + len]), 4 + len)
  }

  /** A payload the platform can describe with a `u32` length is encoded
      exactly when it fits the cap: as its big-endian length, then itself. */
  lemma {:induction false} EncodeFrameLayout(data: seq<byte>)
    requires |data| < U32_LIMIT
    ensures EncodeFrame(data).Ok? <==> |data| <= MAX_SIZE
    ensures |data| <= MAX_SIZE ==>
      var frame := EncodeFrame(data).value;
      |frame| == 4 + |data| && frame[..4] == ToBeBytes(|data|) && frame[4..] == data
    ensures |data| > MAX_SIZE ==>
      EncodeFrame(data) == Err(IoError(InvalidInput, Some(TooLarge(|data|))))
  {
    if |data| <= MAX_SIZE {
      var frame := ToBeBytes(|data|) + data;
      assert frame[..4] == ToBeBytes(|data|) && frame[4..] == data;
    }
  }

  /** An oversized length prefix is rejected as invalid data after reading
      the prefix and nothing more. */
  lemma {:induction false} DecodeRejectsOversize(input: seq<byte>)
    requires |input| >= 4 && FromBeBytes(input[..4]) > MAX_SIZE
    ensures DecodeFrame(input) ==
      Decoded(Err(IoError(InvalidData, Some(TooLarge(FromBeBytes(input[..4]))))), 4)
  {
  }

  /** A stream that ends inside the prefix, or inside the payload it
      announces, fails with `UnexpectedEof` and is drained. */
  lemma {:induction false} DecodeTruncated(input: seq<byte>)
    requires |input| < 4 || (FromBeBytes(input[..4]) <= MAX_SIZE && |input| < 4 + FromBeBytes(input[..4]))
    ensures DecodeFrame(input) == Decoded(Err(EOF_ERROR), |input|)
  {
  }

  /** A successful decode returns exactly the announced number of bytes, at
      most MAX_SIZE, and consumes the prefix and the payload only. */
  lemma {:induction false} DecodeSuccess(input: seq<byte>)
    requires DecodeFrame(input).payload.Ok?
    ensures var d := DecodeFrame(input);
      && |input| >= 4
      && |d.payload.value| == FromBeBytes(input[..4]) <= MAX_SIZE
      && d.consumed == 4 + |d.payload.value|
      && d.payload.value == input[4..d.consumed]
  {
  }

  /** Round trip: whatever follows a frame on the stream, decoding the bytes
      written for a payload within the cap yields that payload and leaves
      the following bytes unread. */
  lemma {:induction false} FrameRoundTrip(p: seq<byte>, trailing: seq<byte>)
    requires |p| <= MAX_SIZE
    ensures EncodeFrame(p).Ok?
    ensures DecodeFrame(EncodeFrame(p).value + trailing) == Decoded(Ok(p), 4 + |p|)
  {
    EncodeFrameLayout(p);
    var input := EncodeFrame(p).value + trailing;
    assert input[..4] == ToBeBytes(|p|);
    FromBeBytesToBeBytes(|p|);
    assert input[4..4 + |p|] == p;
  }

  /** Conversely, every successfully decoded frame is exactly the encoding
      of its payload: the prefix carries no information beyond the length. */
  lemma {:induction false} DecodeThenEncode(input: seq<byte>)
    requires DecodeFrame(input).payload.Ok?
    ensures var d := DecodeFrame(input);
      EncodeFrame(d.payload.value) == Ok(input[..d.consumed])
  {
    var d := DecodeFrame(input);
    var p := d.payload.value;
    DecodeSuccess(input);
    ToBeBytesFromBeBytes(input[..4]);
    EncodeFrameLayout(p);
    assert input[..d.consumed] == input[..4] + input[4..d.consumed];
  }

  /** Reads one frame; this is the shared body of `read_request` and
      `read_response`. */
  method ReadFrame(io: Reader) returns (r: Result<seq<byte>, IoError>)
    requires io.Valid()
    modifies io
    ensures io.Valid() && io.data == old(io.data)
    ensures r == DecodeFrame(old(io.Remaining())).payload
    ensures io.pos == old(io.pos) + DecodeFrame(old(io.Remaining())).consumed
  {
    ghost var input := io.Remaining();
    var lenBytes := io.ReadExact(4);
    if lenBytes.Err? {
      return Err(lenBytes.error);
    }
    assert lenBytes.value == input[..4];
    var len := FromBeBytes(lenBytes.value);
    if len > MAX_SIZE {
      return Err(TooLargeError(InvalidData, len));
    }
    assert io.Remaining() == input[4..];
    var buffer := io.ReadExact(len);
    if buffer.Err? {
      return Err(buffer.error);
    }
    assert buffer.value == input[4..][..len] == input[4..4 + len];
    r := Ok(buffer.value);
  }

  /** Writes one frame; this is the shared body of `write_request` and
      `write_response`. An oversized payload is refused before any byte is
      written. */
  method WriteFrame(io: Writer, data: seq<byte>) returns (r: Result<(), IoError>)
    requires io.Valid()
    modifies io
    ensures io.Valid()
    ensures r.Ok? <==> EncodeFrame(data).Ok?
    ensures r.Err? ==> (r.error == EncodeFrame(data).error
      && io.written == old(io.written) && io.flushed == old(io.flushed))
    ensures r.Ok? ==> (io.written == old(io.written) + EncodeFrame(data).value
      && io.flushed == |io.written|)
  {
    var len := TruncateU32(|data|);
    if len > MAX_SIZE {
      return Err(TooLargeError(InvalidInput, len));
    }
    io.WriteAll(ToBeBytes(len));
    io.WriteAll(data);
    io.Flush();
    r := Ok(());
  }

  /** `MyCodec::read_request`. */
  method ReadRequest(protocol: MyProtocol, io: Reader) returns (r: Result<MyRequest, IoError>)
    requires io.Valid()
    modifies io
    ensures io.Valid() && io.data == old(io.data)
    ensures var d := DecodeFrame(old(io.Remaining()));
      && io.pos == old(io.pos) + d.consumed
      && r == (if d.payload.Ok? then Ok(MyRequest(d.payload.value)) else Err(d.payload.error))
  {
    var frame := ReadFrame(io);
    if frame.Err? {
      return Err(frame.error);
    }
    r := Ok(MyRequest(frame.value));
  }

  /** `MyCodec::read_response`: the same frame as a request, as a `MyResponse`. */
  method ReadResponse(protocol: MyProtocol, io: Reader) returns (r: Result<MyResponse, IoError>)
    requires io.Valid()
    modifies io
    ensures io.Valid() && io.data == old(io.data)
    ensures var d := DecodeFrame(old(io.Remaining()));
      && io.pos == old(io.pos) + d.consumed
      && r == (if d.payload.Ok? then Ok(MyResponse(d.payload.value)) else Err(d.payload.error))
  {
    var frame := ReadFrame(io);
    if frame.Err? {
      return Err(frame.error);
    }
    r := Ok(MyResponse(frame.value));
  }

  /** `MyCodec::write_request`. */
  method WriteRequest(protocol: MyProtocol, io: Writer, request: MyRequest) returns (r: Result<(), IoError>)
    requires io.Valid()
    modifies io
    ensures io.Valid()
    ensures r.Ok? <==> EncodeFrame(request.data).Ok?
    ensures r.Err? ==> (r.error == EncodeFrame(request.data).error
      && io.written == old(io.written) && io.flushed == old(io.flushed))
    ensures r.Ok? ==> (io.written == old(io.written) + EncodeFrame(request.data).value
      && io.flushed == |io.written|)
  {
    r := WriteFrame(io, request.data);
  }

  /** `MyCodec::write_response`: the same framing as a request. */
  method WriteResponse(protocol: MyProtocol, io: Writer, response: MyResponse) returns (r: Result<(), IoError>)
    requires io.Valid()
    modifies io
    ensures io.Valid()
    ensures r.Ok? <==> EncodeFrame(response.data).Ok?
    ensures r.Err? ==> (r.error == EncodeFrame(response.data).error
      && io.written == old(io.written) && io.flushed == old(io.flushed))
    ensures r.Ok? ==> (io.written == old(io.written) + EncodeFrame(response.data).value
      && io.flushed == |io.written|)
  {
    r := WriteFrame(io, response.data);
  }

  /** One exchange on a fresh substream: a request within the cap, written by
      one peer and followed by anything else on the stream, is read back
      intact, with only its own frame consumed. */
  method RequestExchange(protocol: MyProtocol, request: MyRequest, trailing: seq<byte>)
    returns (sent: Result<(), IoError>, received: Result<MyRequest, IoError>, consumed: nat)
    requires |request.data| <= MAX_SIZE
    ensures sent == Ok(()) && received == Ok(request)
    ensures consumed == 4 + |request.data|
  {
    FrameRoundTrip(request.data, trailing);
    var out := new Writer();
    sent := WriteRequest(protocol, out, request);
    assert out.written == EncodeFrame(request.data).value;
    assert sent.Ok? && sent.value == ();
    var inp := new Reader(out.written + trailing);
    received := ReadRequest(protocol, inp);
    consumed := inp.pos;
  }

  /** The same for a response travelling back on the substream. */
  method ResponseExchange(protocol: MyProtocol, response: MyResponse, trailing: seq<byte>)
    returns (sent: Result<(), IoError>, received: Result<MyResponse, IoError>, consumed: nat)
    requires |response.data| <= MAX_SIZE
    ensures sent == Ok(()) && received == Ok(response)
    ensures consumed == 4 + |response.data|
  {
    FrameRoundTrip(response.data, trailing);
    var out := new Writer();
    sent := WriteResponse(protocol, out, response);
    assert out.written == EncodeFrame(response.data).value;
    assert sent.Ok? && sent.value == ();
    var inp := new Reader(out.written + trailing);
    received := ReadResponse(protocol, inp);
    consumed := inp.pos;
  }

  /** An oversized request is refused with `TooLarge(len)` of kind
      `InvalidInput`, and the substream stays empty. */
  method OversizeRequestWritesNothing(protocol: MyProtocol, request: MyRequest)
    returns (sent: Result<(), IoError>, written: seq<byte>)
    requires MAX_SIZE < |request.data| < U32_LIMIT
    ensures sent == Err(IoError(InvalidInput, Some(TooLarge(|request.data|))))
    ensures written == []
  {
    var out := new Writer();
    EncodeFrameLayout(request.data);
    sent := WriteRequest(protocol, out, request);
    written := out.written;
  }

  /** The check in `write_request` is made on the truncated length, so a
      payload of 2^32 + 1 bytes passes as a 1-byte frame: the bytes written
      decode to a single byte and the rest of the payload is left on the
      stream as if it were further data. */
  lemma WrappedLengthPassesCheck()
    ensures var data := seq(U32_LIMIT + 1, i => 0);
      && |data| > MAX_SIZE
      && EncodeFrame(data).Ok?
      && DecodeFrame(EncodeFrame(data).value) == Decoded(Ok([0]), 5)
  {
    var data: seq<byte> := seq(U32_LIMIT + 1, i => 0);
    var frame := EncodeFrame(data).value;
    assert frame[..4] == ToBeBytes(1) == [0, 0, 0, 1];
    assert frame[4..5] == [0];
  }

  /** The encoding the size check evidently intends: the untruncated length
      is compared with the cap, so no payload larger than MAX_SIZE is ever
      written, and every accepted payload round-trips. */
  function CheckedEncodeFrame(data: seq<byte>): (r: Result<seq<byte>, IoError>)
    ensures r.Ok? <==> |data| <= MAX_SIZE
    ensures r.Err? ==> r.error == IoError(InvalidInput, Some(TooLarge(|data|)))
    ensures r.Ok? ==> DecodeFrame(r.value).payload == Ok(data)
  {
    if |data| > MAX_SIZE then Err(TooLargeError(InvalidInput, |data|))
    else
      FrameRoundTrip(data, []);
      assert EncodeFrame(data).value + [] == EncodeFrame(data).value;
      Ok(ToBeBytes(|data|) + data)
  }

  /** On every payload whose length fits in 32 bits, the intended encoding
      and the one written agree. */
  lemma {:induction false} CheckedEncodeAgrees(data: seq<byte>)
    requires |data| < U32_LIMIT
    ensures CheckedEncodeFrame(data) == EncodeFrame(data)
  {
    EncodeFrameLayout(data);
  }
}
