/** `TimeCodec` of src/custom_protocol.rs: an unframed codec. A message is
    every byte of the substream; the writer marks its end only by finishing
    the stream, so no length is written and no size is checked. */
module CustomProtocol {
  import opened Wrappers
  import opened Bytes
  import opened Io

  /** The protocol identifier `TimeProtocol`. */
  datatype TimeProtocol = TimeProtocol {
    /** `protocol_name`: the ASCII bytes of a slash-delimited, versioned name. */
    function ProtocolName(): (name: seq<byte>)
      ensures |name| == 18 && name == AsciiBytes("/time/reqrep/1.0.0")
      ensures forall i :: 0 <= i < |name| ==> name[i] < 128
    {
      AsciiBytes("/time/reqrep/1.0.0")
    }
  }

  /** `TimeCodec::read_request`: everything up to end of stream. */
  method ReadRequest(protocol: TimeProtocol, io: Reader) returns (r: Result<seq<byte>, IoError>)
    requires io.Valid()
    modifies io
    ensures io.Valid() && io.data == old(io.data)
    ensures r == Ok(old(io.Remaining())) && io.pos == |io.data|
  {
    var buffer := io.ReadToEnd();
    r := Ok(buffer);
  }

  /** `TimeCodec::read_response`: the same as a request. */
  method ReadResponse(protocol: TimeProtocol, io: Reader) returns (r: Result<seq<byte>, IoError>)
    requires io.Valid()
    modifies io
    ensures io.Valid() && io.data == old(io.data)
    ensures r == Ok(old(io.Remaining())) && io.pos == |io.data|
  {
    var buffer := io.ReadToEnd();
    r := Ok(buffer);
  }

  /** `TimeCodec::write_request`: the raw bytes, then a flush. */
  method WriteRequest(protocol: TimeProtocol, io: Writer, request: seq<byte>) returns (r: Result<(), IoError>)
    requires io.Valid()
    modifies io
    ensures io.Valid() && r == Ok(())
    ensures io.written == old(io.written) + request && io.flushed == |io.written|
  {
    io.WriteAll(request);
    io.Flush();
    r := Ok(());
  }

  /** `TimeCodec::write_response`: the same as a request. */
  method WriteResponse(protocol: TimeProtocol, io: Writer, response: seq<byte>) returns (r: Result<(), IoError>)
    requires io.Valid()
    modifies io
    ensures io.Valid() && r == Ok(())
    ensures io.written == old(io.written) + response && io.flushed == |io.written|
  {
    io.WriteAll(response);
    io.Flush();
    r := Ok(());
  }

  /** Round trip, the empty request included: when the writer's bytes are all
      the substream carries, the reader gets the request back. */
  method RequestExchange(protocol: TimeProtocol, request: seq<byte>) returns (received: Result<seq<byte>, IoError>)
    ensures received == Ok(request)
  {
    var out := new Writer();
    var sent := WriteRequest(protocol, out, request);
    var inp := new Reader(out.written);
    received := ReadRequest(protocol, inp);
  }

  /** The same for a response. */
  method ResponseExchange(protocol: TimeProtocol, response: seq<byte>) returns (received: Result<seq<byte>, IoError>)
    ensures received == Ok(response)
  {
    var out := new Writer();
    var sent := WriteResponse(protocol, out, response);
    var inp := new Reader(out.written);
    received := ReadResponse(protocol, inp);
  }

  /** End of stream is the only terminator: two requests written to one
      substream are read back as a single request holding both. */
  method TwoWritesReadAsOne(protocol: TimeProtocol, first: seq<byte>, second: seq<byte>)
    returns (received: Result<seq<byte>, IoError>)
    ensures received == Ok(first + second)
  {
    var out := new Writer();
    var sent := WriteRequest(protocol, out, first);
    sent := WriteRequest(protocol, out, second);
    assert out.written == first + second;
    var inp := new Reader(out.written);
    received := ReadRequest(protocol, inp);
  }
}
