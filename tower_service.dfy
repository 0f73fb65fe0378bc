/** `TimeService` of src/tower_service.rs: a tower `Service` over byte
    vectors that answers every request with the request prefixed by
    "Echo: ". It has no fields. */
module TimeServiceHandler {
  import opened Wrappers
  import opened Bytes
  import opened Io
  import opened Task

  /** The bytes of `b"Echo: "`. */
  const ECHO_PREFIX: seq<byte> := AsciiBytes("Echo: ")

  datatype TimeService = TimeService {
    /** `poll_ready`: never applies backpressure. */
    function PollReady(): (p: Poll<Result<(), IoError>>)
      ensures p.Ready? && p.value.Ok?
    {
      Ready(Ok(()))
    }

    /** `call`: never fails; the response is six bytes longer than the request
        and ends with it. */
    function Call(request: seq<byte>): (r: Result<seq<byte>, IoError>)
      ensures r.Ok?
      ensures |r.value| == |request| + 6
      ensures r.value[..6] == [69, 99, 104, 111, 58, 32]
      ensures r.value[6..] == request
    {
      Ok(ECHO_PREFIX + request)
    }
  }

  /** Two values of the field-less service answer alike. */
  lemma CallStateless(s: TimeService, t: TimeService, request: seq<byte>)
    ensures s == t && s.Call(request) == t.Call(request)
  {
  }
}
