/** `TowerService` of src/service.rs: a tower `Service` over byte vectors
    that echoes every request unchanged. It has no fields. */
module TowerServiceHandler {
  import opened Wrappers
  import opened Bytes
  import opened Task

  /** The boxed `dyn Error` of the service; `call` never produces one. */
  datatype BoxedError = BoxedError(message: string)

  datatype TowerService = TowerService {
    /** `poll_ready`: never applies backpressure. */
    function PollReady(): (p: Poll<Result<(), BoxedError>>)
      ensures p.Ready? && p.value.Ok?
    {
      Ready(Ok(()))
    }

    /** `call`: never fails and returns the request itself. */
    function Call(request: seq<byte>): (r: Result<seq<byte>, BoxedError>)
      ensures r.Ok? && r.value == request
    {
      Ok(request)
    }
  }

  /** Two values of the field-less service answer alike. */
  lemma CallStateless(s: TowerService, t: TowerService, request: seq<byte>)
    ensures s == t && s.Call(request) == t.Call(request)
  {
  }
}
