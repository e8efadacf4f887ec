/** Start and Stop around the process-global Xray runtime, which answers by message only. */
module XrayLifecycle {

  /** What comes back for a request; only `Accepted` says anything about the runtime. */
  datatype Response = Accepted | Rejected | Garbled | Panicked

  datatype Config = Empty | TooLong | Malformed | NotAnObject | DecoderPanics | Decoded

  class Runtime {
    /** Whether an instance is really running, which the adapter cannot observe. */
    ghost var live: bool
    /** The truth at each start request. */
    ghost var atRequest: seq<bool>

    constructor ()
      ensures !live && atRequest == []
    {
      live := false;
      atRequest := [];
    }

    method Run() returns (response: Response)
      modifies this
      ensures response == Accepted ==> live
      ensures old(live) ==> live
      ensures atRequest == old(atRequest) + [old(live)]
    {
      response := *;
      ghost var started: bool := *;
      atRequest := atRequest + [live];
      live := live || started || response == Accepted;
    }

    method Stop() returns (response: Response)
      modifies this`live
      ensures response == Accepted ==> !live
      ensures live ==> old(live)
    {
      response := *;
      ghost var stopped: bool := *;
      live := live && !stopped && response != Accepted;
    }
  }

  datatype Call = StartCall(config: Config) | StopCall

  class Lifecycle {
    const runtime: Runtime
    var running: bool
    var stopRequired: bool

    /** An instance that might exist always demands a Stop first. */
    ghost predicate Valid()
      reads this, runtime
    {
      && (runtime.live ==> stopRequired)
      && (running ==> stopRequired)
      && (forall i :: 0 <= i < |runtime.atRequest| ==> !runtime.atRequest[i])
    }

    constructor (runtime: Runtime)
      requires !runtime.live && runtime.atRequest == []
      ensures Valid() && this.runtime == runtime && !running && !stopRequired
    {
      this.runtime := runtime;
      running := false;
      stopRequired := false;
    }

    method Start(config: Config) returns (ok: bool)
      requires Valid()
      modifies this, runtime
      ensures Valid()
      ensures ok ==> running && runtime.live && !old(stopRequired)
      ensures !ok ==> running == old(running)
      ensures old(stopRequired) || config != Decoded ==>
        !ok && stopRequired == old(stopRequired) && runtime.atRequest == old(runtime.atRequest)
    {
      if config == Empty || config == TooLong || running || stopRequired || config != Decoded {
        return false;
      }
      stopRequired := true;
      var response := runtime.Run();
      if response != Accepted {
        return false;
      }
      running := true;
      ok := true;
    }

    method Stop() returns (ok: bool)
      requires Valid()
      modifies this, runtime`live
      ensures Valid()
      ensures ok ==> !running && !stopRequired && !runtime.live
      ensures !ok ==> stopRequired && running == old(running)
    {
      if !running && !stopRequired {
        return true;
      }
      stopRequired := true;
      var response := runtime.Stop();
      if response != Accepted {
        return false;
      }
      running := false;
      stopRequired := false;
      ok := true;
    }

    /** Over any sequence of calls a start request never reaches a runtime that is live. */
    method Serve(calls: seq<Call>)
      requires Valid()
      modifies this, runtime
      ensures Valid()
      ensures forall i :: 0 <= i < |runtime.atRequest| ==> !runtime.atRequest[i]
    {
      for i := 0 to |calls|
        invariant Valid()
      {
        match calls[i]
        case StartCall(config) => var _ := Start(config);
        case StopCall => var _ := Stop();
      }
    }
  }
}
