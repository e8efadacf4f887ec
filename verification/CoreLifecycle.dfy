/** Start and Stop around one untrusted native core, whose every call may fail or panic. */
module CoreLifecycle {
  import opened Wrappers
  import opened ClosedErrors

  /** What a call into the core may do. */
  datatype Outcome = Returned(error: Option<Error>) | Panicked

  /** What the factory may do: it hands over a core, an error, both, or neither, or panics empty-handed. */
  datatype Construction = Built(candidate: Option<nat>, error: Option<Error>) | Exploded

  /** How far a configuration gets before the factory would be called. */
  datatype Config = Empty | TooLong | Malformed | DecoderPanics | Decoded

  /** The native side: `unclosed` are the cores constructed and never confirmed closed. */
  class Native {
    var nextCore: nat
    ghost var unclosed: set<nat>
    /** The unclosed cores at each call of the factory. */
    ghost var atConstruction: seq<set<nat>>

    ghost predicate Valid()
      reads this
    {
      forall id :: id in unclosed ==> id < nextCore
    }

    constructor ()
      ensures Valid() && unclosed == {} && atConstruction == []
    {
      nextCore := 0;
      unclosed := {};
      atConstruction := [];
    }

    method Construct() returns (made: Construction)
      requires Valid()
      modifies this
      ensures Valid()
      ensures atConstruction == old(atConstruction) + [old(unclosed)]
      ensures if made.Built? && made.candidate.Some?
              then made.candidate.value !in old(unclosed) && unclosed == old(unclosed) + {made.candidate.value}
              else unclosed == old(unclosed)
    {
      atConstruction := atConstruction + [unclosed];
      var explodes: bool := *;
      var hands: bool := *;
      var error: Option<Error> := *;
      if explodes {
        return Exploded;
      }
      if !hands {
        return Built(None, error);
      }
      unclosed := unclosed + {nextCore};
      made := Built(Some(nextCore), error);
      nextCore := nextCore + 1;
    }

    method StartCore(core: nat) returns (outcome: Outcome)
    {
      outcome := *;
    }

    method Cancel() returns (panicked: bool)
    {
      panicked := *;
    }

    /** Only an answer that says nothing but "closed" confirms the close. */
    method CloseCore(core: nat) returns (outcome: Outcome)
      requires Valid()
      modifies this`unclosed
      ensures Valid()
      ensures
        var confirmed := outcome.Returned? && IsOnlyClosed(outcome.error);
        unclosed == if confirmed then old(unclosed) - {core} else old(unclosed)
    {
      outcome := *;
      if outcome.Returned? && IsOnlyClosed(outcome.error) {
        unclosed := unclosed - {core};
      }
    }
  }

  datatype Call = StartCall(config: Config) | StopCall

  class Lifecycle {
    const native: Native
    var instance: Option<nat>
    var cancel: bool
    var stopRequired: bool

    /** At most one core is unaccounted for, and it is the one held here. */
    ghost predicate Valid()
      reads this, native
    {
      && native.Valid()
      && native.unclosed == (if instance.Some? then {instance.value} else {})
      && (stopRequired ==> instance.Some?) && (cancel <==> instance.Some?)
      && (forall i :: 0 <= i < |native.atConstruction| ==> native.atConstruction[i] == {})
    }

    constructor (native: Native)
      requires native.Valid() && native.unclosed == {} && native.atConstruction == []
      ensures Valid() && this.native == native && instance.None?
    {
      this.native := native;
      instance := None;
      cancel := false;
      stopRequired := false;
    }

    /** A close that panics is an error of its own, never a confirmation. */
    method CloseQuietly(core: nat) returns (error: Option<Error>)
      requires native.Valid()
      modifies native`unclosed
      ensures native.Valid()
      ensures native.unclosed == if IsOnlyClosed(error) then old(native.unclosed) - {core} else old(native.unclosed)
    {
      var outcome := native.CloseCore(core);
      error := if outcome.Panicked? then Some(Other("core close panic")) else outcome.error;
    }

    /** Closes a core that cannot be used, or keeps it for a later Stop. */
    method DiscardOrHold(candidate: nat)
      requires native.Valid() && instance.None? && !cancel && !stopRequired && native.unclosed == {candidate}
      requires forall i :: 0 <= i < |native.atConstruction| ==> native.atConstruction[i] == {}
      modifies this, native`unclosed
      ensures Valid() && (instance.Some? ==> stopRequired && instance == Some(candidate))
    {
      var closeError := CloseQuietly(candidate);
      if !IsOnlyClosed(closeError) {
        instance, cancel, stopRequired := Some(candidate), true, true;
      }
    }

    /** Whatever the factory or the core does, the lifecycle ends up holding every core it may still own. */
    method Start(config: Config) returns (ok: bool)
      requires Valid()
      modifies this, native
      ensures Valid()
      ensures ok ==> old(instance).None? && instance.Some? && !stopRequired
      ensures !ok && old(instance).None? ==> (instance.Some? ==> stopRequired)
      ensures old(instance).Some? ==>
        && !ok && instance == old(instance) && stopRequired == old(stopRequired)
        && native.atConstruction == old(native.atConstruction)
      ensures config != Decoded ==> !ok && instance == old(instance) && native.unclosed == old(native.unclosed)
    {
      if config == Empty || config == TooLong {
        return false;
      }
      if instance.Some? || stopRequired {
        return false;
      }
      if config == Malformed || config == DecoderPanics {
        return false;
      }
      var made := native.Construct();
      if made.Exploded? {
        return false;
      }
      if made.error.Some? {
        if made.candidate.Some? {
          DiscardOrHold(made.candidate.value);
        }
        return false;
      }
      if made.candidate.None? {
        // Starting a nil core panics; the recovery has nothing to close.
        return false;
      }
      var started := native.StartCore(made.candidate.value);
      if started != Returned(None) {
        DiscardOrHold(made.candidate.value);
        return false;
      }
      instance, cancel, stopRequired := made.candidate, true, false;
      ok := true;
    }

    /** Success means that no core remains; failure keeps the core and demands another Stop. */
    method Stop() returns (ok: bool)
      requires Valid()
      modifies this, native`unclosed
      ensures Valid()
      ensures ok ==> instance.None? && !stopRequired && native.unclosed == {}
      ensures !ok ==>
        instance == old(instance) && instance.Some? && stopRequired && native.unclosed == old(native.unclosed)
    {
      if instance.None? {
        stopRequired := false;
        return true;
      }
      var core := instance.value;
      stopRequired := true;
      if cancel {
        var panicked := native.Cancel();
        if panicked {
          return false;
        }
      }
      var closeError := CloseQuietly(core);
      if closeError.Some? && !IsOnlyClosed(closeError) {
        return false;
      }
      instance, cancel, stopRequired := None, false, false;
      ok := true;
    }

    method IsRunning() returns (running: bool)
      requires Valid()
      ensures running ==> instance.Some? && native.unclosed == {instance.value}
      ensures running <==> instance.Some? && !stopRequired
    {
      running := instance.Some? && !stopRequired;
    }

    /** Over any sequence of calls: one unclosed core at most, and none whenever the factory was called. */
    method Serve(calls: seq<Call>) returns (last: bool)
      requires Valid()
      modifies this, native
      ensures Valid()
      ensures |native.unclosed| <= 1
      ensures forall i :: 0 <= i < |native.atConstruction| ==> native.atConstruction[i] == {}
      ensures calls != [] && calls[|calls| - 1] == StopCall && last ==> native.unclosed == {} && instance.None?
    {
      last := false;
      for i := 0 to |calls|
        invariant Valid()
        invariant i > 0 && calls[i - 1] == StopCall && last ==> native.unclosed == {} && instance.None?
      {
        match calls[i]
        case StartCall(config) => last := Start(config);
        case StopCall => last := Stop();
      }
    }
  }
}
