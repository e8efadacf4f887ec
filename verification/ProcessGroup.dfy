/** The session leader of a captured command, and what the kernel lets its parent do to it. */
module ProcessGroup {
  import opened Wrappers

  /** `anchored` tells whether the unreaped leader still held the numeric group identity. */
  datatype Event = Signal(kill: bool, anchored: bool) | Reap | Lost

  /** What a call may raise; `Retirement` is the program's own error. */
  datatype Raised = OwnershipLost | TimeoutExpired | OsError | Interrupt | Retirement

  predicate Killed(log: seq<Event>) {
    exists i :: 0 <= i < |log| && log[i].Signal? && log[i].kill
  }

  /** The parent has reaped the leader, or has been told that somebody else did. */
  predicate Gone(e: Event) {
    e.Reap? || e.Lost?
  }

  /** No signal after the leader is known to be gone, and no reap before a KILL. */
  predicate Orderly(log: seq<Event>) {
    && (forall i, j :: 0 <= i < j < |log| && Gone(log[i]) ==> !log[j].Signal?)
    && (forall i :: 0 <= i < |log| && log[i].Reap? ==> Killed(log[..i]))
  }

  /** Every signal reached the group that was started. */
  predicate Anchored(log: seq<Event>) {
    forall i :: 0 <= i < |log| && log[i].Signal? ==> log[i].anchored
  }

  lemma OrderlySnoc(log: seq<Event>, e: Event)
    requires Orderly(log)
    requires e.Signal? ==> forall i :: 0 <= i < |log| ==> !Gone(log[i])
    requires e.Reap? ==> Killed(log)
    ensures Orderly(log + [e])
  {
    var next := log + [e];
    forall i | 0 <= i < |next| && next[i].Reap? ensures Killed(next[..i]) {
      if i < |log| {
        assert next[..i] == log[..i];
      } else {
        assert next[..i] == log;
      }
    }
  }

  lemma KilledSnoc(log: seq<Event>, e: Event)
    ensures Killed(log) ==> Killed(log + [e])
    ensures e.Signal? && e.kill ==> Killed(log + [e])
  {
    var next := log + [e];
    assert forall i :: 0 <= i < |log| ==> next[i] == log[i];
    assert next[|log|] == e;
    if Killed(log) {
      var i :| 0 <= i < |log| && log[i].Signal? && log[i].kill;
      assert next[i].Signal? && next[i].kill;
    }
  }

  lemma AnchoredSnoc(log: seq<Event>, e: Event)
    requires Anchored(log) && (e.Signal? ==> e.anchored)
    ensures Anchored(log + [e])
  {
  }

  class Leader {
    /** Whether some other thread or handler may reap the leader. */
    const outsider: bool
    var reaped: bool
    var now: int
    ghost var log: seq<Event>

    constructor (outsider: bool, now: int)
      ensures this.outsider == outsider && !reaped && log == [] && this.now == now
    {
      this.outsider := outsider;
      this.now := now;
      reaped := false;
      log := [];
    }

    /** Time passes, and an outsider may get to the leader first. */
    method Environment()
      modifies this`reaped, this`now
      ensures old(reaped) ==> reaped
      ensures !outsider ==> reaped == old(reaped)
      ensures now >= old(now)
    {
      var taken: bool := *;
      if outsider && taken {
        reaped := true;
      }
      var elapsed: int := *;
      if elapsed > 0 {
        now := now + elapsed;
      }
    }

    /** Any call without an effect on the group may still raise. */
    method Call() returns (raised: bool)
      modifies this`reaped, this`now
      ensures old(reaped) ==> reaped
      ensures !outsider ==> reaped == old(reaped)
      ensures now >= old(now)
    {
      Environment();
      raised := *;
    }

    /** The attempt is on record even when the call raises or finds no group. */
    method KillPg(kill: bool) returns (r: Result<bool, Raised>)
      modifies this
      ensures old(reaped) ==> reaped
      ensures !outsider ==> reaped == old(reaped)
      ensures now >= old(now)
      ensures log == old(log) + [Signal(kill, !reaped)]
      ensures r.Err? ==> r.error == OsError || r.error == Interrupt
    {
      Environment();
      log := log + [Signal(kill, !reaped)];
      var found: bool := *;
      var failed: bool := *;
      var interrupted: bool := *;
      r := if interrupted then Err(Interrupt) else if failed then Err(OsError) else Ok(found);
    }

    /** waitid with WNOWAIT: observes the leader without reaping it. */
    method WaitId() returns (r: Result<bool, Raised>)
      modifies this
      ensures old(reaped) ==> reaped
      ensures !outsider ==> reaped == old(reaped)
      ensures now >= old(now)
      ensures r.Ok? ==> !reaped && log == old(log)
      ensures r == Err(OwnershipLost) ==> reaped && log == old(log) + [Lost]
      ensures log == old(log) || (reaped && log == old(log) + [Lost])
    {
      Environment();
      var interrupted: bool := *;
      var before: bool := *;
      if interrupted && before {
        return Err(Interrupt);
      }
      if reaped {
        log := log + [Lost];
        return Err(if interrupted then Interrupt else OwnershipLost);
      }
      var exited: bool := *;
      r := if interrupted then Err(Interrupt) else Ok(exited);
    }

    /** Reaps the leader, or times out; it may raise on either side of the reap. */
    method Wait() returns (r: Result<int, Raised>)
      modifies this
      ensures old(reaped) ==> reaped
      ensures now >= old(now)
      ensures r.Ok? ==> reaped
      ensures r.Err? ==> r.error == TimeoutExpired || r.error == Interrupt
      ensures log == old(log) || log == old(log) + [Reap]
      ensures log == old(log) + [Reap] ==> reaped
      ensures !outsider && reaped && !old(reaped) ==> log == old(log) + [Reap]
    {
      Environment();
      var interrupted: bool := *;
      var code: int := *;
      if !reaped {
        var ended: bool := *;
        if !ended {
          return Err(if interrupted then Interrupt else TimeoutExpired);
        }
        reaped := true;
        log := log + [Reap];
      }
      r := if interrupted then Err(Interrupt) else Ok(code);
    }
  }
}
