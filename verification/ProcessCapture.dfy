/** Capturing a command's output while its process group is stopped, killed and reaped safely. */
module ProcessCapture {
  import opened Wrappers
  import opened Bytes
  import opened Extremes
  import opened ProcessGroup

  const MAX_API_BYTES: nat := 67_108_864
  const API_READ_CHUNK_BYTES: nat := 65_536
  // Milliseconds.
  const PROCESS_TIMEOUT: int := 90_000
  const PROCESS_POST_EXIT_DRAIN: int := 1_000

  /** What is kept of a stream: all of it, or a prefix once the limit has been hit. */
  predicate Keeps(stream: bytes, kept: bytes, overflow: bool) {
    kept <= stream && (overflow || kept == stream)
  }

  lemma KeepsMore(stream: bytes, kept: bytes, overflow: bool, chunk: bytes, accepted: bytes)
    requires Keeps(stream, kept, overflow) && accepted <= chunk && (overflow ==> accepted == [])
    ensures Keeps(stream + chunk, kept + accepted, overflow || accepted != chunk)
  {
  }

  /** What a process wrote to one pipe, how much of it has been read, and what is kept. */
  class Pipe {
    const content: bytes
    var taken: nat
    var kept: bytes
    var polled: bool

    ghost predicate Valid(overflow: bool)
      reads this
    {
      taken <= |content| && Keeps(content[..taken], kept, overflow)
    }

    constructor (content: bytes)
      ensures Valid(false) && this.content == content && taken == 0 && kept == [] && polled
    {
      this.content := content;
      taken := 0;
      kept := [];
      polled := true;
    }

    /**
     * Reads some of what is left and keeps as much of it as `remaining` allows; reading
     * nothing at all means end of file.
     */
    method Read(remaining: nat, overflow: bool) returns (size: nat)
      requires Valid(overflow) && (overflow ==> remaining == 0)
      modifies this`taken, this`kept
      ensures size <= API_READ_CHUNK_BYTES && taken == old(taken) + size
      ensures |kept| == old(|kept|) + Min(size, remaining) && old(kept) <= kept
      ensures Valid(overflow || size > remaining)
    {
      var most := Min(|content| - taken, API_READ_CHUNK_BYTES);
      var available: int := *;
      size := if 0 < available <= most then available else Min(most, 1);
      var chunk := content[taken..taken + size];
      var accepted := chunk[..Min(size, remaining)];
      KeepsMore(content[..taken], kept, overflow, chunk, accepted);
      assert content[..taken + size] == content[..taken] + chunk;
      taken := taken + size;
      kept := kept + accepted;
    }

    method Close()
      modifies this`polled
      ensures !polled
    {
      polled := false;
    }
  }

  datatype Captured = Captured(returncode: int, stdout: bytes, stderr: bytes, overflow: bool, timedOut: bool)

  datatype CaptureError = OwnershipLostError | CleanupFailed | Original

  class Capture {
    const leader: Leader
    const out: Pipe
    const err: Pipe
    const commandDeadline: int
    /** No exception path may signal the group once this is set. */
    var hardKillResolved: bool
    var hardKillFailed: bool
    var groupFinalized: bool
    var returncode: Option<int>
    var postExitDeadline: int
    var capturedBytes: nat
    var overflow: bool
    var timedOut: bool
    /** When the leader was observed to have exited by itself. */
    ghost var exitSeenAt: Option<int>

    /** The protocol invariant, kept by every call whether it returns or raises. */
    ghost predicate Sound()
      reads this, leader
    {
      && Orderly(leader.log)
      && (forall e :: e in leader.log && Gone(e) ==> leader.reaped)
      && (!leader.outsider ==> Anchored(leader.log) && (leader.reaped ==> Reap in leader.log))
      && (if hardKillResolved then Killed(leader.log) else Reap !in leader.log)
      && (returncode.Some? ==> leader.reaped && hardKillResolved)
    }

    /** The retained output is what was read, cut at the limit. */
    ghost predicate Retained()
      reads this, out, err
    {
      && out != err && out.Valid(overflow) && err.Valid(overflow)
      && capturedBytes == |out.kept| + |err.kept| <= MAX_API_BYTES
      && (overflow ==> capturedBytes == MAX_API_BYTES < out.taken + err.taken)
    }

    constructor (leader: Leader, out: Pipe, err: Pipe)
      requires leader.log == [] && !leader.reaped
      requires out != err && out.Valid(false) && err.Valid(false) && out.kept == err.kept == []
      ensures Sound() && Retained()
      ensures this.leader == leader && this.out == out && this.err == err
      ensures commandDeadline == leader.now + PROCESS_TIMEOUT
      ensures !hardKillResolved && !groupFinalized && returncode.None? && !overflow && !timedOut
    {
      this.leader := leader;
      this.out := out;
      this.err := err;
      commandDeadline := leader.now + PROCESS_TIMEOUT;
      hardKillResolved, hardKillFailed, groupFinalized := false, false, false;
      returncode := None;
      postExitDeadline := 0;
      capturedBytes := 0;
      overflow, timedOut := false, false;
      exitSeenAt := None;
    }

    /** KILL once, record that before any reap, then wait for the leader. */
    method KillGroupAndReap() returns (r: Result<int, Raised>)
      requires Sound()
      requires !hardKillResolved ==> forall e :: e in leader.log ==> !Gone(e)
      modifies this`hardKillResolved, this`hardKillFailed, leader
      ensures Sound()
      ensures r.Ok? ==> leader.reaped && hardKillResolved
      ensures r != Err(OwnershipLost)
      ensures old(leader.log) <= leader.log
      ensures !old(hardKillResolved) && r.Ok? ==> Kills(leader.log, |old(leader.log)|)
      ensures old(leader.reaped) ==> leader.reaped
      ensures leader.now >= old(leader.now)
    {
      hide Orderly, Killed, Anchored;
      if !hardKillResolved {
        ghost var log := leader.log;
        var killed := leader.KillPg(true);
        OrderlySnoc(log, Signal(true, !leader.reaped));
        KilledSnoc(log, Signal(true, !leader.reaped));
        if !leader.outsider {
          AnchoredSnoc(log, Signal(true, !leader.reaped));
        }
        if killed == Err(Interrupt) {
          return Err(Interrupt);
        }
        hardKillFailed := killed.Err?;
        hardKillResolved := true;
      }
      ghost var log := leader.log;
      var code := leader.Wait();
      OrderlySnoc(log, Reap);
      KilledSnoc(log, Reap);
      if !leader.outsider {
        AnchoredSnoc(log, Reap);
      }
      if code.Err? {
        return Err(if code.error == TimeoutExpired then Retirement else code.error);
      }
      if hardKillFailed {
        var raised := leader.Call();
        var exists_: bool := *;
        if raised || exists_ {
          return Err(if raised then Interrupt else Retirement);
        }
      }
      r := Ok(code.value);
    }

    /** Any number: how often a loop goes round before it ends or is cut off. */
    method Times() returns (n: nat)
    {
      var m: int := *;
      n := if m < 0 then 0 else m;
    }

    ghost predicate Kills(log: seq<Event>, at: nat) {
      at < |log| && log[at].Signal? && log[at].kill
    }

    /** What an orderly stop adds to the record from `at` on: a TERM, and the KILL right after it. */
    ghost predicate TermThenKill(log: seq<Event>, at: nat) {
      at < |log| && log[at].Signal? && !log[at].kill && Kills(log, at + 1)
    }

    /** TERM, a grace period, then the hard kill; nothing is signalled unless the leader was still ours. */
    method StopProcess() returns (r: Result<int, Raised>)
      requires Sound()
      modifies this`hardKillResolved, this`hardKillFailed, leader
      ensures Sound()
      ensures r.Ok? ==> leader.reaped && hardKillResolved
      ensures old(leader.log) <= leader.log
      ensures !old(hardKillResolved) && r.Ok? ==> TermThenKill(leader.log, |old(leader.log)|)
      ensures r == Err(OwnershipLost) ==> Lost in leader.log
      ensures old(leader.reaped) ==> leader.reaped
      ensures leader.now >= old(leader.now)
    {
      if hardKillResolved {
        r := KillGroupAndReap();
        return;
      }
      OrderlySnoc(leader.log, Lost);
      var probe := leader.WaitId();
      if probe.Err? {
        return Err(probe.error);
      }
      OrderlySnoc(leader.log, Signal(false, true));
      OrderlySnoc(leader.log, Signal(false, false));
      var term := leader.KillPg(false);
      if term == Err(Interrupt) {
        return Err(Interrupt);
      }
      ghost var sofar := leader.log;
      var naps := Times();
      for i := 0 to naps
        invariant Sound() && !hardKillResolved && leader.now >= old(leader.now)
        invariant leader.log == sofar && forall e :: e in leader.log ==> !Gone(e)
      {
        var raised := leader.Call();
        if raised {
          return Err(Interrupt);
        }
      }
      r := KillGroupAndReap();
    }

    /** The guarded stop: the group counts as finalized only once the stop has returned. */
    method StopAndFinalize() returns (raised: Option<Raised>)
      requires Sound() && Settled() && returncode.None? && (timedOut || overflow)
      modifies this`hardKillResolved, this`hardKillFailed, this`groupFinalized, this`returncode, leader
      ensures Sound() && Settled()
      ensures raised.None? ==> returncode.Some?
      ensures raised == Some(OwnershipLost) ==> Lost in leader.log
    {
      var stopped := StopProcess();
      if stopped.Err? {
        return Some(stopped.error);
      }
      var interrupted := leader.Call();
      if interrupted {
        return Some(Interrupt);
      }
      returncode := Some(stopped.value);
      groupFinalized := true;
      raised := None;
    }

    /** Reads what one polled pipe holds, keeping no more than the limit over both. */
    method Drain(pipe: Pipe) returns (raised: bool)
      requires Sound() && Retained() && (pipe == out || pipe == err)
      modifies this`capturedBytes, this`overflow, pipe, leader`now, leader`reaped
      ensures Sound() && Retained() && leader.now >= old(leader.now)
      ensures old(overflow) ==> overflow
      ensures old(leader.reaped) ==> leader.reaped
    {
      hide Orderly, Killed, Anchored;
      raised := leader.Call();
      var ready: bool := *;
      if raised || !ready || !pipe.polled {
        return;
      }
      var remaining := MAX_API_BYTES - capturedBytes;
      var size := pipe.Read(remaining, overflow);
      if size == 0 {
        pipe.Close();
      }
      capturedBytes := capturedBytes + Min(size, remaining);
      overflow := overflow || size > remaining;
    }

    /** The leader was seen to exit in time: its zombie still anchors the group for one KILL. */
    method ReapExited() returns (raised: Option<Raised>)
      requires Sound() && Settled() && returncode.None? && leader.now < commandDeadline
      requires !hardKillResolved ==> forall e :: e in leader.log ==> !Gone(e)
      modifies this`hardKillResolved, this`hardKillFailed, this`groupFinalized, this`returncode,
               this`postExitDeadline, this`exitSeenAt, leader
      ensures Sound() && Settled()
      ensures raised.None? ==> returncode.Some?
      ensures raised == Some(OwnershipLost) ==> Lost in leader.log
    {
      exitSeenAt := Some(leader.now);
      var seen := leader.now;
      var reaped := KillGroupAndReap();
      if reaped.Err? {
        return Some(reaped.error);
      }
      var interrupted := leader.Call();
      if interrupted {
        return Some(Interrupt);
      }
      returncode := Some(reaped.value);
      groupFinalized := true;
      postExitDeadline := seen + PROCESS_POST_EXIT_DRAIN;
      raised := None;
    }

    /** Finalized means reaped; a result means finalized, and is a timeout, an overflow or a timely exit. */
    ghost predicate Settled()
      reads this, leader
    {
      && (groupFinalized ==> leader.reaped)
      && (returncode.Some? ==> groupFinalized && (timedOut || overflow || SeenInTime()))
    }

    ghost predicate SeenInTime()
      reads this
    {
      exitSeenAt.Some? && exitSeenAt.value < commandDeadline
    }

    /** Deadline first, then the leader: an exit observed after the deadline is a timeout. */
    method ObserveLeader() returns (raised: Option<Raised>)
      requires Sound() && Settled() && returncode.None? && !timedOut
      modifies this`hardKillResolved, this`hardKillFailed, this`groupFinalized, this`returncode,
               this`postExitDeadline, this`exitSeenAt, this`timedOut, leader
      ensures Sound() && Settled()
      ensures raised == Some(OwnershipLost) ==> Lost in leader.log
      ensures raised.None? && timedOut ==> returncode.Some?
    {
      hide Orderly, Killed, Anchored;
      if leader.now >= commandDeadline {
        timedOut := true;
        raised := StopAndFinalize();
        return;
      }
      OrderlySnoc(leader.log, Lost);
      KilledSnoc(leader.log, Lost);
      if !leader.outsider {
        AnchoredSnoc(leader.log, Lost);
      }
      var exited := leader.WaitId();
      if exited.Err? {
        return Some(exited.error);
      }
      if leader.now >= commandDeadline {
        timedOut := true;
        raised := StopAndFinalize();
        return;
      }
      raised := None;
      if exited.value {
        raised := ReapExited();
      }
    }

    /** One turn of the capture loop. */
    method Poll() returns (raised: Option<Raised>, done: bool)
      requires Sound() && Retained() && Settled() && (timedOut ==> returncode.Some?)
      modifies this, out, err, leader
      ensures Sound() && Retained() && Settled() && (raised.None? && timedOut ==> returncode.Some?)
      ensures raised == Some(OwnershipLost) ==> Lost in leader.log
      ensures raised.None? && done ==> returncode.Some?
    {
      hide Orderly, Killed, Anchored;
      raised, done := None, false;
      if returncode.None? {
        raised := ObserveLeader();
        if raised.Some? || timedOut {
          return raised, true;
        }
      }
      if returncode.Some? && !out.polled && !err.polled {
        return None, true;
      }
      var cut := Drain(out);
      if !cut {
        cut := Drain(err);
      }
      if cut {
        return Some(Interrupt), false;
      }
      if overflow && returncode.None? {
        raised := StopAndFinalize();
        return raised, true;
      }
      if returncode.Some? && leader.now >= postExitDeadline {
        out.Close();
        err.Close();
      }
    }

    /** The guarded part: missing pipes stop the process at once, otherwise the loop runs. */
    method Attempt(piped: bool) returns (raised: Option<Raised>)
      requires Sound() && Retained() && Settled() && returncode.None? && !groupFinalized && !timedOut
      modifies this, out, err, leader
      ensures Sound() && Retained() && Settled()
      ensures raised == Some(OwnershipLost) ==> Lost in leader.log
      ensures raised.None? ==> returncode.Some?
    {
      if !piped {
        var stopped := StopProcess();
        if stopped.Err? {
          return Some(stopped.error);
        }
        groupFinalized := true;
        return Some(Retirement);
      }
      var rounds := Times();
      for i := 0 to rounds
        invariant Sound() && Retained() && Settled() && (timedOut ==> returncode.Some?)
      {
        var done;
        raised, done := Poll();
        if raised.Some? || done {
          return;
        }
      }
      raised := Some(Interrupt);
    }

    /**
     * The whole capture. However it ends, every signal came before the reap and before any
     * observed loss of ownership; a result means that the leader was killed and reaped.
     */
    method CaptureProcess(piped: bool) returns (r: Result<Captured, CaptureError>)
      requires leader.log == [] && !leader.reaped && Sound() && Retained() && Settled()
      requires returncode.None? && !groupFinalized && !timedOut
      modifies this, out, err, leader
      ensures Orderly(leader.log)
      ensures !leader.outsider ==> Anchored(leader.log)
      ensures !hardKillResolved && !leader.outsider ==> !leader.reaped
      ensures r.Ok? || r == Err(Original) ==> leader.reaped
      ensures (r.Ok? || r == Err(Original)) && !leader.outsider ==> Reap in leader.log && Killed(leader.log)
      ensures r == Err(OwnershipLostError) ==> Lost in leader.log
      ensures r.Ok? ==>
        && Retained() && r.value.stdout == out.kept && r.value.stderr == err.kept && r.value.overflow == overflow
        && (r.value.timedOut || r.value.overflow || SeenInTime())
    {
      var raised := Attempt(piped);
      if raised.None? {
        return Ok(Captured(returncode.value, out.kept, err.kept, overflow, timedOut));
      }
      if raised == Some(OwnershipLost) {
        groupFinalized := true;
        return Err(OwnershipLostError);
      }
      if !groupFinalized {
        var stopped := StopProcess();
        if stopped == Err(OwnershipLost) {
          return Err(OwnershipLostError);
        }
        if stopped.Err? {
          return Err(CleanupFailed);
        }
      }
      r := Err(Original);
    }
  }
}
