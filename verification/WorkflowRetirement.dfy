/** Retiring the legacy publisher workflows: disable, prove, delete, prove again, write the receipt. */
module WorkflowRetirement {
  import opened Wrappers

  const WORKFLOWS := 2

  /** Run ids of one workflow, each with whether the run has completed. */
  type Runs = map<nat, bool>

  /** What one complete read of the host shows, workflow by workflow. */
  datatype Snapshot = Snapshot(branch: string, ids: seq<nat>, disabled: seq<bool>, runs: seq<Runs>)
  {
    predicate Valid() {
      |ids| == |disabled| == |runs| == WORKFLOWS
    }

    function RunIds(): set<nat>
      requires Valid()
    {
      runs[0].Keys + runs[1].Keys
    }

    predicate Completed()
      requires Valid()
    {
      forall i :: 0 <= i < WORKFLOWS ==> forall run :: run in runs[i] ==> runs[i][run]
    }

    predicate Disabled()
      requires Valid()
    {
      forall i :: 0 <= i < WORKFLOWS ==> disabled[i]
    }

    /** The digested part of a snapshot; two digests are equal only for equal parts. */
    function ApplyToken(): Token
      requires Valid()
    {
      Token(branch, ids, seq(WORKFLOWS, i requires 0 <= i < WORKFLOWS => runs[i].Keys))
    }
  }

  datatype Token = Token(branch: string, ids: seq<nat>, runs: seq<set<nat>>)

  datatype Receipt = Receipt(branch: string, ids: seq<nat>)

  /** The same branch, workflows and runs, everything disabled and nothing active. */
  predicate Quiet(now: Snapshot, approved: Snapshot) {
    && now.Valid() && approved.Valid()
    && now.branch == approved.branch && now.ids == approved.ids
    && now.RunIds() == approved.RunIds() && now.Disabled() && now.Completed()
  }

  /** The same branch and workflows, everything disabled and no run left. */
  predicate Empty(now: Snapshot, approved: Snapshot) {
    && now.Valid() && approved.Valid()
    && now.branch == approved.branch && now.ids == approved.ids && now.Disabled() && now.RunIds() == {}
  }

  /** Approving a token approves its branch, its workflows and exactly its runs. */
  lemma TokenApproves(planned: Snapshot, current: Snapshot)
    requires planned.Valid() && current.Valid() && planned.ApplyToken() == current.ApplyToken()
    ensures planned.branch == current.branch && planned.ids == current.ids && planned.RunIds() == current.RunIds()
  {
    var p, c := planned.ApplyToken(), current.ApplyToken();
    assert p.runs[0] == c.runs[0] && p.runs[1] == c.runs[1];
  }

  datatype Event = Put(workflow: nat) | Read(snapshot: Snapshot) | Delete(run: nat) | Written(receipt: Receipt)

  /** What may be done at each point of a run, given the plan that was approved. */
  ghost predicate Allowed(log: seq<Event>, start: nat, k: nat, approved: Snapshot)
    requires start <= k < |log|
  {
    match log[k]
    case Put(workflow) => workflow in approved.ids
    case Read(_) => true
    case Delete(run) =>
      && approved.Valid() && run in approved.RunIds()
      && exists j :: start <= j < k && log[j].Read? && Quiet(log[j].snapshot, approved)
    case Written(receipt) =>
      && receipt == Receipt(approved.branch, approved.ids)
      && exists j :: start <= j < k && log[j].Read? && Empty(log[j].snapshot, approved)
           && forall i :: j < i < k ==> log[i].Written?
  }

  ghost predicate Lawful(log: seq<Event>, start: nat, approved: Snapshot) {
    start <= |log| && forall k :: start <= k < |log| ==> Allowed(log, start, k, approved)
  }

  lemma AllowedPrefix(log: seq<Event>, e: Event, start: nat, k: nat, approved: Snapshot)
    requires start <= k < |log| && Allowed(log, start, k, approved)
    ensures Allowed(log + [e], start, k, approved)
  {
    var next := log + [e];
    assert forall i :: 0 <= i < |log| ==> next[i] == log[i];
    match log[k] {
      case Delete(run) =>
        var j :| start <= j < k && log[j].Read? && Quiet(log[j].snapshot, approved);
        assert next[j] == log[j];
      case Written(receipt) =>
        var j :| start <= j < k && log[j].Read? && Empty(log[j].snapshot, approved) &&
          forall i :: j < i < k ==> log[i].Written?;
        assert next[j] == log[j];
      case _ =>
    }
  }

  lemma LawfulSnoc(log: seq<Event>, e: Event, start: nat, approved: Snapshot)
    requires Lawful(log, start, approved) && Allowed(log + [e], start, |log|, approved)
    ensures Lawful(log + [e], start, approved)
  {
    forall k | start <= k < |log| ensures Allowed(log + [e], start, k, approved) {
      AllowedPrefix(log, e, start, k, approved);
    }
  }

  lemma LawfulStart(log: seq<Event>, approved: Snapshot)
    ensures Lawful(log, |log|, approved)
  {
  }

  lemma LawfulPut(log: seq<Event>, start: nat, workflow: nat, approved: Snapshot)
    requires Lawful(log, start, approved) && workflow in approved.ids
    ensures Lawful(log + [Put(workflow)], start, approved)
  {
    LawfulSnoc(log, Put(workflow), start, approved);
  }

  lemma LawfulRead(log: seq<Event>, start: nat, snapshot: Snapshot, approved: Snapshot)
    requires Lawful(log, start, approved)
    ensures Lawful(log + [Read(snapshot)], start, approved)
  {
    LawfulSnoc(log, Read(snapshot), start, approved);
  }

  lemma LawfulDelete(log: seq<Event>, start: nat, seen: nat, run: nat, approved: Snapshot)
    requires Lawful(log, start, approved) && start <= seen < |log|
    requires log[seen].Read? && Quiet(log[seen].snapshot, approved) && run in approved.RunIds()
    ensures Lawful(log + [Delete(run)], start, approved)
  {
    assert (log + [Delete(run)])[seen] == log[seen];
    LawfulSnoc(log, Delete(run), start, approved);
  }

  lemma LawfulReceipt(log: seq<Event>, start: nat, seen: nat, approved: Snapshot)
    requires Lawful(log, start, approved) && start <= seen == |log| - 1
    requires log[seen].Read? && Empty(log[seen].snapshot, approved)
    ensures Lawful(log + [Written(Receipt(approved.branch, approved.ids))], start, approved)
  {
    var e := Written(Receipt(approved.branch, approved.ids));
    assert (log + [e])[seen] == log[seen];
    LawfulSnoc(log, e, start, approved);
  }

  class Host {
    /** Whether anybody else changes the repository meanwhile. */
    const foreign: bool
    /** Whether calls may fail at present. */
    var faulty: bool
    var branch: string
    var ids: seq<nat>
    var disabled: seq<bool>
    var runs: seq<Runs>
    ghost var log: seq<Event>

    function Current(): Snapshot
      reads this
    {
      Snapshot(branch, ids, disabled, runs)
    }

    predicate Valid()
      reads this
    {
      Current().Valid()
    }

    method Environment()
      requires Valid()
      modifies this`branch, this`ids, this`disabled, this`runs
      ensures Valid()
      ensures !foreign ==> Current() == old(Current())
    {
      if foreign {
        var next: Snapshot := *;
        if next.Valid() {
          branch, ids, disabled, runs := next.branch, next.ids, next.disabled, next.runs;
        }
      }
    }

    method Fails() returns (failed: bool)
      ensures !faulty ==> !failed
    {
      failed := *;
      failed := failed && faulty;
    }

    /** Branch, catalogue and each run list are separate calls; others may act in between. */
    method Collect() returns (r: Option<Snapshot>)
      requires Valid()
      modifies this`branch, this`ids, this`disabled, this`runs, this`log
      ensures Valid()
      ensures !foreign ==> Current() == old(Current()) && (r.Some? ==> r.value == Current())
      ensures r.Some? ==> r.value.Valid() && log == old(log) + [Read(r.value)]
      ensures r.None? ==> log == old(log) && faulty
    {
      Environment();
      var readBranch := branch;
      Environment();
      var readIds, readDisabled := ids, disabled;
      Environment();
      var first := runs[0];
      Environment();
      var second := runs[1];
      var failed := Fails();
      if failed {
        return None;
      }
      r := Some(Snapshot(readBranch, readIds, readDisabled, [first, second]));
      log := log + [Read(r.value)];
      assert !foreign ==> runs == [first, second];
    }

    /** A failed mutation may or may not have taken effect. */
    method Disable(workflow: nat) returns (ok: bool)
      requires Valid()
      modifies this`branch, this`ids, this`disabled, this`runs, this`log
      ensures Valid() && log == old(log) + [Put(workflow)]
      ensures !faulty ==> ok
      ensures !foreign ==> branch == old(branch) && ids == old(ids) && runs == old(runs)
      ensures !foreign ==> forall i :: 0 <= i < WORKFLOWS ==>
        disabled[i] == (old(disabled)[i] || (ids[i] == workflow && disabled[i]))
      ensures !foreign && ok ==> forall i :: 0 <= i < WORKFLOWS && ids[i] == workflow ==> disabled[i]
    {
      Environment();
      log := log + [Put(workflow)];
      var failed := Fails();
      var lost: bool := *;
      if !(failed && lost) {
        disabled := [disabled[0] || ids[0] == workflow, disabled[1] || ids[1] == workflow];
      }
      ok := !failed;
    }

    method DeleteRun(run: nat) returns (ok: bool)
      requires Valid()
      modifies this`branch, this`ids, this`disabled, this`runs, this`log
      ensures Valid() && log == old(log) + [Delete(run)]
      ensures !faulty ==> ok
      ensures !foreign ==> branch == old(branch) && ids == old(ids) && disabled == old(disabled)
      ensures !foreign ==> runs == old(runs) || runs == [old(runs)[0] - {run}, old(runs)[1] - {run}]
      ensures !foreign && ok ==> runs == [old(runs)[0] - {run}, old(runs)[1] - {run}]
    {
      Environment();
      log := log + [Delete(run)];
      var failed := Fails();
      var lost: bool := *;
      if !(failed && lost) {
        runs := [runs[0] - {run}, runs[1] - {run}];
      }
      ok := !failed;
    }
  }

  predicate IsLeast(s: set<nat>, run: nat) {
    run in s && forall other :: other in s ==> run <= other
  }

  lemma {:induction false} LeastExists(s: set<nat>) returns (least: nat)
    requires s != {}
    ensures IsLeast(s, least)
  {
    var first :| first in s;
    var rest := s - {first};
    least := first;
    if rest != {} {
      var other := LeastExists(rest);
      least := if first <= other then first else other;
    }
    forall x | x in s ensures least <= x {
      assert x != first ==> x in rest;
    }
  }

  /** Between two moments without foreign changes, runs only go away. */
  ghost predicate OnlyShrunk(before: Snapshot, now: Snapshot) {
    && before.Valid() && now.Valid() && now.branch == before.branch && now.ids == before.ids
    && forall i :: 0 <= i < WORKFLOWS ==>
         forall run :: run in now.runs[i] ==> run in before.runs[i] && now.runs[i][run] == before.runs[i][run]
  }

  /** Disables both workflows of the plan. */
  method DisableAll(host: Host, snapshot: Snapshot, ghost start: nat) returns (ok: bool)
    requires host.Valid() && snapshot.Valid() && Lawful(host.log, start, snapshot)
    modifies host`branch, host`ids, host`disabled, host`runs, host`log
    ensures host.Valid() && Lawful(host.log, start, snapshot) && old(host.log) <= host.log
    ensures !host.faulty ==> ok
    ensures !host.foreign ==> OnlyShrunk(old(host.Current()), host.Current()) && host.runs == old(host.runs)
    ensures !host.foreign && ok && snapshot.ids == host.ids ==> host.Current().Disabled()
  {
    hide Lawful, Allowed;
    for i := 0 to WORKFLOWS
      invariant host.Valid() && Lawful(host.log, start, snapshot) && old(host.log) <= host.log
      invariant !host.foreign ==> OnlyShrunk(old(host.Current()), host.Current()) && host.runs == old(host.runs)
      invariant !host.foreign && snapshot.ids == host.ids ==> forall k :: 0 <= k < i ==> host.disabled[k]
    {
      LawfulPut(host.log, start, snapshot.ids[i], snapshot);
      ok := host.Disable(snapshot.ids[i]);
      if !ok {
        return;
      }
    }
    ok := true;
  }

  /** Deletes the approved runs in ascending order, after a read that showed them quiet. */
  method DeleteAll(host: Host, snapshot: Snapshot, ghost start: nat, ghost seen: nat) returns (ok: bool)
    requires host.Valid() && snapshot.Valid() && Lawful(host.log, start, snapshot)
    requires start <= seen < |host.log| && host.log[seen].Read? && Quiet(host.log[seen].snapshot, snapshot)
    modifies host`branch, host`ids, host`disabled, host`runs, host`log
    ensures host.Valid() && Lawful(host.log, start, snapshot) && old(host.log) <= host.log
    ensures !host.faulty ==> ok
    ensures !host.foreign ==> OnlyShrunk(old(host.Current()), host.Current()) && host.disabled == old(host.disabled)
    ensures !host.foreign && ok && old(host.Current().RunIds()) <= snapshot.RunIds() ==> host.Current().RunIds() == {}
  {
    hide Lawful, Allowed;
    var todo := snapshot.RunIds();
    while todo != {}
      invariant host.Valid() && Lawful(host.log, start, snapshot) && old(host.log) <= host.log
      invariant todo <= snapshot.RunIds()
      invariant !host.foreign ==> OnlyShrunk(old(host.Current()), host.Current()) && host.disabled == old(host.disabled)
      invariant !host.foreign && old(host.Current().RunIds()) <= snapshot.RunIds() ==> host.Current().RunIds() <= todo
      decreases todo
    {
      ghost var least := LeastExists(todo);
      var run :| run in todo && IsLeast(todo, run);
      LawfulDelete(host.log, start, seen, run, snapshot);
      ok := host.DeleteRun(run);
      if !ok {
        return;
      }
      todo := todo - {run};
    }
    ok := true;
  }

  method CollectLawfully(host: Host, snapshot: Snapshot, ghost start: nat) returns (r: Option<Snapshot>)
    requires host.Valid() && Lawful(host.log, start, snapshot)
    modifies host`branch, host`ids, host`disabled, host`runs, host`log
    ensures host.Valid() && old(host.log) <= host.log && Lawful(host.log, start, snapshot)
    ensures !host.foreign ==> host.Current() == old(host.Current()) && (r.Some? ==> r.value == host.Current())
    ensures r.Some? ==> r.value.Valid() && host.log == old(host.log) + [Read(r.value)]
    ensures r.None? ==> host.faulty
  {
    hide Lawful, Allowed;
    r := host.Collect();
    if r.Some? {
      LawfulRead(old(host.log), start, r.value, snapshot);
    }
  }

  /** Disables the workflows and reads back that nothing else has changed and nothing is active. */
  method DisableAndProve(host: Host, snapshot: Snapshot, ghost start: nat) returns (ok: bool)
    requires host.Valid() && snapshot.Valid() && Lawful(host.log, start, snapshot)
    modifies host`branch, host`ids, host`disabled, host`runs, host`log
    ensures host.Valid() && Lawful(host.log, start, snapshot) && old(host.log) <= host.log
    ensures ok ==>
      |host.log| > start && host.log[|host.log| - 1].Read? && Quiet(host.log[|host.log| - 1].snapshot, snapshot)
    ensures !host.foreign ==> OnlyShrunk(old(host.Current()), host.Current())
    ensures !host.foreign && ok ==> Quiet(host.Current(), snapshot)
    ensures !host.foreign && !host.faulty && snapshot == old(host.Current()) && snapshot.Completed() ==> ok
  {
    hide Lawful, Allowed, Snapshot.ApplyToken;
    LawfulStarts(host.log, start, snapshot);
    ok := DisableAll(host, snapshot, start);
    if !ok {
      return;
    }
    var disabled := CollectLawfully(host, snapshot, start);
    ok := disabled.Some? && Quiet(disabled.value, snapshot);
  }

  lemma LawfulStarts(log: seq<Event>, start: nat, approved: Snapshot)
    requires Lawful(log, start, approved)
    ensures start <= |log|
  {
  }

  /** Reads back that no run is left, and only then writes the receipt. */
  method WriteReceipt(host: Host, snapshot: Snapshot, ghost start: nat) returns (receipt: Option<Receipt>)
    requires host.Valid() && snapshot.Valid() && Lawful(host.log, start, snapshot)
    modifies host`branch, host`ids, host`disabled, host`runs, host`log
    ensures host.Valid() && Lawful(host.log, start, snapshot) && old(host.log) <= host.log
    ensures receipt.Some? ==>
      && receipt.value == Receipt(snapshot.branch, snapshot.ids)
      && |host.log| > |old(host.log)| && host.log[|host.log| - 1] == Written(receipt.value)
    ensures !host.foreign ==> host.Current() == old(host.Current())
    ensures !host.foreign && !host.faulty ==> (receipt.Some? <==> Empty(host.Current(), snapshot))
  {
    hide Lawful, Allowed, Snapshot.ApplyToken;
    LawfulStarts(host.log, start, snapshot);
    var retired := CollectLawfully(host, snapshot, start);
    if retired.None? || !Empty(retired.value, snapshot) {
      return None;
    }
    var failed := host.Fails();
    if failed {
      return None;
    }
    receipt := Some(Receipt(retired.value.branch, retired.value.ids));
    LawfulReceipt(host.log, start, |host.log| - 1, snapshot);
    host.log := host.log + [Written(receipt.value)];
  }

  /**
   * The retirement: without the exact token nothing is touched, runs are deleted only after
   * they were read as quiet, and a receipt is written only after a read that shows none left.
   */
  method Retire(host: Host, snapshot: Snapshot, confirmation: Token) returns (receipt: Option<Receipt>)
    requires host.Valid() && snapshot.Valid()
    modifies host`branch, host`ids, host`disabled, host`runs, host`log
    ensures host.Valid() && old(host.log) <= host.log && Lawful(host.log, |old(host.log)|, snapshot)
    ensures confirmation != snapshot.ApplyToken() || !snapshot.Completed() ==>
      receipt.None? && host.log == old(host.log)
    ensures receipt.Some? ==>
      && receipt.value == Receipt(snapshot.branch, snapshot.ids)
      && |host.log| > |old(host.log)| && host.log[|host.log| - 1] == Written(receipt.value)
    ensures !host.foreign ==> OnlyShrunk(old(host.Current()), host.Current())
    ensures !host.foreign && !host.faulty && snapshot == old(host.Current()) ==>
      (receipt.Some? <==> snapshot.Completed() && confirmation == snapshot.ApplyToken())
  {
    hide Lawful, Allowed, Snapshot.ApplyToken;
    ghost var start := |host.log|;
    LawfulStart(host.log, snapshot);
    if confirmation != snapshot.ApplyToken() || !snapshot.Completed() {
      return None;
    }
    var ok := DisableAndProve(host, snapshot, start);
    if !ok {
      return None;
    }
    ok := DeleteAll(host, snapshot, start, |host.log| - 1);
    if !ok {
      return None;
    }
    receipt := WriteReceipt(host, snapshot, start);
  }

  /**
   * Without foreign changes, any number of attempts that break off anywhere, each with its
   * own fresh plan, followed by one that does not fail, ends with the receipt that the very
   * first attempt would have written.
   */
  method RetireWithRecovery(host: Host, interruptions: nat) returns (receipt: Option<Receipt>)
    requires host.Valid() && !host.foreign && host.Current().Completed()
    modifies host
    ensures receipt == Some(Receipt(old(host.branch), old(host.ids)))
    ensures host.Valid() && host.branch == old(host.branch) && host.ids == old(host.ids)
  {
    for i := 0 to interruptions
      invariant host.Valid() && OnlyShrunk(old(host.Current()), host.Current())
    {
      host.faulty := true;
      var attempt := host.Collect();
      if attempt.Some? {
        var _ := Retire(host, attempt.value, attempt.value.ApplyToken());
      }
    }
    host.faulty := false;
    var plan := host.Collect();
    receipt := Retire(host, plan.value, plan.value.ApplyToken());
  }
}
