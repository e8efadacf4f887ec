/** Publishing runs over one release list: revisions, drafts and their commits across whole histories. */
module WrapperReleases {
  import opened Wrappers
  import opened ReleaseTags
  import opened ReleaseDrafts

  const WRAPPER_REVISION_EPOCH: nat := 1000

  // ----- Two reads of the list -----------------------------------------------------------

  /** Every revision reserved in the earlier view is still reserved in the later one. */
  ghost predicate StillReserved(prefix: string, earlier: seq<Release>, later: seq<Release>) {
    forall r :: r in earlier && Number(prefix, r).Some? ==>
      exists s :: s in later && Number(prefix, s) == Number(prefix, r)
  }

  lemma MaximumGrowsWithView(prefix: string, earlier: seq<Release>, later: seq<Release>, a: nat, b: nat)
    requires IsMaximum(prefix, earlier, a) && IsMaximum(prefix, later, b)
    requires StillReserved(prefix, earlier, later)
    ensures a <= b
  {
    if a > 1 {
      var i :| 0 <= i < |earlier| && Number(prefix, earlier[i]) == Some(a);
      assert earlier[i] in earlier;
      var s :| s in later && Number(prefix, s) == Some(a);
    }
  }

  /** The revision chosen for an offset above a visible maximum. */
  function RevisionAt(maximum: nat, offset: nat): nat {
    maximum + offset
  }

  /**
   * Larger offsets give larger revisions exactly when the visible maximum has not shrunk, and it
   * has not while nothing visible disappears.
   */
  lemma RevisionsIncrease(prefix: string, earlier: seq<Release>, later: seq<Release>, m: nat, n: nat)
    requires IsMaximum(prefix, earlier, m) && IsMaximum(prefix, later, n)
    ensures (forall a, b :: a < b ==> RevisionAt(m, a) < RevisionAt(n, b)) <==> m <= n
    ensures StillReserved(prefix, earlier, later) ==> m <= n
  {
    hide IsMaximum, StillReserved;
    if n < m {
      assert RevisionAt(m, 0) == RevisionAt(n, m - n);
    }
    if StillReserved(prefix, earlier, later) {
      MaximumGrowsWithView(prefix, earlier, later, m, n);
    }
  }

  function DraftAt(prefix: string, revision: nat, commit: string, id: int): Release {
    Release(Some(RevisionTag(prefix, revision)), Some(true), Some(false), Some(commit), Some(id), Some([]))
  }

  lemma OneDraft(prefix: string, revision: nat, commit: string, id: int)
    requires revision > 1 && id > 0
    ensures Readable(prefix, [DraftAt(prefix, revision, commit, id)])
    ensures IsMaximum(prefix, [DraftAt(prefix, revision, commit, id)], revision)
  {
    TagReads(prefix, revision);
    var list := [DraftAt(prefix, revision, commit, id)];
    assert Number(prefix, list[0]) == Some(revision);
  }

  /**
   * A history that goes wrong: an old draft at revision 10 is shown to run 1 and hidden from
   * run 10. Both reserve revision 1011, so the draft run 1 created is reused by run 10 when it
   * builds the same commit, and blocks run 10 when it builds another one.
   */
  method HiddenDraftCollides(space: char -> bool, prefix: string, staleCommit: string, commit: string, other: string)
    returns (first: Option<nat>, second: Option<nat>, same: Option<Plan>, different: Option<Plan>)
    requires CleanText(space, prefix) && CleanText(space, RevisionTag(prefix, 1011))
    requires IsCommit(commit) && IsCommit(other) && other != commit
    ensures first == second == Some(1011)
    ensures same == Some(Reuse(2, [])) && different == None
  {
    hide Readable, IsMaximum, CleanText, IsCommit, RevisionTag;
    var older := DraftAt(prefix, 10, staleCommit, 1);
    OneDraft(prefix, 10, staleCommit, 1);
    StartReading(prefix);
    first := ReserveExactly(space, [older], prefix, WRAPPER_REVISION_EPOCH + 1, 10);
    second := ReserveExactly(space, [], prefix, WRAPPER_REVISION_EPOCH + 10, 1);
    var releases := [older, DraftAt(prefix, 1011, commit, 2)];
    TwoDrafts(prefix, staleCommit, commit, other);
    same := PreparePlan(space, releases, RevisionTag(prefix, 1011), commit);
    different := PreparePlan(space, releases, RevisionTag(prefix, 1011), other);
  }

  method ReserveExactly(space: char -> bool, releases: seq<Release>, prefix: string, offset: nat, maximum: nat)
    returns (revision: Option<nat>)
    requires CleanText(space, prefix) && Readable(prefix, releases) && IsMaximum(prefix, releases, maximum)
    requires 1 <= offset && maximum + offset <= MAX_REVISION
    ensures revision == Some(maximum + offset)
  {
    hide Readable, IsMaximum, CleanText;
    revision := NextWrapperRevision(space, releases, prefix, offset);
    forall m: nat | IsMaximum(prefix, releases, m) ensures m == maximum {
      MaximumUnique(prefix, releases, m, maximum);
    }
  }

  lemma TwoDrafts(prefix: string, staleCommit: string, commit: string, other: string)
    requires other != commit
    ensures
      var releases := [DraftAt(prefix, 10, staleCommit, 1), DraftAt(prefix, 1011, commit, 2)];
      var tag := RevisionTag(prefix, 1011);
      && SoleDraft(releases, tag, commit, 1) && (forall i :: SoleDraft(releases, tag, commit, i) ==> i == 1)
      && (forall i :: !SoleDraft(releases, tag, other, i))
      && releases[1].tag == Some(tag)
  {
    TagReads(prefix, 10);
    TagReads(prefix, 1011);
  }

  // ----- Histories -----------------------------------------------------------------------

  datatype Run = Run(number: nat, commit: string, revision: nat)

  /** Runs come in order of their numbers, and their revisions are above the epoch. */
  ghost predicate Numbered(runs: seq<Run>) {
    && (forall i, j :: 0 <= i < j < |runs| ==> runs[i].number < runs[j].number)
    && (forall i :: 0 <= i < |runs| ==> runs[i].revision > WRAPPER_REVISION_EPOCH)
  }

  /** The revisions increase too, up to the one above the last maximum. */
  ghost predicate InOrder(runs: seq<Run>, lastMaximum: nat) {
    && (forall i, j :: 0 <= i < j < |runs| ==> runs[i].revision < runs[j].revision)
    && (runs != [] ==> runs[|runs| - 1].revision == lastMaximum + WRAPPER_REVISION_EPOCH + runs[|runs| - 1].number)
  }

  /** Releases keep their tags and are never taken back from the public. */
  ghost predicate Grown(before: seq<Release>, now: seq<Release>) {
    && |before| <= |now|
    && forall i :: 0 <= i < |before| ==>
         now[i].tag == before[i].tag && (before[i].draft == Some(false) ==> now[i].draft == Some(false))
  }

  /** A draft under a tag that only a run could have chosen. */
  predicate Reserved(prefix: string, release: Release) {
    && release.draft == Some(true)
    && Number(prefix, release).Some? && Number(prefix, release).value > WRAPPER_REVISION_EPOCH
  }

  /** Every such draft has an owner, and carries its owner's tag and commit. */
  ghost predicate Owned(prefix: string, releases: seq<Release>, runs: seq<Run>, owner: map<nat, nat>) {
    && (forall i :: 0 <= i < |releases| && Reserved(prefix, releases[i]) ==> i in owner)
    && (forall i :: i in owner ==>
          && i < |releases| && owner[i] < |runs|
          && releases[i].tag == Some(RevisionTag(prefix, runs[owner[i]].revision))
          && releases[i].target == Some(runs[owner[i]].commit))
  }

  lemma AppendNumbered(runs: seq<Run>, run: Run)
    requires Numbered(runs) && run.revision > WRAPPER_REVISION_EPOCH
    requires runs != [] ==> runs[|runs| - 1].number < run.number
    ensures Numbered(runs + [run])
  {
    var n := |runs| - 1;
    forall i | 0 <= i < |runs| ensures runs[i].number < run.number {
      assert i < n ==> runs[i].number < runs[n].number;
    }
  }

  lemma AppendRun(runs: seq<Run>, before: nat, run: Run, maximum: nat)
    requires InOrder(runs, before) && before <= maximum
    requires runs != [] ==> runs[|runs| - 1].number < run.number
    requires run.revision == maximum + WRAPPER_REVISION_EPOCH + run.number
    ensures InOrder(runs + [run], maximum)
  {
    var n := |runs| - 1;
    forall i | 0 <= i < |runs| ensures runs[i].revision < run.revision {
      assert i < n ==> runs[i].revision < runs[n].revision;
    }
  }

  /** What one more run keeps, and what it adds while the visible maximum has never shrunk. */
  lemma OneMoreRun(prefix: string, releases: seq<Release>, runs: seq<Run>, owner: map<nat, nat>,
                   lastMaximum: nat, shrunk: bool, run: Run, maximum: nat)
    requires Numbered(runs) && (!shrunk ==> InOrder(runs, lastMaximum)) && Owned(prefix, releases, runs, owner)
    requires run.number >= 1 && run.revision == RevisionAt(maximum, WRAPPER_REVISION_EPOCH + run.number)
    requires runs != [] ==> runs[|runs| - 1].number < run.number
    ensures Numbered(runs + [run]) && Owned(prefix, releases, runs + [run], owner)
    ensures !(shrunk || (runs != [] && maximum < lastMaximum)) ==>
      InOrder(runs + [run], maximum) && forall other :: other in runs ==> other.revision < run.revision
  {
    hide Numbered, Owned;
    AppendNumbered(runs, run);
    AppendOwned(prefix, releases, runs, owner, run);
    if !(shrunk || (runs != [] && maximum < lastMaximum)) {
      AppendRun(runs, if runs == [] then 0 else lastMaximum, run, maximum);
      RunsBelow(runs + [run], maximum, |runs|);
    }
  }

  lemma AppendOwned(prefix: string, releases: seq<Release>, runs: seq<Run>, owner: map<nat, nat>, run: Run)
    requires Owned(prefix, releases, runs, owner)
    ensures Owned(prefix, releases, runs + [run], owner)
  {
  }

  lemma RunsBelow(runs: seq<Run>, maximum: nat, n: nat)
    requires InOrder(runs, maximum) && n < |runs|
    ensures forall run :: run in runs[..n] ==> run.revision < runs[n].revision
  {
  }

  /** Filling in or publishing an owned draft leaves tags and targets alone. */
  lemma ReplaceDraft(prefix: string, releases: seq<Release>, runs: seq<Run>, owner: map<nat, nat>, i: nat,
                     release: Release)
    requires Owned(prefix, releases, runs, owner)
    requires i in owner && releases[i].draft == Some(true)
    requires release.tag == releases[i].tag && release.target == releases[i].target
    ensures Owned(prefix, releases[i := release], runs, owner)
  {
  }

  lemma GrownOnce(before: seq<Release>, releases: seq<Release>, now: seq<Release>)
    requires Grown(before, releases) && Grown(releases, now)
    ensures Grown(before, now)
  {
  }

  class Repository {
    const prefix: string
    const space: char -> bool
    var releases: seq<Release>
    var runs: seq<Run>
    /** The run that created the draft at an index. */
    ghost var owner: map<nat, nat>
    /** The largest revision the last build saw, the list it saw, and the releases there were. */
    ghost var lastMaximum: nat
    ghost var lastView: seq<Release>
    ghost var lastReleases: seq<Release>
    /** Some build has seen a smaller maximum than the one before it. */
    ghost var shrunk: bool

    ghost predicate Valid()
      reads this
    {
      && Numbered(runs) && (!shrunk ==> InOrder(runs, lastMaximum))
      && Owned(prefix, releases, runs, owner)
      && Grown(lastReleases, releases)
      && (runs != [] ==> IsMaximum(prefix, lastView, lastMaximum))
    }

    /** Tags and targets never change, releases never disappear, and what is public stays public. */
    twostate predicate Keeps()
      reads this
    {
      && |old(releases)| <= |releases| && old(runs) <= runs
      && (forall i :: i in old(owner) ==> i in owner && owner[i] == old(owner)[i])
      && forall i :: 0 <= i < |old(releases)| ==>
           && releases[i].tag == old(releases)[i].tag && releases[i].target == old(releases)[i].target
           && (old(releases)[i].draft == Some(false) ==> releases[i].draft == Some(false))
    }

    constructor (prefix: string, space: char -> bool, releases: seq<Release>)
      requires forall r :: r in releases && r.draft == Some(true) && Number(prefix, r).Some? ==>
                 Number(prefix, r).value <= WRAPPER_REVISION_EPOCH
      ensures Valid() && this.prefix == prefix && this.releases == releases && runs == [] && !shrunk
    {
      this.prefix := prefix;
      this.space := space;
      this.releases := releases;
      runs := [];
      owner := map[];
      lastMaximum := 0;
      lastView := [];
      lastReleases := releases;
      shrunk := false;
    }

    /**
     * The build job of a run, shown any list at all. As long as no build has seen a smaller
     * maximum than the one before it, every run's revision is above those of all earlier runs.
     */
    method Build(number: nat, commit: string, view: seq<Release>) returns (revision: Option<nat>)
      requires Valid() && number >= 1 && (runs != [] ==> runs[|runs| - 1].number < number)
      modifies this`runs, this`lastMaximum, this`lastView, this`lastReleases, this`shrunk
      ensures Valid()
      ensures if revision.None? then runs == old(runs) else runs == old(runs) + [Run(number, commit, revision.value)]
      ensures revision.Some? ==>
        forall r :: r in view && Number(prefix, r).Some? ==> Number(prefix, r).value < revision.value
      ensures revision.Some? && !shrunk ==> forall run :: run in old(runs) ==> run.revision < revision.value
      ensures revision.Some? ==>
        && lastView == view && lastReleases == releases && IsMaximum(prefix, view, lastMaximum)
        && revision.value == RevisionAt(lastMaximum, WRAPPER_REVISION_EPOCH + number)
      ensures shrunk <==> old(shrunk) || (revision.Some? && old(runs) != [] && lastMaximum < old(lastMaximum))
    {
      hide Numbered, InOrder, Owned, IsMaximum, Readable, CleanText, Number, Grown;
      revision := NextWrapperRevision(space, view, prefix, WRAPPER_REVISION_EPOCH + number);
      if revision.Some? {
        ghost var maximum: nat := revision.value - (WRAPPER_REVISION_EPOCH + number);
        var run := Run(number, commit, revision.value);
        OneMoreRun(prefix, releases, runs, owner, lastMaximum, shrunk, run, maximum);
        GrownNothing();
        VisibleBelow(view, maximum);
        shrunk := shrunk || (runs != [] && maximum < lastMaximum);
        lastMaximum, lastView, lastReleases := maximum, view, releases;
        runs := runs + [run];
      }
    }

    lemma GrownNothing()
      ensures Grown(releases, releases)
    {
    }

    /**
     * Builds that are shown no draft meet the condition by themselves: the public releases
     * they saw are still public, under the same tags.
     */
    lemma HiddenDraftsSuffice(view: seq<Release>, m: nat)
      requires Valid() && runs != [] && IsMaximum(prefix, view, m)
      requires forall r :: r in lastView ==> r in lastReleases && r.draft == Some(false)
      requires forall r :: r in releases && r.draft == Some(false) ==> r in view
      ensures lastMaximum <= m
    {
      forall r | r in lastView && Number(prefix, r).Some?
        ensures exists s :: s in view && Number(prefix, s) == Number(prefix, r)
      {
        var i :| 0 <= i < |lastReleases| && lastReleases[i] == r;
        assert releases[i] in releases;
        assert releases[i] in view && Number(prefix, releases[i]) == Number(prefix, r);
      }
      MaximumGrowsWithView(prefix, lastView, view, lastMaximum, m);
    }

    lemma VisibleBelow(view: seq<Release>, maximum: nat)
      requires IsMaximum(prefix, view, maximum)
      ensures forall r :: r in view && Number(prefix, r).Some? ==> Number(prefix, r).value <= maximum
    {
    }

    /** The publisher job of run `j`, which may be repeated: a reused draft is always its own. */
    method Prepare(j: nat, id: int) returns (plan: Option<Plan>)
      requires Valid() && j < |runs| && id > 0
      modifies this`releases, this`owner
      ensures Valid() && Keeps()
      ensures plan.None? || plan.value.Reuse? ==> releases == old(releases)
      ensures plan.Some? && plan.value.Reuse? ==>
        exists i ::
          && i in owner && (!shrunk ==> owner[i] == j)
          && releases[i].id == Some(plan.value.draftId) && releases[i].draft == Some(true)
          && releases[i].target == Some(runs[j].commit)
      ensures plan == Some(Create) ==>
        && releases == old(releases) + [DraftAt(prefix, runs[j].revision, runs[j].commit, id)]
        && owner == old(owner)[|old(releases)| := j]
    {
      hide Numbered, InOrder, IsMaximum, Revision, RevisionTag, AssetsValid, IsCommit, CleanText;
      var tag := RevisionTag(prefix, runs[j].revision);
      RunTag(j);
      plan := PreparePlan(space, releases, tag, runs[j].commit);
      if plan == Some(Create) {
        var draft := DraftAt(prefix, runs[j].revision, runs[j].commit, id);
        GrownOnce(lastReleases, releases, releases + [draft]);
        owner := owner[|releases| := j];
        releases := releases + [draft];
      } else if plan.Some? {
        ghost var i: nat :| SoleDraft(releases, tag, runs[j].commit, i) && plan.value.draftId == releases[i].id.value;
        assert Reserved(prefix, releases[i]);
        if !shrunk {
          SameRun(owner[i], j);
        }
      }
    }

    lemma RunTag(j: nat)
      requires Valid() && j < |runs|
      ensures runs[j].revision > WRAPPER_REVISION_EPOCH
      ensures Revision(prefix, RevisionTag(prefix, runs[j].revision)) == Some(runs[j].revision)
    {
      TagReads(prefix, runs[j].revision);
    }

    lemma SameRun(j: nat, k: nat)
      requires Valid() && !shrunk && j < |runs| && k < |runs|
      requires RevisionTag(prefix, runs[j].revision) == RevisionTag(prefix, runs[k].revision)
      ensures j == k
    {
      RunTag(j);
      RunTag(k);
    }

    /** The publisher fills its draft and finally makes it public. */
    method Upload(i: nat, assets: seq<Option<int>>)
      requires Valid() && i in owner && releases[i].draft == Some(true)
      modifies this`releases
      ensures Valid() && Keeps()
      ensures releases == old(releases)[i := old(releases)[i].(assets := Some(assets))]
    {
      hide Numbered, InOrder, IsMaximum;
      ReplaceDraft(prefix, releases, runs, owner, i, releases[i].(assets := Some(assets)));
      GrownOnce(lastReleases, releases, releases[i := releases[i].(assets := Some(assets))]);
      releases := releases[i := releases[i].(assets := Some(assets))];
    }

    method Publish(i: nat)
      requires Valid() && i in owner && releases[i].draft == Some(true)
      modifies this`releases
      ensures Valid() && Keeps()
      ensures releases == old(releases)[i := old(releases)[i].(draft := Some(false))]
      ensures releases[i].target == Some(runs[owner[i]].commit)
    {
      hide Numbered, InOrder, IsMaximum;
      ReplaceDraft(prefix, releases, runs, owner, i, releases[i].(draft := Some(false)));
      GrownOnce(lastReleases, releases, releases[i := releases[i].(draft := Some(false))]);
      releases := releases[i := releases[i].(draft := Some(false))];
    }

    /** Anybody may add releases, as long as they are not drafts under a tag a run could choose. */
    method AddForeign(release: Release)
      requires Valid()
      requires release.draft == Some(true) && Number(prefix, release).Some? ==>
        Number(prefix, release).value <= WRAPPER_REVISION_EPOCH
      modifies this`releases
      ensures Valid() && Keeps() && releases == old(releases) + [release]
    {
      hide Numbered, InOrder, IsMaximum, Revision, RevisionTag;
      GrownOnce(lastReleases, releases, releases + [release]);
      releases := releases + [release];
    }
  }
}
