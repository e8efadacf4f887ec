/** Reserving the next wrapper revision, and deciding whether a draft may be created or reused. */
module ReleaseDrafts {
  import opened Wrappers
  import opened ReleaseTags
  import Ordering

  const MAX_REVISION: nat := 2_147_483_647

  /** One entry of the release list; a missing or ill-typed field is `None`. */
  datatype Release = Release(tag: Option<string>, draft: Option<bool>, prerelease: Option<bool>,
                             target: Option<string>, id: Option<int>, assets: Option<seq<Option<int>>>)

  datatype Plan = Create | Reuse(draftId: int, assetIds: seq<int>)

  predicate CleanText(space: char -> bool, s: string) {
    s != "" && forall i :: 0 <= i < |s| ==> !space(s[i])
  }

  // ----- Asset ids -----------------------------------------------------------------------

  ghost predicate AssetsValid(assets: Option<seq<Option<int>>>) {
    && assets.Some?
    && (forall i :: 0 <= i < |assets.value| ==> assets.value[i].Some? && assets.value[i].value > 0)
    && (forall i, j :: 0 <= i < j < |assets.value| ==> assets.value[i] != assets.value[j])
  }

  lemma {:induction false} DistinctCount(s: seq<int>)
    ensures |set x | x in s| <= |s|
    ensures |set x | x in s| == |s| <==> forall i, j :: 0 <= i < j < |s| ==> s[i] != s[j]
  {
    if s != [] {
      var n := |s| - 1;
      DistinctCount(s[..n]);
      assert forall x :: x in s <==> x in s[..n] || x == s[n];
      if s[n] in s[..n] {
        assert (set x | x in s) == (set x | x in s[..n]);
      } else {
        assert (set x | x in s) == (set x | x in s[..n]) + {s[n]};
      }
    }
  }

  /** Positive integer ids without duplicates, counted against their set. */
  method AssetIds(assets: Option<seq<Option<int>>>) returns (ids: Option<seq<int>>)
    ensures ids.Some? <==> AssetsValid(assets)
    ensures ids.Some? ==>
      |ids.value| == |assets.value| && forall i :: 0 <= i < |ids.value| ==> assets.value[i] == Some(ids.value[i])
  {
    if assets.None? {
      return None;
    }
    var found: seq<int> := [];
    for i := 0 to |assets.value|
      invariant |found| == i
      invariant forall k :: 0 <= k < i ==> assets.value[k] == Some(found[k]) && found[k] > 0
    {
      if assets.value[i].None? || assets.value[i].value <= 0 {
        return None;
      }
      found := found + [assets.value[i].value];
    }
    DistinctCount(found);
    if |found| != |set x | x in found| {
      var i, j :| 0 <= i < j < |found| && found[i] == found[j];
      assert assets.value[i] == assets.value[j];
      return None;
    }
    ids := Some(found);
  }

  // ----- The next revision ---------------------------------------------------------------

  /** The release carries the prefix, so it has to be understood. */
  predicate Carries(prefix: string, release: Release) {
    release.tag.Some? && prefix <= release.tag.value
  }

  function Number(prefix: string, release: Release): Option<nat> {
    if release.tag.Some? then Revision(prefix, release.tag.value) else None
  }

  ghost predicate Understood(prefix: string, release: Release) {
    && Number(prefix, release).Some?
    && release.draft.Some?
    && (release.draft.value ==>
         release.prerelease == Some(false) && release.id.Some? && release.id.value > 0 && AssetsValid(release.assets))
  }

  /** Every release with the prefix is understood, and no two of them have one tag. */
  ghost predicate Readable(prefix: string, releases: seq<Release>) {
    && (forall i :: 0 <= i < |releases| && Carries(prefix, releases[i]) ==> Understood(prefix, releases[i]))
    && (forall i, j :: 0 <= i < j < |releases| && Carries(prefix, releases[i]) ==> releases[i].tag != releases[j].tag)
  }

  /** The largest revision any of the releases reserves, and at least 1. */
  predicate IsMaximum(prefix: string, releases: seq<Release>, maximum: nat) {
    && 1 <= maximum
    && (forall i :: 0 <= i < |releases| && Number(prefix, releases[i]).Some? ==>
      Number(prefix, releases[i]).value <= maximum)
    && (maximum == 1 || exists i :: 0 <= i < |releases| && Number(prefix, releases[i]) == Some(maximum))
  }

  lemma MaximumUnique(prefix: string, releases: seq<Release>, a: nat, b: nat)
    requires IsMaximum(prefix, releases, a) && IsMaximum(prefix, releases, b)
    ensures a == b
  {
    if a > 1 {
      var i :| 0 <= i < |releases| && Number(prefix, releases[i]) == Some(a);
      assert a <= b;
    }
    if b > 1 {
      var i :| 0 <= i < |releases| && Number(prefix, releases[i]) == Some(b);
      assert b <= a;
    }
  }

  /** Succeeds exactly on a readable list within range, with the visible maximum plus the offset. */
  method NextWrapperRevision(space: char -> bool, releases: seq<Release>, prefix: string, runOffset: int)
    returns (revision: Option<nat>)
    ensures revision.Some? ==> revision.value > runOffset > 0 && IsMaximum(prefix, releases, revision.value - runOffset)
    ensures revision.Some? <==>
      && CleanText(space, prefix) && 1 <= runOffset <= MAX_REVISION && Readable(prefix, releases)
      && forall m: nat :: IsMaximum(prefix, releases, m) ==> m + runOffset <= MAX_REVISION
  {
    if !CleanText(space, prefix) || runOffset < 1 || runOffset > MAX_REVISION {
      return None;
    }
    hide Readable, IsMaximum, AssetsValid, CleanText, Revision, Tags;
    StartReading(prefix);
    var maximum: nat := 1;
    var seen: set<string> := {};
    for i := 0 to |releases|
      invariant Readable(prefix, releases[..i])
      invariant IsMaximum(prefix, releases[..i], maximum)
      invariant Tags(prefix, releases[..i], seen)
    {
      var release := releases[i];
      assert releases[..i + 1] == releases[..i] + [release];
      ReadNext(prefix, releases, i, seen, maximum);
      if Carries(prefix, release) {
        var number := Revision(prefix, release.tag.value);
        if number.None? || release.draft.None? || release.tag.value in seen {
          return None;
        }
        seen := seen + {release.tag.value};
        if release.draft.value {
          if release.prerelease != Some(false) || release.id.None? || release.id.value <= 0 {
            return None;
          }
          var ids := AssetIds(release.assets);
          if ids.None? {
            return None;
          }
        }
        maximum := if number.value > maximum then number.value else maximum;
      }
    }
    assert releases[..|releases|] == releases;
    if maximum + runOffset > MAX_REVISION {
      return None;
    }
    forall m: nat | IsMaximum(prefix, releases, m) ensures m == maximum {
      MaximumUnique(prefix, releases, m, maximum);
    }
    revision := Some(maximum + runOffset);
  }

  ghost predicate Tags(prefix: string, releases: seq<Release>, seen: set<string>) {
    forall tag :: tag in seen <==>
      exists k :: 0 <= k < |releases| && Carries(prefix, releases[k]) && releases[k].tag == Some(tag)
  }

  lemma StartReading(prefix: string)
    ensures Readable(prefix, []) && IsMaximum(prefix, [], 1) && Tags(prefix, [], {})
  {
  }

  /** What one more release does to the three things the loop keeps track of. */
  lemma ReadNext(prefix: string, releases: seq<Release>, i: nat, seen: set<string>, maximum: nat)
    requires i < |releases|
    requires Readable(prefix, releases[..i]) && IsMaximum(prefix, releases[..i], maximum) &&
      Tags(prefix, releases[..i], seen)
    ensures
      var release, now := releases[i], releases[..i] + [releases[i]];
      if Carries(prefix, release) then
        var number := Revision(prefix, release.tag.value);
        if Understood(prefix, release) && release.tag.value !in seen then
          && number.Some? && Readable(prefix, now) && Tags(prefix, now, seen + {release.tag.value})
          && IsMaximum(prefix, now, if number.value > maximum then number.value else maximum)
        else !Readable(prefix, releases)
      else Readable(prefix, now) && Tags(prefix, now, seen) && IsMaximum(prefix, now, maximum)
  {
    hide AssetsValid;
    MaximumGrows(prefix, releases[..i], releases[i], maximum);
    assert forall k :: 0 <= k < i ==> releases[..i][k] == releases[k];
    TagsGrow(prefix, releases[..i], seen, releases[i]);
  }

  lemma TagsGrow(prefix: string, releases: seq<Release>, seen: set<string>, release: Release)
    requires Tags(prefix, releases, seen)
    ensures Tags(prefix, releases + [release], if Carries(prefix, release) then seen + {release.tag.value} else seen)
  {
    var now := releases + [release];
    var next := if Carries(prefix, release) then seen + {release.tag.value} else seen;
    assert now[|releases|] == release;
    forall tag | tag in next
      ensures exists k :: 0 <= k < |now| && Carries(prefix, now[k]) && now[k].tag == Some(tag)
    {
      if tag in seen {
        var k :| 0 <= k < |releases| && Carries(prefix, releases[k]) && releases[k].tag == Some(tag);
        assert now[k] == releases[k];
      }
    }
  }

  lemma MaximumGrows(prefix: string, releases: seq<Release>, release: Release, maximum: nat)
    requires IsMaximum(prefix, releases, maximum)
    ensures
      var number := Number(prefix, release);
      IsMaximum(prefix, releases + [release], if number.Some? && number.value > maximum then number.value else maximum)
  {
    var next := releases + [release];
    assert next[|releases|] == release;
    if maximum != 1 {
      var i :| 0 <= i < |releases| && Number(prefix, releases[i]) == Some(maximum);
      assert next[i] == releases[i];
    }
  }

  // ----- Creating or reusing a draft -----------------------------------------------------

  predicate IsCommit(s: string) {
    |s| == 40 && forall i :: 0 <= i < |s| ==> '0' <= s[i] <= '9' || 'a' <= s[i] <= 'f'
  }

  /** `at` lists, in order, every release with this tag and draft state. */
  ghost predicate Selects(releases: seq<Release>, tag: string, draft: bool, at: seq<nat>) {
    && (forall k :: 0 <= k < |at| ==> at[k] < |releases|)
    && (forall j, k :: 0 <= j < k < |at| ==> at[j] < at[k])
    && (forall i :: 0 <= i < |releases| ==>
          (i in at <==> releases[i].tag == Some(tag) && releases[i].draft == Some(draft)))
  }

  ghost predicate DraftStatesValid(releases: seq<Release>, tag: string) {
    forall i :: 0 <= i < |releases| && releases[i].tag == Some(tag) ==>
      releases[i].draft.Some? && (releases[i].draft.value ==> releases[i].prerelease == Some(false))
  }

  lemma NothingSelected(releases: seq<Release>, tag: string)
    ensures DraftStatesValid(releases[..0], tag) && forall draft :: Selects(releases[..0], tag, draft, [])
  {
  }

  /** The next release is selected exactly when it has the tag and the draft state. */
  lemma OneMore(releases: seq<Release>, tag: string, i: nat, draft: bool, at: seq<nat>)
    requires i < |releases| && Selects(releases[..i], tag, draft, at)
    ensures
      var selected := releases[i].tag == Some(tag) && releases[i].draft == Some(draft);
      Selects(releases[..i + 1], tag, draft, if selected then at + [i] else at)
    ensures forall k :: 0 <= k < |at| ==> at[k] < i
  {
    assert releases[..i + 1] == releases[..i] + [releases[i]];
  }

  lemma StatesNext(releases: seq<Release>, tag: string, i: nat)
    requires i < |releases| && DraftStatesValid(releases[..i], tag)
    ensures
      var release := releases[i];
      var valid := release.tag == Some(tag) ==>
        release.draft.Some? && (release.draft.value ==> release.prerelease == Some(false));
      if valid then DraftStatesValid(releases[..i + 1], tag) else !DraftStatesValid(releases, tag)
  {
    assert releases[..i + 1] == releases[..i] + [releases[i]];
  }

  method ExactMatches(space: char -> bool, releases: seq<Release>, tag: string)
    returns (r: Option<(seq<Release>, seq<Release>)>, ghost draftsAt: seq<nat>, ghost publishedAt: seq<nat>)
    ensures r.Some? <==> CleanText(space, tag) && DraftStatesValid(releases, tag)
    ensures r.Some? ==>
      && Selects(releases, tag, true, draftsAt) && Selects(releases, tag, false, publishedAt)
      && |r.value.0| == |draftsAt| && |r.value.1| == |publishedAt|
      && (forall k :: 0 <= k < |draftsAt| ==> r.value.0[k] == releases[draftsAt[k]])
      && (forall k :: 0 <= k < |publishedAt| ==> r.value.1[k] == releases[publishedAt[k]])
  {
    hide CleanText, Selects, DraftStatesValid;
    draftsAt, publishedAt := [], [];
    NothingSelected(releases, tag);
    if !CleanText(space, tag) {
      return None, [], [];
    }
    var drafts: seq<Release>, published: seq<Release> := [], [];
    for i := 0 to |releases|
      invariant DraftStatesValid(releases[..i], tag)
      invariant Selects(releases[..i], tag, true, draftsAt) && Selects(releases[..i], tag, false, publishedAt)
      invariant (forall k :: 0 <= k < |draftsAt| ==> draftsAt[k] < i) &&
        (forall k :: 0 <= k < |publishedAt| ==> publishedAt[k] < i)
      invariant |drafts| == |draftsAt| && |published| == |publishedAt|
      invariant forall k :: 0 <= k < |draftsAt| ==> drafts[k] == releases[draftsAt[k]]
      invariant forall k :: 0 <= k < |publishedAt| ==> published[k] == releases[publishedAt[k]]
    {
      var release := releases[i];
      OneMore(releases, tag, i, true, draftsAt);
      OneMore(releases, tag, i, false, publishedAt);
      StatesNext(releases, tag, i);
      if release.tag == Some(tag) {
        if release.draft.None? || (release.draft.value && release.prerelease != Some(false)) {
          return None, [], [];
        }
        if release.draft.value {
          drafts, draftsAt := drafts + [release], draftsAt + [i];
        } else {
          published, publishedAt := published + [release], publishedAt + [i];
        }
      }
    }
    assert releases[..|releases|] == releases;
    r := Some((drafts, published));
  }

  /** The one release with this tag is a draft of this commit that can be taken over. */
  ghost predicate SoleDraft(releases: seq<Release>, tag: string, commit: string, i: nat) {
    && i < |releases|
    && (forall k :: 0 <= k < |releases| ==> (releases[k].tag == Some(tag) <==> k == i))
    && releases[i].draft == Some(true) && releases[i].prerelease == Some(false)
    && releases[i].target == Some(commit)
    && releases[i].id.Some? && releases[i].id.value > 0 && AssetsValid(releases[i].assets)
  }

  /** How many drafts and public releases were selected tells which releases have the tag. */
  lemma SelectionCounts(releases: seq<Release>, tag: string, draftsAt: seq<nat>, publishedAt: seq<nat>)
    requires DraftStatesValid(releases, tag)
    requires Selects(releases, tag, true, draftsAt) && Selects(releases, tag, false, publishedAt)
    ensures draftsAt == publishedAt == [] <==> forall i :: 0 <= i < |releases| ==> releases[i].tag != Some(tag)
    ensures publishedAt != [] || |draftsAt| > 1 ==> forall i, commit :: !SoleDraft(releases, tag, commit, i)
    ensures publishedAt == [] && |draftsAt| == 1 ==>
      && draftsAt[0] < |releases|
      && releases[draftsAt[0]].draft == Some(true) && releases[draftsAt[0]].prerelease == Some(false)
      && forall k :: 0 <= k < |releases| ==> (releases[k].tag == Some(tag) <==> k == draftsAt[0])
  {
    if publishedAt != [] {
      assert publishedAt[0] in publishedAt;
    }
    if draftsAt != [] {
      assert draftsAt[0] in draftsAt;
    }
    if |draftsAt| > 1 {
      assert draftsAt[1] in draftsAt && draftsAt[0] != draftsAt[1];
    }
    if publishedAt == [] && |draftsAt| == 1 {
      forall k | 0 <= k < |releases| ensures releases[k].tag == Some(tag) <==> k == draftsAt[0] {
        assert k in draftsAt <==> k == draftsAt[0];
        if releases[k].tag == Some(tag) {
          var state := releases[k].draft.value;
          assert releases[k].draft == Some(state);
          assert state || k in publishedAt;
        }
      }
    }
  }

  predicate Ascending(a: int, b: int) {
    a < b
  }

  /**
   * A draft is created exactly when nothing has the tag, and reused exactly when the only
   * release with the tag is a sound draft of the same commit; anything else is refused.
   */
  method PreparePlan(space: char -> bool, releases: seq<Release>, tag: string, commit: string)
    returns (plan: Option<Plan>)
    ensures plan == Some(Create) <==>
      IsCommit(commit) && CleanText(space, tag) && forall i :: 0 <= i < |releases| ==> releases[i].tag != Some(tag)
    ensures plan.Some? && plan.value.Reuse? <==>
      IsCommit(commit) && CleanText(space, tag) && exists i: nat :: SoleDraft(releases, tag, commit, i)
    ensures plan.Some? && plan.value.Reuse? ==>
      exists i: nat :: SoleDraft(releases, tag, commit, i) && plan.value.draftId == releases[i].id.value
               && |plan.value.assetIds| == |releases[i].assets.value|
               && (forall x :: x in plan.value.assetIds <==> Some(x) in releases[i].assets.value)
               && forall j, k :: 0 <= j < k < |plan.value.assetIds| ==> plan.value.assetIds[j] < plan.value.assetIds[k]
  {
    hide AssetsValid, IsCommit, CleanText, Selects, Ordering.Sort;
    if !IsCommit(commit) {
      return None;
    }
    var matches, draftsAt, publishedAt := ExactMatches(space, releases, tag);
    if matches.None? {
      return None;
    }
    SelectionCounts(releases, tag, draftsAt, publishedAt);
    var drafts, published := matches.value.0, matches.value.1;
    if published != [] || |drafts| > 1 {
      return None;
    }
    if drafts == [] {
      return Some(Create);
    }
    var draft := drafts[0];
    if draft.target != Some(commit) || draft.id.None? || draft.id.value <= 0 {
      return None;
    }
    var ids := AssetIds(draft.assets);
    if ids.None? {
      return None;
    }
    IdsDistinct(draft.assets, ids.value);
    SortedIds(ids.value);
    plan := Some(Reuse(draft.id.value, Ordering.Sort(Ascending, ids.value)));
    assert SoleDraft(releases, tag, commit, draftsAt[0]);
  }

  lemma IdsDistinct(assets: Option<seq<Option<int>>>, ids: seq<int>)
    requires AssetsValid(assets) && |ids| == |assets.value|
    requires forall i :: 0 <= i < |ids| ==> assets.value[i] == Some(ids[i])
    ensures forall i, j :: 0 <= i < j < |ids| ==> ids[i] != ids[j]
    ensures forall x :: x in ids <==> Some(x) in assets.value
  {
  }

  lemma SortedIds(ids: seq<int>)
    requires forall i, j :: 0 <= i < j < |ids| ==> ids[i] != ids[j]
    ensures
      var sorted := Ordering.Sort(Ascending, ids);
      && |sorted| == |ids| && (forall x :: x in sorted <==> x in ids)
      && forall j, k :: 0 <= j < k < |sorted| ==> sorted[j] < sorted[k]
  {
    Ordering.SortDistinct(Ascending, ids);
  }
}
