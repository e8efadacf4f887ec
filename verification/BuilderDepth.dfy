/** Path depth: the builder limits paths below the prefix, the auditor limits whole member paths. */
module BuilderDepth {
  import opened Wrappers
  import opened Ordering
  import opened SourceArchive
  import opened BuilderAudit
  import T = Topology

  const MAX_MEMBER_PARTS: nat := 128

  ghost predicate DepthPasses(ms: seq<Member>) {
    forall m :: m in ms ==> |m.path| <= MAX_MEMBER_PARTS
  }

  /** A finished build passes the auditor's depth limit exactly when prefix and file path fit together. */
  lemma DepthExact(entries: seq<Named>, ctx: Context, p: Progress)
    requires Built(entries, ctx, p)
    ensures DepthPasses(p.members) <==> forall r :: r in ctx.manifest ==> |ctx.prefix| + |r| <= MAX_MEMBER_PARTS
  {
    hide WalkDirectory, DistinctEntries, InOrder, ParentsWithin, Under, LessPath;
    BuiltBlock(entries, ctx, p);
    forall r | r in ctx.manifest
      ensures exists m :: m in p.members && |m.path| == |ctx.prefix| + |r|
    {
      assert r in p.seen;
      var i :| 0 <= i < |p.members| && p.members[i] == Member(ctx.prefix + r, T.RegularFile);
      assert p.members[i] in p.members;
    }
    forall m | m in p.members
      ensures exists r :: r in ctx.manifest && |m.path| <= |ctx.prefix| + |r|
    {
      var i :| 0 <= i < |p.members| && p.members[i] == m;
      assert Expected(p.members[i], ctx);
    }
  }

  // ----- A tree in the gap ---------------------------------------------------------------

  const LEAF := FileRecord(0, false, [])

  /** The path "a/a/…/a". */
  function Steps(n: nat): (path: Path)
    ensures |path| == n && forall i :: 0 <= i < n ==> path[i] == "a"
  {
    seq(n, i => "a")
  }

  /** A file below `n` nested directories, all of them called "a". */
  function Nest(n: nat): Named {
    if n == 0 then Named("a", File(LEAF)) else Named("a", Directory([Nest(n - 1)]))
  }

  function GapContext(): Context {
    Context(["p"], map[Steps(MAX_DEPTH) := LEAF], set k | 1 <= k < MAX_DEPTH :: Steps(k))
  }

  lemma {:induction false} StepsBytes(path: Path)
    requires forall i :: 0 <= i < |path| ==> |path[i]| == 1 && path[i][0] < 128 as char
    ensures PathBytes(path) <= 2 * |path|
  {
    if path != [] {
      var name := path[0];
      assert NameBytes(name[1..]) == 0;
      assert CharBytes(name[0]) == 1;
      StepsBytes(path[1..]);
    }
  }

  lemma {:induction false} NestIsDistinct(n: nat)
    ensures DistinctNames(Nest(n).node) && DistinctEntries([Nest(n)])
  {
    if n > 0 {
      NestIsDistinct(n - 1);
    }
  }

  lemma {:induction false} NestWalks(n: nat, k: nat, s: Progress) returns (t: Progress)
    requires k + n + 1 == MAX_DEPTH && s.copied == 0
    ensures WalkEntry(Nest(n), Steps(k), k, s, GapContext()) == Ok(t)
    ensures t.seen == s.seen + {Steps(MAX_DEPTH)}
    decreases n
  {
    var ctx := GapContext();
    var child := Steps(k) + ["a"];
    assert child == Steps(k + 1);
    StepsBytes(child);
    StepsBytes(["p"] + child);
    assert WithinLimits(child, ctx.prefix);
    if n == 0 {
      t := Progress(s.members + [Member(ctx.prefix + child, T.RegularFile)], s.seen + {child}, 0);
    } else {
      assert child in ctx.directories;
      var entered := s.(members := s.members + [Member(ctx.prefix + child, T.Directory)]);
      t := NestWalks(n - 1, k + 1, entered);
      SingleWalks(Nest(n - 1), child, k + 1, entered, t, ctx);
    }
  }

  lemma SingleWalks(entry: Named, relative: Path, depth: nat, s: Progress, t: Progress, ctx: Context)
    requires depth <= MAX_DEPTH && entry.name == "a" && WalkEntry(entry, relative, depth, s, ctx) == Ok(t)
    ensures WalkDirectory([entry], relative, depth, s, ctx) == Ok(t)
  {
    assert Sort(LessEntry, [entry]) == [entry];
    assert NameBytes("a") == 1;
    assert ListingBytes([entry]) == 1;
    assert WalkEntries([entry], relative, depth, s, ctx) == WalkEntries([entry][1..], relative, depth, t, ctx);
  }

  lemma GapDirectories()
    ensures ImpliedDirectories(GapContext().directories, GapContext().manifest)
  {
    var ctx := GapContext();
    assert Steps(MAX_DEPTH) in ctx.manifest;
    forall d: Path ensures d in ctx.directories <==> exists r :: r in ctx.manifest && d < r && d != [] {
      if d in ctx.directories {
        var k :| 1 <= k < MAX_DEPTH && d == Steps(k);
        assert d < Steps(MAX_DEPTH) && d != [];
      }
      if r :| r in ctx.manifest && d < r && d != [] {
        assert |d| < MAX_DEPTH;
        assert d == Steps(|d|);
      }
    }
  }

  /**
   * A file 128 names below the prefix: the builder finishes, the topology check is content,
   * and one member still has 129 parts.
   */
  lemma DeepestTreeFailsDepth() returns (p: Progress)
    ensures Built([Nest(MAX_DEPTH - 1)], GapContext(), p)
    ensures AuditReport(p.members) == [] && !DepthPasses(p.members)
  {
    var ctx := GapContext();
    p := NestWalks(MAX_DEPTH - 1, 0, NOTHING_WRITTEN);
    assert Steps(0) == [];
    NestIsDistinct(MAX_DEPTH - 1);
    GapDirectories();
    SingleWalks(Nest(MAX_DEPTH - 1), [], 0, NOTHING_WRITTEN, p, ctx);
    assert p.seen == ctx.manifest.Keys;
    BuiltArchiveAccepted([Nest(MAX_DEPTH - 1)], ctx, p);
    DepthExact([Nest(MAX_DEPTH - 1)], ctx, p);
    assert Steps(MAX_DEPTH) in ctx.manifest;
  }
}
