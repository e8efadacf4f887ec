/** The archive the builder writes, read back by the auditor's topology check. */
module BuilderAudit {
  import opened Wrappers
  import opened Ordering
  import opened SourceArchive
  import T = Topology

  // ---- the auditor's tables ----

  function Paths(ms: seq<Member>): (ps: seq<Path>)
    ensures |ps| == |ms| && forall i :: 0 <= i < |ms| ==> ps[i] == ms[i].path
  {
    seq(|ms|, i requires 0 <= i < |ms| => ms[i].path)
  }

  /** Keys of the kind dictionary, in the order of first insertion. */
  function KeyOrder(ms: seq<Member>): seq<Path> {
    if ms == [] then []
    else
      var front, last := KeyOrder(ms[..|ms| - 1]), ms[|ms| - 1].path;
      if last in front then front else front + [last]
  }

  /** Every kind a path was recorded with. */
  function KindTable(ms: seq<Member>): T.Kinds {
    map p | p in Paths(ms) :: set m | m in ms && m.path == p :: m.kind
  }

  lemma {:induction false} KeyOrderExact(ms: seq<Member>)
    ensures Distinct(KeyOrder(ms))
    ensures forall p :: p in KeyOrder(ms) <==> p in Paths(ms)
  {
    if ms != [] {
      var front, last := ms[..|ms| - 1], ms[|ms| - 1];
      KeyOrderExact(front);
      assert ms == front + [last];
      assert Paths(ms) == Paths(front) + [last.path];
    }
  }

  /** Key `j` first occurs at `k`: the keys before it are exactly the paths before that. */
  ghost predicate FirstAt(order: seq<Path>, paths: seq<Path>, j: nat, k: nat)
    requires j < |order| && k < |paths|
  {
    paths[k] == order[j] && order[j] !in paths[..k] && forall p :: p in order[..j] <==> p in paths[..k]
  }

  /** The keys stand in the order in which the paths first appear. */
  lemma {:induction false} KeyOrderFirst(ms: seq<Member>, j: nat) returns (k: nat)
    requires j < |KeyOrder(ms)|
    ensures k < |ms| && FirstAt(KeyOrder(ms), Paths(ms), j, k)
  {
    hide FirstAt;
    var n := |ms| - 1;
    var front := ms[..n];
    KeyOrderExact(front);
    assert ms == front + [ms[n]] && Paths(ms) == Paths(front) + [ms[n].path];
    if j < |KeyOrder(front)| {
      k := KeyOrderFirst(front, j);
      FirstStays(KeyOrder(front), KeyOrder(ms), Paths(front), Paths(ms), j, k);
    } else {
      k := n;
      FirstLast(KeyOrder(front), Paths(front), ms[n].path);
    }
  }

  lemma FirstStays(front: seq<Path>, order: seq<Path>, paths: seq<Path>, more: seq<Path>, j: nat, k: nat)
    requires front <= order && paths <= more && j < |front| && k < |paths| && FirstAt(front, paths, j, k)
    ensures FirstAt(order, more, j, k)
  {
    assert order[..j] == front[..j] && more[..k] == paths[..k];
  }

  lemma FirstLast(front: seq<Path>, paths: seq<Path>, last: Path)
    requires last !in front && forall p :: p in front <==> p in paths
    ensures FirstAt(front + [last], paths + [last], |front|, |paths|)
  {
    assert (front + [last])[..|front|] == front && (paths + [last])[..|paths|] == paths;
  }

  /** The auditor's tables hold each path once. */
  lemma TableExact(ms: seq<Member>)
    ensures T.Table(KeyOrder(ms), KindTable(ms))
  {
    KeyOrderExact(ms);
  }

  /** A path is a key with a kind exactly when it was recorded with that kind. */
  lemma KindsExact(ms: seq<Member>)
    ensures forall p, k :: p in KindTable(ms) && k in KindTable(ms)[p] <==> Member(p, k) in ms
  {
    forall p, k | Member(p, k) in ms ensures p in KindTable(ms) && k in KindTable(ms)[p] {
      var i :| 0 <= i < |ms| && ms[i] == Member(p, k);
      assert Paths(ms)[i] == p;
    }
  }

  function AuditReport(ms: seq<Member>): seq<T.Failure> {
    TableExact(ms);
    T.Report(Paths(ms), KeyOrder(ms), KindTable(ms))
  }

  // ---- the builder's side ----

  /** The directories a manifest of files implies. */
  ghost predicate ImpliedDirectories(directories: set<Path>, manifest: Manifest) {
    forall d :: d in directories <==> exists r :: r in manifest && d < r && d != []
  }

  /** The walk finished and every file of the manifest was seen. */
  ghost predicate Built(entries: seq<Named>, ctx: Context, p: Progress) {
    && DistinctEntries(entries) && ctx.prefix != []
    && ImpliedDirectories(ctx.directories, ctx.manifest)
    && WalkDirectory(entries, [], 0, NOTHING_WRITTEN, ctx) == Ok(p)
    && p.seen == ctx.manifest.Keys
  }

  lemma BuiltBlock(entries: seq<Named>, ctx: Context, p: Progress)
    requires Built(entries, ctx, p)
    ensures ctx.prefix != [] && Block(p.members, ctx.prefix, ctx) && Sees(p.seen, {}, p.members, ctx.prefix)
  {
    WalkDirectoryWrites(entries, [], 0, NOTHING_WRITTEN, ctx);
    assert ctx.prefix + [] == ctx.prefix;
    assert p.members[0..] == p.members;
  }

  lemma SamePathSameMember(ms: seq<Member>, i: nat, j: nat)
    requires InOrder(ms) && i < |ms| && j < |ms| && ms[i].path == ms[j].path
    ensures i == j
  {
    PathsOrdered();
  }

  lemma KindsSingle(ms: seq<Member>, i: nat)
    requires InOrder(ms) && i < |ms|
    ensures ms[i].path in KindTable(ms) && KindTable(ms)[ms[i].path] == {ms[i].kind}
  {
    var p := ms[i].path;
    assert Paths(ms)[i] == p;
    forall m | m in ms && m.path == p ensures m == ms[i] {
      var j :| 0 <= j < |ms| && ms[j] == m;
      SamePathSameMember(ms, i, j);
    }
    assert ms[i] in ms;
  }

  /** The member that a key of the kind table comes from. */
  lemma KeyMember(ms: seq<Member>, p: Path) returns (i: nat)
    requires InOrder(ms) && p in KindTable(ms)
    ensures i < |ms| && ms[i].path == p && KindTable(ms)[p] == {ms[i].kind}
  {
    i :| 0 <= i < |Paths(ms)| && Paths(ms)[i] == p;
    KindsSingle(ms, i);
  }

  lemma BuiltDirectoriesFilled(entries: seq<Named>, ctx: Context, p: Progress, d: Path)
    requires Built(entries, ctx, p)
    requires d in KindTable(p.members) && T.Directory in KindTable(p.members)[d]
    ensures T.HoldsPureFile(KindTable(p.members), d)
  {
    BuiltBlock(entries, ctx, p);
    hide WalkDirectory, KindTable, DistinctEntries, T.HoldsPureFile;
    var i := KeyMember(p.members, d);
    assert Expected(p.members[i], ctx);
    assert ctx.prefix <= d && d[|ctx.prefix|..] in ctx.directories;
    assert p.seen == ctx.manifest.Keys;
    DirectoryFilled(p.members, p.seen, ctx, d);
  }

  lemma DirectoryFilled(ms: seq<Member>, seen: set<Path>, ctx: Context, d: Path)
    requires InOrder(ms) && Sees(seen, {}, ms, ctx.prefix) && seen == ctx.manifest.Keys
    requires ImpliedDirectories(ctx.directories, ctx.manifest)
    requires ctx.prefix <= d && d[|ctx.prefix|..] in ctx.directories
    ensures T.HoldsPureFile(KindTable(ms), d)
  {
    var relative := d[|ctx.prefix|..];
    var r :| r in ctx.manifest && relative < r;
    assert r in seen;
    var j :| 0 <= j < |ms| && ms[j] == Member(ctx.prefix + r, T.RegularFile);
    KindsSingle(ms, j);
    hide KindTable;
    assert d == ctx.prefix + relative && d < ctx.prefix + r;
    assert T.PureFile(KindTable(ms)[ctx.prefix + r]);
  }

  lemma BuiltSorted(ms: seq<Member>)
    requires InOrder(ms)
    ensures NonDecreasing(LessPath, Paths(ms))
  {
    PathsOrdered();
    forall i, j | 0 <= i < j < |ms| ensures !LessPath(Paths(ms)[j], Paths(ms)[i]) {
      assert LessPath(ms[i].path, ms[j].path);
    }
  }

  lemma BuiltParents(ms: seq<Member>, ctx: Context)
    requires Block(ms, ctx.prefix, ctx) && |ctx.prefix| == 1
    ensures T.ParentsPresent(KindTable(ms))
  {
    forall p | p in KindTable(ms) && |p| > 2
      ensures p[..|p| - 1] in KindTable(ms) && T.Directory in KindTable(ms)[p[..|p| - 1]]
    {
      var i := KeyMember(ms, p);
      assert HasDirectory(ms, Parent(ms[i].path));
      var k :| 0 <= k < |ms| && ms[k] == Member(Parent(p), T.Directory);
      KindsSingle(ms, k);
    }
  }

  /** Below a deeper prefix the first member stands in a directory the archive does not contain. */
  lemma DeepPrefixOrphans(ms: seq<Member>, ctx: Context)
    requires Block(ms, ctx.prefix, ctx) && |ctx.prefix| >= 2 && ms != []
    ensures !T.ParentsPresent(KindTable(ms))
  {
    var top := Shortest(ms);
    KindsSingle(ms, top);
    var p := ms[top].path;
    assert ctx.prefix < p && |p| > 2;
    if Parent(p) in KindTable(ms) {
      var i := KeyMember(ms, Parent(p));
      assert false;
    }
  }

  lemma {:induction false} Shortest(ms: seq<Member>) returns (k: nat)
    requires ms != []
    ensures k < |ms| && forall i :: 0 <= i < |ms| ==> |ms[k].path| <= |ms[i].path|
  {
    if |ms| == 1 {
      k := 0;
    } else {
      var j := Shortest(ms[1..]);
      assert forall i :: 1 <= i < |ms| ==> ms[i] == ms[1..][i - 1];
      k := if |ms[0].path| <= |ms[j + 1].path| then 0 else j + 1;
    }
  }

  /**
   * A finished build passes the auditor's topology check exactly when its prefix is one name, or
   * nothing was written.
   */
  lemma BuiltArchiveAccepted(entries: seq<Named>, ctx: Context, p: Progress)
    requires Built(entries, ctx, p)
    ensures AuditReport(p.members) == [] <==> |ctx.prefix| == 1 || p.members == []
  {
    hide WalkDirectory, KindTable, KeyOrder, DistinctEntries, Paths, T.HoldsPureFile, T.ParentsPresent, T.Report,
      T.Table, NonDecreasing, ParentsWithin, Sees, Built;
    var ms := p.members;
    BuiltBlock(entries, ctx, p);
    TableExact(ms);
    T.AcceptedExact(Paths(ms), KeyOrder(ms), KindTable(ms));
    BuiltSorted(ms);
    NoRootMember(ms, ctx);
    forall d | d in KindTable(ms) && T.Directory in KindTable(ms)[d] ensures T.HoldsPureFile(KindTable(ms), d) {
      BuiltDirectoriesFilled(entries, ctx, p, d);
    }
    if ms == [] {
      NothingBuilt();
    } else if |ctx.prefix| == 1 {
      BuiltParents(ms, ctx);
    } else {
      DeepPrefixOrphans(ms, ctx);
    }
  }

  lemma NoRootMember(ms: seq<Member>, ctx: Context)
    requires Block(ms, ctx.prefix, ctx) && ctx.prefix != []
    ensures forall q :: q in Paths(ms) ==> |q| != 1
  {
    forall q | q in Paths(ms) ensures |q| != 1 {
      var i :| 0 <= i < |ms| && Paths(ms)[i] == q;
      assert ctx.prefix < ms[i].path;
    }
  }

  lemma NothingBuilt()
    ensures T.ParentsPresent(KindTable([]))
  {
  }

  // ---- member names as text ----

  function JoinPath(path: Path): string {
    if path == [] then ""
    else if |path| == 1 then path[0]
    else path[0] + "/" + JoinPath(path[1..])
  }

  /** Splitting a name at its slashes, as a pure path does: empty parts and single dots vanish. */
  function ParsePath(text: string, part: Name): Path {
    if text == "" then Keep(part)
    else if text[0] == '/' then Keep(part) + ParsePath(text[1..], "")
    else ParsePath(text[1..], part + [text[0]])
  }

  function Keep(part: Name): Path {
    if part == "" || part == "." then [] else [part]
  }

  lemma {:induction false} ParsesPart(name: Name, rest: string, part: Name)
    requires '/' !in name
    ensures ParsePath(name + rest, part) == ParsePath(rest, part + name)
  {
    if name == "" {
      assert name + rest == rest && part + name == part;
    } else {
      assert (name + rest)[1..] == name[1..] + rest;
      ParsesPart(name[1..], rest, part + [name[0]]);
      assert part + [name[0]] + name[1..] == part + name;
    }
  }

  /** The auditor recovers from a member name exactly the parts the builder joined. */
  lemma {:induction false} ParsesJoined(path: Path)
    requires forall i :: 0 <= i < |path| ==> SafeName(path[i])
    ensures ParsePath(JoinPath(path), "") == path
  {
    if path != [] {
      var rest := if |path| == 1 then "" else "/" + JoinPath(path[1..]);
      assert JoinPath(path) == path[0] + rest;
      ParsesPart(path[0], rest, "");
      assert "" + path[0] == path[0];
      if |path| > 1 {
        ParsesJoined(path[1..]);
        assert rest[1..] == JoinPath(path[1..]);
        assert [path[0]] + path[1..] == path;
      }
    }
  }
}
