/** The members of a finished build, and sums over them. */
module BuiltMembers {
  import opened Wrappers
  import opened FiniteSums
  import opened Ordering
  import opened SourceArchive
  import opened SourceBudget
  import opened BuilderAudit
  import opened SourceTree
  import T = Topology

  function FileMember(ctx: Context): Path -> Member {
    (relative: Path) => Member(ctx.prefix + relative, T.RegularFile)
  }

  function DirectoryMember(ctx: Context): Path -> Member {
    (relative: Path) => Member(ctx.prefix + relative, T.Directory)
  }

  ghost function FileMembers(ctx: Context): set<Member> {
    Image(ctx.manifest.Keys, FileMember(ctx))
  }

  ghost function DirectoryMembers(ctx: Context): set<Member> {
    Image(ctx.directories, DirectoryMember(ctx))
  }

  lemma {:induction false} AncestorsWritten(ms: seq<Member>, ctx: Context, r: Path, d: Path)
    requires Block(ms, ctx.prefix, ctx) && d != [] && d < r
    requires exists i :: 0 <= i < |ms| && ms[i].path == ctx.prefix + r
    ensures HasDirectory(ms, ctx.prefix + d)
    decreases |r|
  {
    hide InOrder, Under, AllExpected;
    var i :| 0 <= i < |ms| && ms[i].path == ctx.prefix + r;
    var above := r[..|r| - 1];
    assert Parent(ms[i].path) == ctx.prefix + above;
    assert HasDirectory(ms, ctx.prefix + above);
    if d != above {
      AncestorsWritten(ms, ctx, above, d);
    }
  }

  /** A finished build has written one member for every file and every directory, and no others. */
  lemma MembersExact(entries: seq<Named>, ctx: Context, p: Progress)
    requires Built(entries, ctx, p)
    ensures (set m | m in p.members) == FileMembers(ctx) + DirectoryMembers(ctx)
    ensures FileMembers(ctx) !! DirectoryMembers(ctx)
    ensures [] !in ctx.manifest && [] !in ctx.directories
  {
    hide WalkDirectory, DistinctEntries, InOrder, ParentsWithin, LessPath;
    BuiltBlock(entries, ctx, p);
    var ms := p.members;
    forall m | m in ms ensures m in FileMembers(ctx) + DirectoryMembers(ctx) {
      var i :| 0 <= i < |ms| && ms[i] == m;
      assert Expected(ms[i], ctx);
      var relative := m.path[|ctx.prefix|..];
      assert m.path == ctx.prefix + relative;
      assert m == FileMember(ctx)(relative) || m == DirectoryMember(ctx)(relative);
    }
    forall r | r in ctx.manifest ensures r != [] && FileMember(ctx)(r) in ms {
      assert r in p.seen;
      var i :| 0 <= i < |ms| && ms[i] == Member(ctx.prefix + r, T.RegularFile);
      assert ctx.prefix < ms[i].path;
    }
    forall d | d in ctx.directories ensures d != [] && DirectoryMember(ctx)(d) in ms {
      var r :| r in ctx.manifest && d < r && d != [];
      assert FileMember(ctx)(r) in ms;
      var i :| 0 <= i < |ms| && ms[i] == FileMember(ctx)(r);
      AncestorsWritten(ms, ctx, r, d);
      var k :| 0 <= k < |ms| && ms[k] == Member(ctx.prefix + d, T.Directory);
    }
  }

  lemma MembersDistinct(ms: seq<Member>)
    requires InOrder(ms)
    ensures forall i, j :: 0 <= i < j < |ms| ==> ms[i] != ms[j]
  {
    forall i, j | 0 <= i < j < |ms| ensures ms[i] != ms[j] {
      if ms[i].path == ms[j].path {
        SamePathSameMember(ms, i, j);
      }
    }
  }

  lemma FileTotal(ctx: Context, weight: Member -> nat, files: Path -> nat)
    requires forall r :: r in ctx.manifest ==> files(r) == weight(FileMember(ctx)(r))
    ensures SumOver(FileMembers(ctx), weight) == SumOver(ctx.manifest.Keys, files) &&
      |FileMembers(ctx)| == |ctx.manifest|
  {
    Injective(ctx);
    hide SumOver, FileMember;
    SumImage(ctx.manifest.Keys, FileMember(ctx), files, weight);
    assert |ctx.manifest.Keys| == |ctx.manifest|;
  }

  lemma DirectoryTotal(ctx: Context, weight: Member -> nat, directories: Path -> nat)
    requires forall d :: d in ctx.directories ==> directories(d) == weight(DirectoryMember(ctx)(d))
    ensures SumOver(DirectoryMembers(ctx), weight) == SumOver(ctx.directories, directories)
    ensures |DirectoryMembers(ctx)| == |ctx.directories|
  {
    Injective(ctx);
    hide SumOver, DirectoryMember;
    SumImage(ctx.directories, DirectoryMember(ctx), directories, weight);
  }

  /** A sum over the members is the sum over the files and the sum over the directories. */
  lemma MemberTotal(entries: seq<Named>, ctx: Context, p: Progress,
                    weight: Member -> nat, files: Path -> nat, directories: Path -> nat)
    requires Built(entries, ctx, p)
    requires forall r :: r in ctx.manifest ==> files(r) == weight(FileMember(ctx)(r))
    requires forall d :: d in ctx.directories ==> directories(d) == weight(DirectoryMember(ctx)(d))
    ensures Total(p.members, weight) == SumOver(ctx.manifest.Keys, files) + SumOver(ctx.directories, directories)
    ensures |p.members| == |ctx.manifest| + |ctx.directories|
  {
    hide *;
    MembersExact(entries, ctx, p);
    InOrderMembers(entries, ctx, p);
    MembersDistinct(p.members);
    TotalDistinct(p.members, weight);
    SumUnion(FileMembers(ctx), DirectoryMembers(ctx), weight);
    FileTotal(ctx, weight, files);
    DirectoryTotal(ctx, weight, directories);
    assert |FileMembers(ctx) + DirectoryMembers(ctx)| == |FileMembers(ctx)| + |DirectoryMembers(ctx)|;
  }

  lemma InOrderMembers(entries: seq<Named>, ctx: Context, p: Progress)
    requires Built(entries, ctx, p)
    ensures InOrder(p.members)
  {
    hide WalkDirectory, DistinctEntries;
    BuiltBlock(entries, ctx, p);
  }

  lemma Injective(ctx: Context)
    ensures forall a, b :: FileMember(ctx)(a) == FileMember(ctx)(b) ==> a == b
    ensures forall a, b :: DirectoryMember(ctx)(a) == DirectoryMember(ctx)(b) ==> a == b
  {
    forall a: Path ensures (ctx.prefix + a)[|ctx.prefix|..] == a {
    }
    forall a: Path, b: Path | ctx.prefix + a == ctx.prefix + b ensures a == b {
      assert (ctx.prefix + a)[|ctx.prefix|..] == (ctx.prefix + b)[|ctx.prefix|..];
    }
  }
}
