/** Bytes of all member names: the builder counts paths below the prefix, the auditor whole names. */
module BuilderNames {
  import opened Wrappers
  import opened FiniteSums
  import opened Ordering
  import opened SourceArchive
  import opened SourceBudget
  import opened BuilderAudit
  import opened BuilderDepth
  import opened BuiltMembers
  import opened SourceTree
  import T = Topology

  const MAX_RETAINED_NAME_BYTES: nat := 16 * 1024 * 1024

  function MemberNameBytes(m: Member): nat {
    PathBytes(m.path)
  }

  ghost function NameTotal(ms: seq<Member>): nat {
    Total(ms, MemberNameBytes)
  }

  /** The auditor adds name after name and stops at the first sum above the limit. */
  method RetainNames(ms: seq<Member>) returns (ok: bool)
    ensures ok <==> NameTotal(ms) <= MAX_RETAINED_NAME_BYTES
  {
    hide PathBytes;
    var retained := 0;
    assert ms[0..] == ms;
    for i := 0 to |ms|
      invariant retained + Total(ms[i..], MemberNameBytes) == NameTotal(ms)
      invariant retained <= MAX_RETAINED_NAME_BYTES
    {
      assert ms[i..][1..] == ms[i + 1..];
      retained := retained + PathBytes(ms[i].path);
      if retained > MAX_RETAINED_NAME_BYTES {
        return false;
      }
    }
    ok := true;
  }

  lemma {:induction false} PathBytesJoin(a: Path, b: Path)
    requires a != [] && b != []
    ensures PathBytes(a + b) == PathBytes(b) + (PathBytes(a) + 1)
  {
    if |a| == 1 {
      assert (a + b)[1..] == b;
    } else {
      assert (a + b)[1..] == a[1..] + b;
      PathBytesJoin(a[1..], b);
    }
  }

  /**
   * A finished build passes the auditor's limit on all names together exactly when the bytes the
   * builder counted, and prefix and slash once more for every member, are within it.
   */
  lemma NamesExact(entries: seq<Named>, ctx: Context, p: Progress)
    requires Built(entries, ctx, p)
    ensures NameTotal(p.members) == RetainedBytes(ctx.manifest.Keys) + (PathBytes(ctx.prefix) + 1) * |p.members|
  {
    hide *;
    MembersExact(entries, ctx, p);
    PrefixNonempty(entries, ctx, p);
    forall path | path in ctx.manifest || path in ctx.directories
      ensures WholeBytes(ctx.prefix)(path) == MemberNameBytes(FileMember(ctx)(path))
      ensures WholeBytes(ctx.prefix)(path) == MemberNameBytes(DirectoryMember(ctx)(path))
    {
      WholeName(ctx, path);
    }
    MemberTotal(entries, ctx, p, MemberNameBytes, WholeBytes(ctx.prefix), WholeBytes(ctx.prefix));
    WholeSums(ctx.prefix, ctx.manifest.Keys);
    TotalsAre(p.members, ctx.manifest.Keys);
    assert |ctx.manifest.Keys| == |ctx.manifest|;
  }

  function WholeBytes(prefix: Path): Path -> nat {
    (path: Path) => PathBytes(path) + (PathBytes(prefix) + 1)
  }

  lemma WholeSums(prefix: Path, files: set<Path>)
    ensures SumOver(files, WholeBytes(prefix)) + SumOver(Directories(files), WholeBytes(prefix))
         == RetainedBytes(files) + (PathBytes(prefix) + 1) * (|files| + |Directories(files)|)
  {
    hide SumOver, Directories, PathBytes;
    var c := PathBytes(prefix) + 1;
    SumShift(files, PathBytes, WholeBytes(prefix), c);
    SumShift(Directories(files), PathBytes, WholeBytes(prefix), c);
    Distribute(c, |files|, |Directories(files)|);
  }

  lemma WholeName(ctx: Context, path: Path)
    requires ctx.prefix != [] && path != []
    ensures MemberNameBytes(FileMember(ctx)(path)) == WholeBytes(ctx.prefix)(path)
    ensures MemberNameBytes(DirectoryMember(ctx)(path)) == WholeBytes(ctx.prefix)(path)
  {
    PathBytesJoin(ctx.prefix, path);
  }

  lemma TotalsAre(ms: seq<Member>, files: set<Path>)
    ensures NameTotal(ms) == Total(ms, MemberNameBytes)
    ensures RetainedBytes(files) == SumOver(files, PathBytes) + SumOver(Directories(files), PathBytes)
  {
  }

  lemma Distribute(c: nat, m: nat, n: nat)
    ensures c * (m + n) == c * m + c * n
  {
  }

  lemma PrefixNonempty(entries: seq<Named>, ctx: Context, p: Progress)
    requires Built(entries, ctx, p)
    ensures ctx.prefix != [] && ctx.directories == Directories(ctx.manifest.Keys)
  {
    hide WalkDirectory, DistinctEntries;
    DirectoriesImplied(ctx.manifest);
    forall d: Path ensures d in ctx.directories <==> d in Directories(ctx.manifest.Keys) {
    }
  }

  // ----- A tree in the gap ---------------------------------------------------------------

  function EmptyFile(): (record: FileRecord)
    ensures ValidRecord(record) && record.size == 0
  {
    FileRecord(0, false, seq(64, i => 0))
  }

  function Repeat(c: char, n: nat): (s: Name)
    ensures |s| == n && forall i :: 0 <= i < n ==> s[i] == c
  {
    seq(n, i => c)
  }

  function Digits(i: nat, width: nat): (s: Name)
    ensures |s| == width && forall k :: 0 <= k < width ==> '0' <= s[k] <= '9'
  {
    if width == 0 then "" else Digits(i / 10, width - 1) + [('0' as int + i % 10) as char]
  }

  lemma {:induction false} DigitsDiffer(i: nat, j: nat, width: nat, bound: nat)
    requires i != j && i < bound && j < bound && Power10(width) >= bound
    ensures Digits(i, width) != Digits(j, width)
  {
    if width > 0 {
      var a, b := Digits(i, width), Digits(j, width);
      assert a[..width - 1] == Digits(i / 10, width - 1) && b[..width - 1] == Digits(j / 10, width - 1);
      if i / 10 != j / 10 {
        DigitsDiffer(i / 10, j / 10, width - 1, (bound + 9) / 10);
      } else {
        assert a[width - 1] != b[width - 1];
      }
    }
  }

  function Power10(n: nat): (p: nat)
    ensures p > 0
  {
    if n == 0 then 1 else 10 * Power10(n - 1)
  }

  const FILES: nat := 50_000

  /** One directory with a name of 84 bytes. */
  function TopName(): Name {
    Repeat('d', 84)
  }

  /** Different names of 250 bytes. */
  function FileName(i: nat): (s: Name)
    ensures |s| == 250
  {
    Digits(i, 5) + Repeat('f', 245)
  }

  function FilePath(): nat -> Path {
    (i: nat) => [TopName(), FileName(i)]
  }

  function WideEntries(n: nat): (entries: seq<Named>)
    ensures |entries| == n && forall i :: 0 <= i < n ==> entries[i] == Named(FileName(i), File(EmptyFile()))
  {
    seq(n, (i: nat) => Named(FileName(i), File(EmptyFile())))
  }

  function WideTree(): seq<Named> {
    [Named(TopName(), Directory(WideEntries(FILES)))]
  }

  function Below(n: nat): (s: set<nat>)
    ensures |s| == n && forall i: nat :: i in s <==> i < n
  {
    if n == 0 then {} else Below(n - 1) + {n - 1}
  }

  ghost function WidePaths(): set<Path> {
    Image(Below(FILES), FilePath())
  }

  ghost function WideContext(): Context {
    Context(["p"], map path | path in WidePaths() :: EmptyFile(), {[TopName()]})
  }

  // ----- Its names -----------------------------------------------------------------------

  lemma {:induction false} AsciiBytes(s: Name)
    requires forall i :: 0 <= i < |s| ==> s[i] < 128 as char
    ensures NameBytes(s) == |s|
  {
    if s != "" {
      assert CharBytes(s[0]) == 1;
      AsciiBytes(s[1..]);
    }
  }

  lemma FileNames(i: nat, j: nat)
    requires i < FILES && j < FILES && i != j
    ensures FileName(i) != FileName(j)
  {
    assert Power10(2) == 100;
    assert Power10(4) == 10_000;
    assert Power10(5) == 100_000;
    DigitsDiffer(i, j, 5, FILES);
    assert FileName(i)[..5] == Digits(i, 5) && FileName(j)[..5] == Digits(j, 5);
  }

  lemma FileNameSafe(i: nat)
    ensures SafeName(FileName(i)) && SafeName(TopName()) && FileName(i) != TopName()
    ensures NameBytes(FileName(i)) == 250 && NameBytes(TopName()) == 84
  {
    AsciiBytes(FileName(i));
    AsciiBytes(TopName());
  }

  lemma FilePathSafe(i: nat)
    ensures var path := FilePath()(i); SafePath(path, ["p"]) && PathBytes(path) == 335
    ensures PathBytes([TopName()]) == 84
  {
    FileNameSafe(i);
    hide FileName, TopName;
    var path := FilePath()(i);
    assert path[1..] == [FileName(i)];
    assert (["p"] + path)[1..] == path;
    AsciiBytes("p");
  }

  lemma WideCount()
    ensures |WidePaths()| == FILES && SumOver(WidePaths(), PathBytes) == 335 * FILES
  {
    hide FileName, TopName, PathBytes, FilePath, Image, SumOver, Below;
    forall i: nat, j: nat | i in Below(FILES) && j in Below(FILES) && FilePath()(i) == FilePath()(j) ensures i == j {
      if i != j {
        FilePathsDiffer(i, j);
      }
    }
    var v := (i: nat) => 335;
    forall i | i in Below(FILES) ensures PathBytes(FilePath()(i)) == v(i) {
      FilePathSafe(i);
    }
    SumImage(Below(FILES), FilePath(), v, PathBytes);
    SumConstant(Below(FILES), v, 335);
  }

  lemma FilePathsDiffer(i: nat, j: nat)
    requires i < FILES && j < FILES && i != j
    ensures FilePath()(i) != FilePath()(j)
  {
    FileNames(i, j);
    hide FileName;
    assert FilePath()(i)[1] == FileName(i) && FilePath()(j)[1] == FileName(j);
  }

  lemma FilePathShape(path: Path)
    ensures path in WidePaths() <==> exists i: nat :: i < FILES && path == [TopName(), FileName(i)]
  {
    hide FileName, TopName, Below;
    if path in WidePaths() {
      var i :| i in Below(FILES) && path == FilePath()(i);
      assert path == [TopName(), FileName(i)];
    }
    if i: nat :| i < FILES && path == [TopName(), FileName(i)] {
      assert i in Below(FILES) && path == FilePath()(i);
    }
  }

  lemma WideDirectories()
    ensures Directories(WidePaths()) == {[TopName()]}
  {
    hide FileName, TopName, WidePaths;
    var first := [TopName(), FileName(0)];
    FilePathShape(first);
    assert first in WidePaths() && first[..1] == [TopName()];
    forall d | d in Directories(WidePaths()) ensures d == [TopName()] {
      var path, k :| path in WidePaths() && 1 <= k < |path| && d == path[..k];
      FilePathShape(path);
    }
  }

  lemma WideChecked()
    ensures Checked(WideContext()) && RetainedBytes(WideContext().manifest.Keys) == 335 * FILES + 84
  {
    hide FileName, TopName, PathBytes, SumOver, Directories, WidePaths, SafePath, ValidRecord;
    var ctx := WideContext();
    assert ctx.manifest.Keys == WidePaths();
    WideCount();
    WideDirectories();
    FilePathSafe(0);
    SumConstant({[TopName()]}, PathBytes, 84);
    SumConstant(ctx.manifest.Keys, SizeIn(ctx.manifest), 0);
    forall path | path in ctx.manifest ensures SafePath(path, ctx.prefix) && ValidRecord(ctx.manifest[path]) {
      WidePathSafe(path);
    }
  }

  lemma WidePathSafe(path: Path)
    requires path in WidePaths()
    ensures SafePath(path, ["p"]) && |path| == 2
  {
    hide FileName, TopName, SafePath, PathBytes, WidePaths;
    FilePathShape(path);
    var i: nat :| i < FILES && path == [TopName(), FileName(i)];
    FilePathSafe(i);
  }

  // ----- The tree is the one the manifest describes --------------------------------------

  lemma {:induction false} DistinctFiles(entries: seq<Named>)
    requires forall e :: e in entries ==> e.node.File?
    requires forall i, j :: 0 <= i < j < |entries| ==> entries[i].name != entries[j].name
    ensures DistinctEntries(entries)
  {
    if entries != [] {
      assert entries[0] in entries && forall e :: e in entries[1..] ==> e in entries;
      DistinctFiles(entries[1..]);
    }
  }

  lemma WideDistinct()
    ensures DistinctEntries(WideTree())
  {
    hide FileName, TopName;
    var entries := WideEntries(FILES);
    forall i, j | 0 <= i < j < FILES ensures entries[i].name != entries[j].name {
      FileNames(i, j);
    }
    DistinctFiles(entries);
  }

  lemma WideFiles(path: Path, record: FileRecord)
    ensures FileAt(Directory(WideTree()), path, record) <==> path in WidePaths() && record == EmptyFile()
  {
    hide FileName, TopName, WidePaths, EmptyFile;
    var top := WideTree()[0];
    var files := WideEntries(FILES);
    FilePathShape(path);
    if FileAt(Directory(WideTree()), path, record) {
      assert FileAt(top.node, path[1..], record);
      var e :| e in files && e.name == path[1..][0] && FileAt(e.node, path[1..][1..], record);
      var i :| 0 <= i < FILES && files[i] == e;
      assert path == [TopName(), FileName(i)];
    }
    if path in WidePaths() && record == EmptyFile() {
      var i: nat :| i < FILES && path == [TopName(), FileName(i)];
      assert files[i] in files && path[1..] == [FileName(i)] && path[1..][1..] == [];
      assert FileAt(files[i].node, [], record);
      assert FileAt(top.node, path[1..], record);
      assert top in WideTree();
    }
  }

  lemma WideFolders(path: Path)
    requires path != [] && FolderAt(Directory(WideTree()), path)
    ensures path == [TopName()]
  {
    hide FileName, TopName;
    var top := WideTree()[0];
    assert FolderAt(top.node, path[1..]);
  }

  lemma WideDescribed()
    ensures Describes(WideContext().manifest, Directory(WideTree()))
  {
    hide FileName, TopName, WidePaths, WideTree, FileAt, FolderAt, EmptyFile;
    var manifest, root := WideContext().manifest, Directory(WideTree());
    forall path, record ensures FileAt(root, path, record) <==> path in manifest && manifest[path] == record {
      WideFiles(path, record);
    }
    var first := [TopName(), FileName(0)];
    FilePathShape(first);
    forall path | path != [] && FolderAt(root, path) ensures exists file :: file in manifest && path < file {
      WideFolders(path);
      assert first in manifest && path < first;
    }
  }

  /**
   * 50,000 empty files in one directory: the tree is built, topology and depth pass, and the
   * names together exceed what the auditor retains.
   */
  lemma WideTreeFailsNames() returns (p: Progress)
    ensures Built(WideTree(), WideContext(), p)
    ensures AuditReport(p.members) == [] && DepthPasses(p.members) && NameTotal(p.members) > MAX_RETAINED_NAME_BYTES
  {
    hide *;
    var ctx := WideContext();
    WideChecked();
    WideDistinct();
    WideDescribed();
    TreeExact(WideTree(), ctx);
    p := WalkDirectory(WideTree(), [], 0, NOTHING_WRITTEN, ctx).value;
    WideShape();
    WideBuilt(p);
    BuiltArchiveAccepted(WideTree(), ctx, p);
    DepthExact(WideTree(), ctx, p);
    forall path | path in ctx.manifest ensures |path| == 2 {
      WidePathSafe(path);
    }
    NamesExact(WideTree(), ctx, p);
    MemberTotal(WideTree(), ctx, p, (m: Member) => 0, (path: Path) => 0, (path: Path) => 0);
    LimitsAre();
  }

  lemma LimitsAre()
    ensures MAX_MEMBER_PARTS == 128 && MAX_RETAINED_NAME_BYTES == 16_777_216 && FILES == 50_000
  {
  }

  lemma WideShape()
    ensures
      var ctx := WideContext();
      && ctx.manifest.Keys == WidePaths() && |ctx.manifest| == FILES && |ctx.directories| == 1
      && |ctx.prefix| == 1 && PathBytes(ctx.prefix) == 1
  {
    hide WidePaths, TopName;
    WideCount();
    AsciiBytes("p");
    assert |WideContext().manifest.Keys| == |WideContext().manifest|;
  }

  lemma WideBuilt(p: Progress)
    requires Checked(WideContext()) && DistinctEntries(WideTree())
    requires WalkDirectory(WideTree(), [], 0, NOTHING_WRITTEN, WideContext()) == Ok(p)
    requires p.seen == WideContext().manifest.Keys
    ensures Built(WideTree(), WideContext(), p)
  {
    hide WalkDirectory, DistinctEntries, WideTree, WidePaths, TopName, ValidEntries, WithinArchive, Directories;
    DirectoriesImplied(WideContext().manifest);
  }
}
