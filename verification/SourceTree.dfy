/** Which source trees an archive is built from: exactly the trees the manifest describes. */
module SourceTree {
  import opened Wrappers
  import opened FiniteSums
  import opened Ordering
  import opened SourceArchive
  import opened SourceBudget
  import opened BuilderAudit
  import T = Topology

  // ----- What stands where in a tree -----------------------------------------------------

  ghost predicate FileAt(node: Node, path: Path, record: FileRecord)
    decreases |path|
  {
    match node
    case File(r) => path == [] && r == record
    case Directory(entries) =>
      path != [] && exists e :: e in entries && e.name == path[0] && FileAt(e.node, path[1..], record)
  }

  ghost predicate FolderAt(node: Node, path: Path)
    decreases |path|
  {
    match node
    case File(_) => false
    case Directory(entries) =>
      path == [] || exists e :: e in entries && e.name == path[0] && FolderAt(e.node, path[1..])
  }

  /** The tree holds exactly the files of the manifest, and no folder without a file below it. */
  ghost predicate Describes(manifest: Manifest, root: Node) {
    && (forall path, record :: FileAt(root, path, record) <==> path in manifest && manifest[path] == record)
    && (forall path :: path != [] && FolderAt(root, path) ==> exists file :: file in manifest && path < file)
  }

  // ----- What the walk needs from the context --------------------------------------------

  /** The manifest has passed its check, and the directories are the ones it returned. */
  ghost predicate Checked(ctx: Context) {
    && ctx.directories == Directories(ctx.manifest.Keys)
    && ValidEntries(ctx.manifest, ctx.prefix) && WithinArchive(ctx.manifest)
  }

  lemma DirectoriesImplied(manifest: Manifest)
    ensures ImpliedDirectories(Directories(manifest.Keys), manifest)
  {
    forall d: Path ensures d in Directories(manifest.Keys) <==> exists r :: r in manifest && d < r && d != [] {
      if r :| r in manifest && d < r && d != [] {
        assert d == r[..|d|];
      }
    }
  }

  lemma {:induction false} PrefixBytes(path: Path, n: nat)
    requires n <= |path|
    ensures PathBytes(path[..n]) <= PathBytes(path)
  {
    if n > 1 {
      PrefixBytes(path[1..], n - 1);
      assert path[..n][1..] == path[1..][..n - 1];
    }
  }

  lemma PrefixIsSafe(path: Path, n: nat, prefix: Path)
    requires SafePath(path, prefix) && 1 <= n <= |path|
    ensures SafePath(path[..n], prefix)
  {
    hide PathBytes, SafeName;
    PrefixBytes(path, n);
    PrefixBytes(prefix + path, |prefix| + n);
    assert (prefix + path)[..|prefix| + n] == prefix + path[..n];
  }

  /** Files and directories of a checked manifest are safe paths within the limits. */
  lemma PathIsSafe(ctx: Context, path: Path)
    requires Checked(ctx) && (path in ctx.manifest || path in ctx.directories)
    ensures SafePath(path, ctx.prefix)
  {
    hide SafePath, WithinArchive, ValidRecord;
    if path !in ctx.manifest {
      var file, i :| file in ctx.manifest && 1 <= i < |file| && path == file[..i];
      PrefixIsSafe(file, i, ctx.prefix);
    }
  }

  // ----- Subtrees that belong to the manifest --------------------------------------------

  /** Everything in the subtree is expected at the place where it stands. */
  ghost predicate Welcome(node: Node, at: Path, ctx: Context) {
    && (forall path, record :: FileAt(node, path, record) ==>
      at + path in ctx.manifest && ctx.manifest[at + path] == record)
    && (forall path :: FolderAt(node, path) ==> at + path in ctx.directories)
  }

  ghost predicate AllWelcome(entries: seq<Named>, at: Path, ctx: Context) {
    forall e :: e in entries ==> Welcome(e.node, at + [e.name], ctx)
  }

  /** The subtree has a file that the manifest calls `file`. */
  ghost predicate Holds(node: Node, at: Path, file: Path) {
    at <= file && exists record :: FileAt(node, file[|at|..], record)
  }

  lemma FileWelcome(record: FileRecord, at: Path, ctx: Context)
    ensures Welcome(File(record), at, ctx) <==> at in ctx.manifest && ctx.manifest[at] == record
    ensures forall file :: Holds(File(record), at, file) <==> file == at
  {
    assert at + [] == at && FileAt(File(record), [], record);
    forall file ensures Holds(File(record), at, file) <==> file == at {
      if file == at {
        assert file[|at|..] == [];
      }
    }
  }

  lemma FolderWelcome(entries: seq<Named>, at: Path, ctx: Context)
    ensures Welcome(Directory(entries), at, ctx) <==> at in ctx.directories && AllWelcome(entries, at, ctx)
  {
    var node := Directory(entries);
    assert at + [] == at && FolderAt(node, []);
    if Welcome(node, at, ctx) {
      forall e | e in entries ensures Welcome(e.node, at + [e.name], ctx) {
        forall path, record | FileAt(e.node, path, record)
          ensures at + [e.name] + path in ctx.manifest && ctx.manifest[at + [e.name] + path] == record
        {
          assert ([e.name] + path)[1..] == path && FileAt(node, [e.name] + path, record);
          assert at + ([e.name] + path) == at + [e.name] + path;
        }
        forall path | FolderAt(e.node, path) ensures at + [e.name] + path in ctx.directories {
          assert ([e.name] + path)[1..] == path && FolderAt(node, [e.name] + path);
          assert at + ([e.name] + path) == at + [e.name] + path;
        }
      }
    }
    if at in ctx.directories && AllWelcome(entries, at, ctx) {
      forall path, record | FileAt(node, path, record)
        ensures at + path in ctx.manifest && ctx.manifest[at + path] == record
      {
        var e :| e in entries && e.name == path[0] && FileAt(e.node, path[1..], record);
        assert at + [e.name] + path[1..] == at + path;
      }
      forall path | FolderAt(node, path) ensures at + path in ctx.directories {
        if path != [] {
          var e :| e in entries && e.name == path[0] && FolderAt(e.node, path[1..]);
          assert at + [e.name] + path[1..] == at + path;
        }
      }
    }
  }

  /** The files of a directory are those of its entries. */
  lemma FolderHolds(entries: seq<Named>, at: Path, file: Path)
    ensures Holds(Directory(entries), at, file) <==> exists e :: e in entries && Holds(e.node, at + [e.name], file)
  {
    if Holds(Directory(entries), at, file) {
      var rest := file[|at|..];
      var record :| FileAt(Directory(entries), rest, record);
      var e :| e in entries && e.name == rest[0] && FileAt(e.node, rest[1..], record);
      assert file[|at + [e.name]|..] == rest[1..];
      assert Holds(e.node, at + [e.name], file);
    }
    if e :| e in entries && Holds(e.node, at + [e.name], file) {
      var rest := file[|at|..];
      assert rest[1..] == file[|at + [e.name]|..] && rest[0] == (at + [e.name])[|at|];
      var record :| FileAt(e.node, rest[1..], record);
      assert FileAt(Directory(entries), rest, record);
    }
  }

  // ----- A listing that belongs to the manifest is never too long ------------------------

  function Children(entries: seq<Named>, at: Path): set<Path> {
    set e | e in entries :: at + [e.name]
  }

  lemma ChildrenStep(entries: seq<Named>, at: Path)
    requires entries != [] && DistinctEntries(entries)
    ensures Children(entries, at) == Children(entries[1..], at) + {at + [entries[0].name]}
    ensures at + [entries[0].name] !in Children(entries[1..], at)
  {
    var child := at + [entries[0].name];
    assert entries[0] in entries && child[|at|] == entries[0].name;
    forall e | e in entries[1..] ensures e in entries && at + [e.name] != child {
      var i :| 0 <= i < |entries[1..]| && entries[1..][i] == e;
      assert entries[i + 1] == e;
      assert (at + [e.name])[|at|] == e.name;
    }
    forall e | e in entries ensures at + [e.name] in Children(entries[1..], at) + {child} {
    }
  }

  lemma {:induction false} NameCosts(at: Path, name: Name)
    ensures NameBytes(name) <= PathBytes(at + [name])
  {
    if at != [] {
      assert (at + [name])[1..] == at[1..] + [name];
      NameCosts(at[1..], name);
    }
  }

  /** A listing costs no more than the paths of its children. */
  lemma {:induction false} ListingCosts(entries: seq<Named>, at: Path)
    requires DistinctEntries(entries)
    ensures |Children(entries, at)| == |entries|
    ensures ListingBytes(entries) <= SumOver(Children(entries, at), PathBytes)
  {
    hide Children, PathBytes, SumOver, DistinctNames;
    if entries == [] {
      NoChildren(at);
    } else {
      ChildrenStep(entries, at);
      ListingCosts(entries[1..], at);
      NameCosts(at, entries[0].name);
      SumAdd(Children(entries[1..], at), at + [entries[0].name], PathBytes);
    }
  }

  lemma NoChildren(at: Path)
    ensures Children([], at) == {}
  {
  }

  lemma ChildrenWelcome(entries: seq<Named>, at: Path, ctx: Context)
    requires Checked(ctx) && AllWelcome(entries, at, ctx)
    ensures Children(entries, at) <= ctx.manifest.Keys + ctx.directories
    ensures forall i :: 0 <= i < |entries| ==> SafeName(entries[i].name)
  {
    hide Checked, Welcome;
    forall e | e in entries ensures at + [e.name] in ctx.manifest.Keys + ctx.directories && SafeName(e.name) {
      var child := at + [e.name];
      match e.node {
        case File(record) => FileWelcome(record, child, ctx);
        case Directory(below) => FolderWelcome(below, child, ctx);
      }
      PathIsSafe(ctx, child);
      assert child[|at|] == e.name;
    }
    forall i | 0 <= i < |entries| ensures SafeName(entries[i].name) {
      assert entries[i] in entries;
    }
  }

  lemma CheckedTotals(ctx: Context)
    requires Checked(ctx)
    ensures
      var files := ctx.manifest.Keys;
      && ctx.directories == Directories(files)
      && |files| <= MAX_ARCHIVE_FILES && |ctx.directories| <= MAX_ARCHIVE_DIRECTORIES
      && RetainedBytes(files) <= MAX_RETAINED_BYTES && PayloadBytes(ctx.manifest) <= MAX_TREE_BYTES
  {
    hide RetainedBytes, PayloadBytes, Directories, ValidEntries;
    assert |ctx.manifest.Keys| == |ctx.manifest|;
  }

  /** Files and directories of the archive cost no more than its limits allow. */
  lemma PartFits(part: set<Path>, ctx: Context)
    requires Checked(ctx) && part <= ctx.manifest.Keys + ctx.directories
    ensures |part| <= MAX_ARCHIVE_FILES + MAX_ARCHIVE_DIRECTORIES && SumOver(part, PathBytes) <= MAX_RETAINED_BYTES
  {
    hide *;
    CheckedTotals(ctx);
    var files, others := part * ctx.manifest.Keys, part - ctx.manifest.Keys;
    assert part == files + others;
    SumUnion(files, others, PathBytes);
    PartCostsLess(ctx.manifest.Keys, files, others);
    UnionCount(files, others);
    SubsetCount(files, ctx.manifest.Keys);
  }

  lemma ListingFits(entries: seq<Named>, at: Path, ctx: Context)
    requires Checked(ctx) && DistinctEntries(entries) && AllWelcome(entries, at, ctx)
    ensures SafeListing(entries)
  {
    hide Checked, AllWelcome, Children, SumOver, PathBytes, SafeName, DistinctEntries;
    ListingCosts(entries, at);
    ChildrenWelcome(entries, at, ctx);
    PartFits(Children(entries, at), ctx);
  }

  // ----- The walk and the tree -----------------------------------------------------------

  /** What has been copied is what has been seen, and all of it belongs to the manifest. */
  ghost predicate Steady(s: Progress, ctx: Context) {
    s.seen <= ctx.manifest.Keys && s.copied == SumOver(s.seen, SizeIn(ctx.manifest))
  }

  ghost predicate Untouched(s: Progress, at: Path) {
    forall file :: file in s.seen ==> !(at <= file)
  }

  /** `t` has seen what `s` has, and the files of the entries. */
  ghost predicate SawAll(s: Progress, t: Progress, entries: seq<Named>, at: Path) {
    forall file :: file in t.seen <==>
      file in s.seen || exists e :: e in entries && Holds(e.node, at + [e.name], file)
  }

  ghost predicate Saw(s: Progress, t: Progress, node: Node, at: Path) {
    forall file :: file in t.seen <==> file in s.seen || Holds(node, at, file)
  }

  /** A file is copied exactly when the manifest has it: none of the walk's limits can refuse it. */
  lemma FileExact(record: FileRecord, child: Path, s: Progress, ctx: Context)
    requires Checked(ctx) && Steady(s, ctx) && Untouched(s, child)
    ensures
      var r := CopyFile(record, child, s, ctx);
      && (r.Ok? <==> Welcome(File(record), child, ctx))
      && (r.Ok? ==> Steady(r.value, ctx) && Saw(s, r.value, File(record), child))
  {
    hide SumOver, ValidEntries, WithinArchive, Welcome, Holds;
    FileWelcome(record, child, ctx);
    if child in ctx.manifest && ctx.manifest[child] == record {
      assert child !in s.seen;
      RecordFits(child, ctx);
      CheckedTotals(ctx);
      SumAdd(s.seen, child, SizeIn(ctx.manifest));
      SumPart(s.seen + {child}, ctx.manifest.Keys, SizeIn(ctx.manifest));
    }
  }

  lemma RecordFits(path: Path, ctx: Context)
    requires Checked(ctx) && path in ctx.manifest
    ensures ctx.manifest[path].size <= MAX_FILE_BYTES
  {
    hide SafePath, WithinArchive;
    assert ValidRecord(ctx.manifest[path]);
  }

  lemma {:induction false} WalkDirectoryExact(entries: seq<Named>, at: Path, s: Progress, ctx: Context)
    requires Checked(ctx) && Steady(s, ctx) && Untouched(s, at) && |at| <= MAX_DEPTH && DistinctEntries(entries)
    ensures
      var r := WalkDirectory(entries, at, |at|, s, ctx);
      && (r.Ok? <==> AllWelcome(entries, at, ctx))
      && (r.Ok? ==> Steady(r.value, ctx) && SawAll(s, r.value, entries, at))
    decreases Weights(entries), 1, |entries|
  {
    hide Checked, Steady, AllWelcome, SawAll, NamesIncrease, SafeListing, WalkEntries, LessEntry, DistinctEntries;
    if AllWelcome(entries, at, ctx) {
      ListingFits(entries, at, ctx);
    }
    SortWeighs(entries);
    SortedNamesIncrease(entries);
    SortedAlike(entries, at, ctx);
    NothingBelow(s, Sort(LessEntry, entries), at);
    WalkEntriesExact(Sort(LessEntry, entries), at, s, ctx);
  }

  /** Sorting changes neither what belongs to the manifest nor what is seen. */
  lemma SortedAlike(entries: seq<Named>, at: Path, ctx: Context)
    ensures AllWelcome(Sort(LessEntry, entries), at, ctx) <==> AllWelcome(entries, at, ctx)
    ensures forall s, t :: SawAll(s, t, Sort(LessEntry, entries), at) <==> SawAll(s, t, entries, at)
  {
    hide Welcome, Holds;
    EntriesOrdered();
    SortSorts(LessEntry, entries);
    var sorted := Sort(LessEntry, entries);
    forall e ensures e in sorted <==> e in entries {
      assert e in multiset(sorted) <==> e in multiset(entries);
    }
  }

  ghost predicate AllUntouched(s: Progress, entries: seq<Named>, at: Path) {
    forall e :: e in entries ==> Untouched(s, at + [e.name])
  }

  lemma NothingBelow(s: Progress, entries: seq<Named>, at: Path)
    requires Untouched(s, at)
    ensures AllUntouched(s, entries, at)
  {
  }

  /** Seeing the files of one entry touches none of the entries with larger names. */
  lemma RestUntouched(s: Progress, t: Progress, entries: seq<Named>, at: Path)
    requires entries != [] && NamesIncrease(entries) && AllUntouched(s, entries, at)
    requires Saw(s, t, entries[0].node, at + [entries[0].name])
    ensures AllUntouched(t, entries[1..], at)
  {
    NamesIncreaseTail(entries);
    NamesOrdered();
    var first := at + [entries[0].name];
    forall e, file | e in entries[1..] && file in t.seen ensures !(at + [e.name] <= file) {
      assert e in entries && LessName(entries[0].name, e.name);
      assert (at + [e.name])[|at|] == e.name && first[|at|] == entries[0].name;
    }
  }

  lemma SawFirstAndRest(s: Progress, t: Progress, u: Progress, entries: seq<Named>, at: Path)
    requires entries != [] && Saw(s, t, entries[0].node, at + [entries[0].name]) && SawAll(t, u, entries[1..], at)
    ensures SawAll(s, u, entries, at)
  {
    hide Holds;
    assert forall e :: e in entries <==> e == entries[0] || e in entries[1..];
  }

  lemma FirstAndRestWelcome(entries: seq<Named>, at: Path, ctx: Context)
    requires entries != []
    ensures AllWelcome(entries, at, ctx) <==>
      Welcome(entries[0].node, at + [entries[0].name], ctx) && AllWelcome(entries[1..], at, ctx)
  {
    hide Welcome;
    assert forall e :: e in entries <==> e == entries[0] || e in entries[1..];
  }

  lemma {:induction false} WalkEntriesExact(entries: seq<Named>, at: Path, s: Progress, ctx: Context)
    requires Checked(ctx) && Steady(s, ctx) && AllUntouched(s, entries, at) && |at| <= MAX_DEPTH &&
      NamesIncrease(entries)
    ensures
      var r := WalkEntries(entries, at, |at|, s, ctx);
      && (r.Ok? <==> AllWelcome(entries, at, ctx))
      && (r.Ok? ==> Steady(r.value, ctx) && SawAll(s, r.value, entries, at))
    decreases Weights(entries), 0, |entries|
  {
    if entries == [] {
    } else {
      var first := entries[0];
      assert first in entries && DistinctNames(first.node) && Untouched(s, at + [first.name]);
      hide Checked, Steady, AllWelcome, Welcome, Saw, SawAll, AllUntouched, Untouched, WalkEntry, DistinctNames;
      FirstAndRestWelcome(entries, at, ctx);
      WalkEntryExact(first, at, s, ctx);
      if Welcome(first.node, at + [first.name], ctx) {
        var t := WalkEntry(first, at, |at|, s, ctx).value;
        RestUntouched(s, t, entries, at);
        NamesIncreaseTail(entries);
        hide NamesIncrease;
        WalkEntriesExact(entries[1..], at, t, ctx);
        if AllWelcome(entries[1..], at, ctx) {
          SawFirstAndRest(s, t, WalkEntries(entries[1..], at, |at|, t, ctx).value, entries, at);
        }
      }
    }
  }

  lemma {:induction false} WalkEntryExact(entry: Named, at: Path, s: Progress, ctx: Context)
    requires Checked(ctx) && Steady(s, ctx) && Untouched(s, at + [entry.name]) && |at| <= MAX_DEPTH &&
      DistinctNames(entry.node)
    ensures
      var r, child := WalkEntry(entry, at, |at|, s, ctx), at + [entry.name];
      && (r.Ok? <==> Welcome(entry.node, child, ctx))
      && (r.Ok? ==> Steady(r.value, ctx) && Saw(s, r.value, entry.node, child))
    decreases Weight(entry.node), 0, 0
  {
    hide Checked, Welcome, AllWelcome, Holds, CopyFile, WalkDirectory, DistinctEntries, PathBytes;
    var child := at + [entry.name];
    match entry.node
    case File(record) =>
      FileWelcome(record, child, ctx);
      FileExact(record, child, s, ctx);
      if child in ctx.manifest {
        PathIsSafe(ctx, child);
      }
    case Directory(entries) =>
      FolderWelcome(entries, child, ctx);
      if child in ctx.directories {
        PathIsSafe(ctx, child);
        var entered := s.(members := s.members + [Member(ctx.prefix + child, T.Directory)]);
        WalkDirectoryExact(entries, child, entered, ctx);
        forall file ensures Holds(entry.node, child, file) <==>
          exists e :: e in entries && Holds(e.node, child + [e.name], file)
        {
          FolderHolds(entries, child, file);
        }
      }
  }

  /** A walk from the root finishes with every file of the manifest exactly on the trees it describes. */
  lemma TreeExact(entries: seq<Named>, ctx: Context)
    requires Checked(ctx) && DistinctEntries(entries)
    ensures
      var r := WalkDirectory(entries, [], 0, NOTHING_WRITTEN, ctx);
      r.Ok? && r.value.seen == ctx.manifest.Keys <==> Describes(ctx.manifest, Directory(entries))
  {
    hide Checked, Welcome, Holds, WalkDirectory, Describes, DistinctEntries;
    NothingSteady(ctx);
    WalkDirectoryExact(entries, [], NOTHING_WRITTEN, ctx);
    forall file ensures Holds(Directory(entries), [], file) <==>
      exists e :: e in entries && Holds(e.node, [] + [e.name], file)
    {
      FolderHolds(entries, [], file);
    }
    RootExact(entries, ctx);
  }

  lemma NothingSteady(ctx: Context)
    ensures Steady(NOTHING_WRITTEN, ctx) && Untouched(NOTHING_WRITTEN, [])
  {
  }

  /** Everything below the root is expected; the root itself is not in the manifest. */
  ghost predicate Placed(root: Node, ctx: Context) {
    && (forall path, record :: FileAt(root, path, record) ==> path in ctx.manifest && ctx.manifest[path] == record)
    && (forall path :: path != [] && FolderAt(root, path) ==> path in ctx.directories)
  }

  lemma RootWelcome(entries: seq<Named>, ctx: Context)
    ensures AllWelcome(entries, [], ctx) <==> Placed(Directory(entries), ctx)
  {
    hide FileAt, FolderAt, Placed;
    var rooted := ctx.(directories := ctx.directories + {[]});
    FolderWelcome(entries, [], rooted);
    forall e | e in entries ensures Welcome(e.node, [] + [e.name], ctx) <==> Welcome(e.node, [] + [e.name], rooted) {
      assert forall path :: [] + [e.name] + path != [];
    }
    WelcomeAtRoot(Directory(entries), ctx, rooted);
  }

  lemma WelcomeAtRoot(root: Node, ctx: Context, rooted: Context)
    requires rooted == ctx.(directories := ctx.directories + {[]})
    ensures Welcome(root, [], rooted) <==> Placed(root, ctx)
  {
    var none: Path := [];
    if Welcome(root, none, rooted) {
      forall path, record | FileAt(root, path, record) ensures path in ctx.manifest && ctx.manifest[path] == record {
        assert none + path == path && none + path in ctx.manifest;
      }
      forall path | path != [] && FolderAt(root, path) ensures path in ctx.directories {
        assert none + path == path && none + path in rooted.directories;
      }
      assert Placed(root, ctx);
    }
    if Placed(root, ctx) {
      forall path, record | FileAt(root, path, record)
        ensures none + path in ctx.manifest && ctx.manifest[none + path] == record
      {
        assert none + path == path;
      }
      forall path | FolderAt(root, path) ensures none + path in rooted.directories {
        assert none + path == path;
      }
      assert Welcome(root, none, rooted);
    }
  }

  lemma HoldsAtRoot(root: Node, file: Path)
    ensures Holds(root, [], file) <==> exists record :: FileAt(root, file, record)
  {
    hide FileAt;
    var none: Path := [];
    assert none <= file && file[|none|..] == file;
    if Holds(root, none, file) {
      var record :| FileAt(root, file[|none|..], record);
      assert FileAt(root, file, record);
    }
  }

  lemma RootExact(entries: seq<Named>, ctx: Context)
    requires Checked(ctx)
    ensures Describes(ctx.manifest, Directory(entries)) <==>
      && AllWelcome(entries, [], ctx)
      && forall file :: file in ctx.manifest <==> Holds(Directory(entries), [], file)
  {
    hide Directories, ValidEntries, WithinArchive, AllWelcome, Holds;
    var root := Directory(entries);
    RootWelcome(entries, ctx);
    DirectoriesImplied(ctx.manifest);
    forall file ensures Holds(root, [], file) <==> exists record :: FileAt(root, file, record) {
      HoldsAtRoot(root, file);
    }
    if Describes(ctx.manifest, root) {
      forall file | file in ctx.manifest ensures Holds(root, [], file) {
        assert FileAt(root, file, ctx.manifest[file]);
      }
      assert Placed(root, ctx);
    }
    if Placed(root, ctx) && forall file :: file in ctx.manifest <==> Holds(root, [], file) {
      forall file | file in ctx.manifest ensures FileAt(root, file, ctx.manifest[file]) {
        var record :| FileAt(root, file, record);
      }
      assert Describes(ctx.manifest, root);
    }
  }
}
