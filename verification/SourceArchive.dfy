/**
 * The archive builder: a recursive walk that emits members in sorted preorder, checked on the way
 * against a manifest of expected files.
 */
module SourceArchive {
  import opened Wrappers
  import opened Ordering
  import T = Topology
  import Unicode

  const MAX_DEPTH: nat := 128
  const MAX_PATH_BYTES: nat := 4 * 1024
  const MAX_RETAINED_BYTES: nat := 16 * 1024 * 1024
  const MAX_DIRECTORY_ENTRIES: nat := 100_000
  const MAX_FILE_BYTES: nat := 64 * 1024 * 1024
  const MAX_TREE_BYTES: nat := 512 * 1024 * 1024

  /** What the manifest promises about a file, and what reading it finds. */
  datatype FileRecord = FileRecord(size: nat, executable: bool, digest: seq<nat>)

  /** A source tree as the walk meets it; directory entries come in the file system's order. */
  datatype Node = File(record: FileRecord) | Directory(entries: seq<Named>)

  datatype Named = Named(name: Name, node: Node)

  datatype Member = Member(path: Path, kind: T.Kind)

  type Manifest = map<Path, FileRecord>

  datatype Context = Context(prefix: Path, manifest: Manifest, directories: set<Path>)

  /** The archive so far, the files seen, and the bytes copied. */
  datatype Progress = Progress(members: seq<Member>, seen: set<Path>, copied: nat)

  const NOTHING_WRITTEN := Progress([], {}, 0)

  datatype WalkError =
    | TooDeep | UnsafeListing | PathLimits | FileTooLarge | TreeTooLarge
    | UnexpectedFile | FileDiffers | UnexpectedDirectory

  // ---- limits ----

  function NameBytes(name: Name): nat {
    if name == "" then 0 else CharBytes(name[0]) + NameBytes(name[1..])
  }

  function CharBytes(c: char): nat {
    var code := c as int;
    if Unicode.IsScalar(code) then |Unicode.Utf8(code)| else 0
  }

  /** Bytes of the path written with slashes. */
  function PathBytes(path: Path): nat {
    if path == [] then 0
    else if |path| == 1 then NameBytes(path[0])
    else NameBytes(path[0]) + 1 + PathBytes(path[1..])
  }

  predicate WithinLimits(relative: Path, prefix: Path) {
    |relative| <= MAX_DEPTH && PathBytes(relative) <= MAX_PATH_BYTES && PathBytes(prefix + relative) <= MAX_PATH_BYTES
  }

  predicate SafeName(name: Name) {
    name != "" && name != "." && name != ".." && '/' !in name
  }

  function ListingBytes(entries: seq<Named>): nat {
    if entries == [] then 0 else NameBytes(entries[0].name) + ListingBytes(entries[1..])
  }

  predicate SafeListing(entries: seq<Named>) {
    && |entries| <= MAX_DIRECTORY_ENTRIES && ListingBytes(entries) <= MAX_RETAINED_BYTES
    && forall i :: 0 <= i < |entries| ==> SafeName(entries[i].name)
  }

  // ---- the walk ----

  predicate LessEntry(a: Named, b: Named) {
    LessName(a.name, b.name)
  }

  function Weight(n: Node): (w: nat)
    ensures w > 0
  {
    match n
    case File(_) => 1
    case Directory(entries) => 1 + Weights(entries)
  }

  function Weights(entries: seq<Named>): nat {
    if entries == [] then 0 else Weight(entries[0].node) + Weights(entries[1..])
  }

  lemma {:induction false} InsertWeighs(x: Named, s: seq<Named>)
    ensures Weights(Insert(LessEntry, x, s)) == Weight(x.node) + Weights(s)
  {
    if s != [] && LessEntry(s[0], x) {
      InsertWeighs(x, s[1..]);
      assert ([s[0]] + Insert(LessEntry, x, s[1..]))[1..] == Insert(LessEntry, x, s[1..]);
    } else {
      assert ([x] + s)[1..] == s;
    }
  }

  lemma {:induction false} SortWeighs(s: seq<Named>)
    ensures Weights(Sort(LessEntry, s)) == Weights(s)
  {
    if s != [] {
      SortWeighs(s[1..]);
      InsertWeighs(s[0], Sort(LessEntry, s[1..]));
    }
  }

  function WalkDirectory(entries: seq<Named>, relative: Path, depth: nat, s: Progress, ctx: Context)
    : Result<Progress, WalkError>
    decreases Weights(entries), 1, |entries|
  {
    SortWeighs(entries);
    if depth > MAX_DEPTH then Err(TooDeep)
    else if !SafeListing(entries) then Err(UnsafeListing)
    else WalkEntries(Sort(LessEntry, entries), relative, depth, s, ctx)
  }

  function WalkEntries(entries: seq<Named>, relative: Path, depth: nat, s: Progress, ctx: Context)
    : Result<Progress, WalkError>
    decreases Weights(entries), 0, |entries|
  {
    if entries == [] then Ok(s)
    else
      match WalkEntry(entries[0], relative, depth, s, ctx)
      case Err(e) => Err(e)
      case Ok(t) => WalkEntries(entries[1..], relative, depth, t, ctx)
  }

  function WalkEntry(entry: Named, relative: Path, depth: nat, s: Progress, ctx: Context): Result<Progress, WalkError>
    decreases Weight(entry.node), 0, 0
  {
    var child := relative + [entry.name];
    if !WithinLimits(child, ctx.prefix) then Err(PathLimits)
    else
      match entry.node
      case File(record) => CopyFile(record, child, s, ctx)
      case Directory(entries) =>
        if child !in ctx.directories then Err(UnexpectedDirectory)
        else
          WalkDirectory(entries, child, depth + 1,
            s.(members := s.members + [Member(ctx.prefix + child, T.Directory)]), ctx)
  }

  function CopyFile(record: FileRecord, child: Path, s: Progress, ctx: Context): Result<Progress, WalkError> {
    if record.size > MAX_FILE_BYTES then Err(FileTooLarge)
    else if s.copied + record.size > MAX_TREE_BYTES then Err(TreeTooLarge)
    else if child !in ctx.manifest then Err(UnexpectedFile)
    else if ctx.manifest[child] != record then Err(FileDiffers)
    else Ok(Progress(s.members + [Member(ctx.prefix + child, T.RegularFile)], s.seen + {child}, s.copied + record.size))
  }

  /** The builder's object: an archive that grows, and the record of what went into it. */
  class TarBuilder {
    var members: seq<Member>
    var seen: set<Path>
    var copied: nat

    function State(): Progress
      reads this
    {
      Progress(members, seen, copied)
    }

    constructor ()
      ensures State() == NOTHING_WRITTEN
    {
      members, seen, copied := [], {}, 0;
    }

    method ArchiveDirectory(entries: seq<Named>, relative: Path, depth: nat, ctx: Context)
      returns (error: Option<WalkError>)
      modifies this
      ensures error.None? ==> WalkDirectory(entries, relative, depth, old(State()), ctx) == Ok(State())
      ensures error.Some? ==> WalkDirectory(entries, relative, depth, old(State()), ctx) == Err(error.value)
      decreases Weights(entries), 1, |entries|
    {
      if depth > MAX_DEPTH {
        return Some(TooDeep);
      }
      if !SafeListing(entries) {
        return Some(UnsafeListing);
      }
      SortWeighs(entries);
      var names := Sort(LessEntry, entries);
      ghost var before := State();
      assert names[0..] == names;
      for i := 0 to |names|
        invariant Weights(names[i..]) <= Weights(names)
        invariant WalkEntries(names, relative, depth, before, ctx)
          == WalkEntries(names[i..], relative, depth, State(), ctx)
      {
        ghost var reached := State();
        assert names[i..][1..] == names[i + 1..];
        assert WalkEntries(names[i..], relative, depth, reached, ctx) ==
          match WalkEntry(names[i], relative, depth, reached, ctx)
          case Err(e) => Err(e)
          case Ok(t) => WalkEntries(names[i + 1..], relative, depth, t, ctx);
        assert Weight(names[i].node) <= Weights(names[i..]);
        error := ArchiveEntry(names[i], relative, depth, ctx);
        if error.Some? {
          return;
        }
      }
      error := None;
    }

    method ArchiveEntry(entry: Named, relative: Path, depth: nat, ctx: Context) returns (error: Option<WalkError>)
      modifies this
      ensures error.None? ==> WalkEntry(entry, relative, depth, old(State()), ctx) == Ok(State())
      ensures error.Some? ==> WalkEntry(entry, relative, depth, old(State()), ctx) == Err(error.value)
      decreases Weight(entry.node), 0, 0
    {
      var child := relative + [entry.name];
      if !WithinLimits(child, ctx.prefix) {
        return Some(PathLimits);
      }
      match entry.node
      case File(record) =>
        if record.size > MAX_FILE_BYTES {
          return Some(FileTooLarge);
        }
        if copied + record.size > MAX_TREE_BYTES {
          return Some(TreeTooLarge);
        }
        if child !in ctx.manifest {
          return Some(UnexpectedFile);
        }
        if ctx.manifest[child] != record {
          return Some(FileDiffers);
        }
        members := members + [Member(ctx.prefix + child, T.RegularFile)];
        seen := seen + {child};
        copied := copied + record.size;
        error := None;
      case Directory(entries) =>
        if child !in ctx.directories {
          return Some(UnexpectedDirectory);
        }
        members := members + [Member(ctx.prefix + child, T.Directory)];
        error := ArchiveDirectory(entries, child, depth + 1, ctx);
    }
  }

  // ---- what a finished walk has written ----

  /** A file system never lists one name twice in a directory. */
  predicate DistinctNames(n: Node) {
    match n
    case File(_) => true
    case Directory(entries) => DistinctEntries(entries)
  }

  predicate DistinctEntries(entries: seq<Named>) {
    if entries == [] then true
    else
      && DistinctNames(entries[0].node) && DistinctEntries(entries[1..])
      && forall i :: 1 <= i < |entries| ==> entries[i].name != entries[0].name
  }

  ghost predicate InOrder(ms: seq<Member>) {
    forall i, j :: 0 <= i < j < |ms| ==> LessPath(ms[i].path, ms[j].path)
  }

  ghost predicate HasDirectory(ms: seq<Member>, d: Path) {
    exists i :: 0 <= i < |ms| && ms[i] == Member(d, T.Directory)
  }

  /** The members written below `base`: in order, each with its parent when that is below too. */
  ghost predicate Block(ms: seq<Member>, base: Path, ctx: Context) {
    InOrder(ms) && Under(ms, base, ctx) && ParentsWithin(ms, base) && AllExpected(ms, ctx)
  }

  ghost predicate Under(ms: seq<Member>, base: Path, ctx: Context) {
    forall i :: 0 <= i < |ms| ==> base < ms[i].path && ctx.prefix <= ms[i].path
  }

  ghost predicate ParentsWithin(ms: seq<Member>, base: Path) {
    forall i :: 0 <= i < |ms| && |ms[i].path| > |base| + 1 ==> HasDirectory(ms, Parent(ms[i].path))
  }

  ghost predicate AllExpected(ms: seq<Member>, ctx: Context) {
    forall i :: 0 <= i < |ms| ==> ctx.prefix <= ms[i].path && Expected(ms[i], ctx)
  }

  function Parent(p: Path): Path
    requires p != []
  {
    p[..|p| - 1]
  }

  ghost predicate Expected(m: Member, ctx: Context)
    requires ctx.prefix <= m.path
  {
    var relative := m.path[|ctx.prefix|..];
    match m.kind
    case Directory => relative in ctx.directories
    case RegularFile => relative in ctx.manifest
    case Other => false
  }

  /** The relative paths of the regular files among the members. */
  ghost predicate Sees(seen: set<Path>, before: set<Path>, ms: seq<Member>, prefix: Path) {
    forall r :: r in seen <==> r in before || exists i :: 0 <= i < |ms| && ms[i] == Member(prefix + r, T.RegularFile)
  }

  /** `t` is `s` with one more block written. */
  ghost predicate Wrote(s: Progress, t: Progress, base: Path, ctx: Context) {
    && s.members <= t.members
    && Block(t.members[|s.members|..], base, ctx)
    && Sees(t.seen, s.seen, t.members[|s.members|..], ctx.prefix)
  }

  /** The first name below `base` on the way to each member comes from `entries`. */
  ghost predicate NamesFrom(ms: seq<Member>, base: Path, entries: seq<Named>) {
    forall i :: 0 <= i < |ms| ==> |ms[i].path| > |base| && Lists(entries, ms[i].path[|base|])
  }

  ghost predicate Lists(entries: seq<Named>, name: Name) {
    exists e :: e in entries && e.name == name
  }

  lemma EntriesOrdered()
    ensures WeakOrder(LessEntry)
  {
    NamesOrdered();
  }

  lemma {:induction false} EntryDistinct(entries: seq<Named>, i: nat, j: nat)
    requires DistinctEntries(entries) && i < j < |entries|
    ensures entries[i].name != entries[j].name && DistinctNames(entries[i].node) && DistinctNames(entries[j].node)
  {
    if i > 0 {
      EntryDistinct(entries[1..], i - 1, j - 1);
    } else {
      EntryNodeDistinct(entries, j);
    }
  }

  lemma {:induction false} EntryNodeDistinct(entries: seq<Named>, j: nat)
    requires DistinctEntries(entries) && j < |entries|
    ensures DistinctNames(entries[j].node)
  {
    if j > 0 {
      EntryNodeDistinct(entries[1..], j - 1);
    }
  }

  ghost predicate NamesIncrease(entries: seq<Named>) {
    && (forall i, j :: 0 <= i < j < |entries| ==> LessName(entries[i].name, entries[j].name))
    && (forall e :: e in entries ==> DistinctNames(e.node))
  }

  lemma SortedNamesIncrease(entries: seq<Named>)
    requires DistinctEntries(entries)
    ensures NamesIncrease(Sort(LessEntry, entries))
  {
    EntriesOrdered();
    NamesOrdered();
    SortSorts(LessEntry, entries);
    var r := Sort(LessEntry, entries);
    forall e | e in r ensures e in entries && DistinctNames(e.node) {
      assert e in multiset(r);
      var k :| 0 <= k < |entries| && entries[k] == e;
      EntryNodeDistinct(entries, k);
    }
    forall i, j | 0 <= i < j < |r| ensures LessName(r[i].name, r[j].name) {
      assert !LessEntry(r[j], r[i]);
      if r[i].name == r[j].name {
        SameNameSameEntry(entries, r[i], r[j]);
        MultisetDistinct(r, i, j);
        forall a, b | 0 <= a < b < |entries| ensures entries[a] != entries[b] {
          EntryDistinct(entries, a, b);
        }
        DistinctOnce(entries, r[i]);
      }
    }
  }

  lemma SameNameSameEntry(entries: seq<Named>, e: Named, f: Named)
    requires DistinctEntries(entries) && e in entries && f in entries && e.name == f.name
    ensures e == f
  {
    var a :| 0 <= a < |entries| && entries[a] == e;
    var b :| 0 <= b < |entries| && entries[b] == f;
    if a < b {
      EntryDistinct(entries, a, b);
    } else if b < a {
      EntryDistinct(entries, b, a);
    }
  }

  /** Members below smaller names come before members below larger ones. */
  lemma NamesDecide(base: Path, p: Path, q: Path)
    requires base < p && base < q && LessName(p[|base|], q[|base|])
    ensures LessPath(p, q)
  {
    NamesOrdered();
    LexAppend(LessName, base, p[|base|..], q[|base|..]);
    assert p == base + p[|base|..] && q == base + q[|base|..];
  }

  lemma JoinBlocks(a: seq<Member>, b: seq<Member>, base: Path, ctx: Context)
    requires Block(a, base, ctx) && Block(b, base, ctx)
    requires forall i, j :: 0 <= i < |a| && 0 <= j < |b| ==> LessName(a[i].path[|base|], b[j].path[|base|])
    ensures Block(a + b, base, ctx)
  {
    JoinInOrder(a, b, base, ctx);
    JoinParents(a, b, base);
    hide InOrder, ParentsWithin;
    assert Under(a + b, base, ctx);
  }

  lemma JoinInOrder(a: seq<Member>, b: seq<Member>, base: Path, ctx: Context)
    requires InOrder(a) && InOrder(b) && Under(a, base, ctx) && Under(b, base, ctx)
    requires forall i, j :: 0 <= i < |a| && 0 <= j < |b| ==> LessName(a[i].path[|base|], b[j].path[|base|])
    ensures InOrder(a + b)
  {
    var c := a + b;
    forall i, j | 0 <= i < j < |c| ensures LessPath(c[i].path, c[j].path) {
      if i < |a| && j >= |a| {
        NamesDecide(base, a[i].path, b[j - |a|].path);
      }
    }
  }

  lemma JoinParents(a: seq<Member>, b: seq<Member>, base: Path)
    requires ParentsWithin(a, base) && ParentsWithin(b, base)
    ensures ParentsWithin(a + b, base)
  {
    var c := a + b;
    forall d | HasDirectory(a, d) || HasDirectory(b, d) ensures HasDirectory(c, d) {
      if HasDirectory(a, d) {
        var k :| 0 <= k < |a| && a[k] == Member(d, T.Directory);
        assert c[k] == a[k];
      } else {
        var k :| 0 <= k < |b| && b[k] == Member(d, T.Directory);
        assert c[|a| + k] == b[k];
      }
    }
  }

  lemma SeesBoth(before: set<Path>, middle: set<Path>, after: set<Path>, a: seq<Member>, b: seq<Member>, prefix: Path)
    requires Sees(middle, before, a, prefix) && Sees(after, middle, b, prefix)
    ensures Sees(after, before, a + b, prefix)
  {
    forall r ensures r in after <==>
      r in before || exists i :: 0 <= i < |a + b| && (a + b)[i] == Member(prefix + r, T.RegularFile)
    {
      if r in after && r !in before {
        if r in middle {
          var i :| 0 <= i < |a| && a[i] == Member(prefix + r, T.RegularFile);
          assert (a + b)[i] == a[i];
        } else {
          var i :| 0 <= i < |b| && b[i] == Member(prefix + r, T.RegularFile);
          assert (a + b)[|a| + i] == b[i];
        }
      }
    }
  }

  /** The directory member in front of the block written below it. */
  lemma DirectoryBlock(child: Path, below: seq<Member>, base: Path, ctx: Context)
    requires ctx.prefix <= base && base < child && |child| == |base| + 1
    requires Expected(Member(child, T.Directory), ctx) && Block(below, child, ctx)
    ensures Block([Member(child, T.Directory)] + below, base, ctx)
  {
    var top := Member(child, T.Directory);
    var c := [top] + below;
    forall i, j | 0 <= i < j < |c| ensures LessPath(c[i].path, c[j].path) {
      if i == 0 {
        LexPrefix(LessName, child, below[j - 1].path);
      }
    }
    DirectoryIsParent(child, below, base);
    hide ParentsWithin, InOrder, Expected;
    assert Under(c, base, ctx) && AllExpected(c, ctx);
  }

  lemma DirectoryIsParent(child: Path, below: seq<Member>, base: Path)
    requires |child| == |base| + 1 && ParentsWithin(below, child)
    requires forall i :: 0 <= i < |below| ==> child < below[i].path
    ensures ParentsWithin([Member(child, T.Directory)] + below, base)
  {
    var c := [Member(child, T.Directory)] + below;
    assert c[0] == Member(child, T.Directory);
    forall i | 0 <= i < |c| && |c[i].path| > |base| + 1 ensures HasDirectory(c, Parent(c[i].path)) {
      if |c[i].path| == |child| + 1 {
        assert Parent(c[i].path) == child;
      } else {
        var k :| 0 <= k < |below| && below[k] == Member(Parent(below[i - 1].path), T.Directory);
        assert c[k + 1] == below[k];
      }
    }
  }

  // ---- the walk writes blocks ----

  /** `t` is `s` with one more block below `base` written, all of it under the given names. */
  ghost predicate WroteUnder(s: Progress, t: Progress, base: Path, entries: seq<Named>, ctx: Context) {
    Wrote(s, t, base, ctx) && NamesFrom(t.members[|s.members|..], base, entries)
  }

  lemma {:induction false} WalkDirectoryWrites(entries: seq<Named>, relative: Path, depth: nat, s: Progress,
                                                  ctx: Context)
    requires DistinctEntries(entries)
    requires WalkDirectory(entries, relative, depth, s, ctx).Ok?
    ensures Wrote(s, WalkDirectory(entries, relative, depth, s, ctx).value, ctx.prefix + relative, ctx)
    decreases Weights(entries), 1, |entries|
  {
    hide Wrote, NamesFrom, NamesIncrease, SafeListing;
    SortWeighs(entries);
    SortedNamesIncrease(entries);
    WalkEntriesWrite(Sort(LessEntry, entries), relative, depth, s, ctx);
  }

  lemma {:induction false} WalkEntriesWrite(entries: seq<Named>, relative: Path, depth: nat, s: Progress, ctx: Context)
    requires NamesIncrease(entries)
    requires WalkEntries(entries, relative, depth, s, ctx).Ok?
    ensures WroteUnder(s, WalkEntries(entries, relative, depth, s, ctx).value, ctx.prefix + relative, entries, ctx)
    decreases Weights(entries), 0, |entries|
  {
    var base := ctx.prefix + relative;
    if entries == [] {
      assert s.members[|s.members|..] == [];
    } else {
      var first := WalkEntry(entries[0], relative, depth, s, ctx).value;
      assert entries[0] in entries;
      WalkEntryWrites(entries[0], relative, depth, s, ctx);
      NamesIncreaseTail(entries);
      WalkEntriesWrite(entries[1..], relative, depth, first, ctx);
      WroteBoth(s, first, WalkEntries(entries, relative, depth, s, ctx).value, base, entries, ctx);
    }
  }

  lemma NamesIncreaseTail(entries: seq<Named>)
    requires NamesIncrease(entries) && entries != []
    ensures NamesIncrease(entries[1..])
    ensures forall e :: e in entries[1..] ==> LessName(entries[0].name, e.name)
  {
  }

  lemma WroteBoth(s: Progress, t: Progress, u: Progress, base: Path, entries: seq<Named>, ctx: Context)
    requires entries != [] && NamesIncrease(entries)
    requires WroteUnder(s, t, base, [entries[0]], ctx) && WroteUnder(t, u, base, entries[1..], ctx)
    ensures WroteUnder(s, u, base, entries, ctx)
  {
    var a, b := t.members[|s.members|..], u.members[|t.members|..];
    assert u.members[|s.members|..] == a + b;
    NamesApart(a, b, base, entries);
    hide NamesFrom, NamesIncrease, Sees, Block;
    JoinBlocks(a, b, base, ctx);
    SeesBoth(s.seen, t.seen, u.seen, a, b, ctx.prefix);
  }

  lemma NamesApart(a: seq<Member>, b: seq<Member>, base: Path, entries: seq<Named>)
    requires entries != [] && NamesIncrease(entries)
    requires NamesFrom(a, base, [entries[0]]) && NamesFrom(b, base, entries[1..])
    ensures forall i, j :: 0 <= i < |a| && 0 <= j < |b| ==> LessName(a[i].path[|base|], b[j].path[|base|])
    ensures NamesFrom(a + b, base, entries)
  {
    var c := a + b;
    NamesIncreaseTail(entries);
    forall name | Lists([entries[0]], name) ensures name == entries[0].name && Lists(entries, name) {
      assert entries[0] in entries;
    }
    forall name | Lists(entries[1..], name) ensures LessName(entries[0].name, name) && Lists(entries, name) {
      var e :| e in entries[1..] && e.name == name;
      assert e in entries;
    }
    hide Lists, NamesIncrease;
    assert forall i :: 0 <= i < |c| ==> c[i] == if i < |a| then a[i] else b[i - |a|];
  }

  lemma {:induction false} WalkEntryWrites(entry: Named, relative: Path, depth: nat, s: Progress, ctx: Context)
    requires DistinctNames(entry.node)
    requires WalkEntry(entry, relative, depth, s, ctx).Ok?
    ensures WroteUnder(s, WalkEntry(entry, relative, depth, s, ctx).value, ctx.prefix + relative, [entry], ctx)
    decreases Weight(entry.node), 0, 0
  {
    var child := relative + [entry.name];
    var t := WalkEntry(entry, relative, depth, s, ctx).value;
    match entry.node
    case File(record) => FileWrites(entry.name, relative, s, t, ctx);
    case Directory(entries) =>
      var entered := s.(members := s.members + [Member(ctx.prefix + child, T.Directory)]);
      WalkDirectoryWrites(entries, child, depth + 1, entered, ctx);
      DirectoryWrites(entry, relative, s, entered, t, ctx);
  }

  lemma FileWrites(name: Name, relative: Path, s: Progress, t: Progress, ctx: Context)
    requires var child := relative + [name];
      && child in ctx.manifest && t.members == s.members + [Member(ctx.prefix + child, T.RegularFile)]
      && t.seen == s.seen + {child}
    ensures forall e: Named :: e.name == name ==> WroteUnder(s, t, ctx.prefix + relative, [e], ctx)
  {
    var child, base := relative + [name], ctx.prefix + relative;
    var m := Member(ctx.prefix + child, T.RegularFile);
    var ms := t.members[|s.members|..];
    assert ms == [m] && m.path == base + [name] && m.path[|ctx.prefix|..] == child;
    forall r ensures r in t.seen <==>
      r in s.seen || exists i :: 0 <= i < |ms| && ms[i] == Member(ctx.prefix + r, T.RegularFile)
    {
      if ctx.prefix + r == m.path {
        assert r == (ctx.prefix + r)[|ctx.prefix|..] == child;
      }
      if r == child {
        assert ms[0] == Member(ctx.prefix + r, T.RegularFile);
      }
    }
    forall e: Named | e.name == name ensures NamesFrom(ms, base, [e]) {
      assert e in [e] && Lists([e], name);
    }
  }

  lemma DirectoryWrites(entry: Named, relative: Path, s: Progress, entered: Progress, t: Progress, ctx: Context)
    requires var child := relative + [entry.name];
      && child in ctx.directories
      && entered == s.(members := s.members + [Member(ctx.prefix + child, T.Directory)])
      && Wrote(entered, t, ctx.prefix + child, ctx)
    ensures WroteUnder(s, t, ctx.prefix + relative, [entry], ctx)
  {
    var base, child := ctx.prefix + relative, relative + [entry.name];
    var path := ctx.prefix + child;
    var top, below := Member(path, T.Directory), t.members[|entered.members|..];
    assert path == base + [entry.name] && path[|ctx.prefix|..] == child;
    assert t.members[|s.members|..] == [top] + below;
    DirectoryBlock(path, below, base, ctx);
    SeesDirectory(s.seen, t.seen, top, below, ctx.prefix);
    DirectoryNames(entry, top, below, base);
    hide Block, Sees, NamesFrom;
  }

  lemma DirectoryNames(entry: Named, top: Member, below: seq<Member>, base: Path)
    requires top.path == base + [entry.name] && forall i :: 0 <= i < |below| ==> top.path < below[i].path
    ensures NamesFrom([top] + below, base, [entry])
  {
    var ms := [top] + below;
    assert entry in [entry] && Lists([entry], entry.name);
    forall i | 0 <= i < |ms| ensures |ms[i].path| > |base| && ms[i].path[|base|] == entry.name {
      if i > 0 {
        assert top.path < below[i - 1].path;
      }
    }
  }

  lemma SeesDirectory(before: set<Path>, after: set<Path>, top: Member, below: seq<Member>, prefix: Path)
    requires top.kind == T.Directory && Sees(after, before, below, prefix)
    ensures Sees(after, before, [top] + below, prefix)
  {
    var ms := [top] + below;
    forall r ensures (exists i :: 0 <= i < |ms| && ms[i] == Member(prefix + r, T.RegularFile)) <==>
      exists i :: 0 <= i < |below| && below[i] == Member(prefix + r, T.RegularFile)
    {
      if i :| 0 <= i < |below| && below[i] == Member(prefix + r, T.RegularFile) {
        assert ms[i + 1] == below[i];
      }
    }
  }
}
