/** Aggregate limits of the source archive: the manifest check, and the vendor tree's running account. */
module SourceBudget {
  import opened Wrappers
  import opened FiniteSums
  import opened Ordering
  import opened SourceArchive

  const MAX_ARCHIVE_FILES: nat := 50_000
  const MAX_ARCHIVE_DIRECTORIES: nat := 50_000

  // ----- Ancestors -----------------------------------------------------------------------

  /** The proper non-empty prefixes of a path shorter than `n`. */
  function AncestorsBelow(path: Path, n: nat): set<Path>
    requires n <= |path|
  {
    set i | 1 <= i < n :: path[..i]
  }

  function Ancestors(path: Path): set<Path> {
    AncestorsBelow(path, |path|)
  }

  function Directories(paths: set<Path>): set<Path> {
    set path, i | path in paths && 1 <= i < |path| :: path[..i]
  }

  lemma DirectoriesAdd(paths: set<Path>, path: Path)
    ensures Directories(paths + {path}) == Directories(paths) + Ancestors(path)
  {
    forall d | d in Directories(paths + {path}) ensures d in Directories(paths) + Ancestors(path) {
      var p, i :| p in paths + {path} && 1 <= i < |p| && d == p[..i];
      if p == path {
        assert d in Ancestors(path);
      }
    }
    forall d | d in Ancestors(path) ensures d in Directories(paths + {path}) {
      var i :| 1 <= i < |path| && d == path[..i];
      assert path in paths + {path};
    }
  }

  lemma DirectoriesUnion(a: set<Path>, b: set<Path>)
    ensures Directories(a + b) == Directories(a) + Directories(b)
  {
  }

  // ----- Totals --------------------------------------------------------------------------

  /** Size of a recorded file; paths outside the manifest weigh nothing. */
  ghost function SizeIn(manifest: Manifest): Path -> nat {
    (path: Path) => if path in manifest then manifest[path].size else 0
  }

  ghost function PayloadBytes(manifest: Manifest): nat {
    SumOver(manifest.Keys, SizeIn(manifest))
  }

  ghost function RetainedBytes(paths: set<Path>): nat {
    SumOver(paths, PathBytes) + SumOver(Directories(paths), PathBytes)
  }

  /** The four aggregate limits, over the manifest and its ancestor set. */
  ghost predicate WithinTotals(manifest: Manifest, files: nat, bytes: nat, directories: nat, retained: nat) {
    && |manifest| <= files && PayloadBytes(manifest) <= bytes
    && |Directories(manifest.Keys)| <= directories && RetainedBytes(manifest.Keys) <= retained
  }

  ghost predicate WithinArchive(manifest: Manifest) {
    WithinTotals(manifest, MAX_ARCHIVE_FILES, MAX_TREE_BYTES, MAX_ARCHIVE_DIRECTORIES, MAX_RETAINED_BYTES)
  }

  lemma PayloadAdd(manifest: Manifest, path: Path, record: FileRecord)
    requires path !in manifest
    ensures PayloadBytes(manifest[path := record]) == PayloadBytes(manifest) + record.size
  {
    var next := manifest[path := record];
    assert next.Keys == manifest.Keys + {path};
    SumAdd(manifest.Keys, path, SizeIn(next));
    SumSame(manifest.Keys, SizeIn(manifest), SizeIn(next));
  }

  lemma RetainedAdd(paths: set<Path>, path: Path)
    requires path !in paths
    ensures RetainedBytes(paths + {path})
         == RetainedBytes(paths) + PathBytes(path) + SumOver(Ancestors(path) - Directories(paths), PathBytes)
    ensures |Directories(paths + {path})| == |Directories(paths)| + |Ancestors(path) - Directories(paths)|
  {
    var known, added := Directories(paths), Ancestors(path) - Directories(paths);
    DirectoriesAdd(paths, path);
    SumAdd(paths, path, PathBytes);
    SumUnion(known, added, PathBytes);
    assert known + added == Directories(paths + {path});
  }

  /** What one more file adds to each of the four totals. */
  lemma TotalsAdd(manifest: Manifest, path: Path, record: FileRecord)
    requires path !in manifest
    ensures
      var next, added := manifest[path := record], Ancestors(path) - Directories(manifest.Keys);
      && |next| == |manifest| + 1
      && PayloadBytes(next) == PayloadBytes(manifest) + record.size
      && Directories(next.Keys) == Directories(manifest.Keys) + added
      && |Directories(next.Keys)| == |Directories(manifest.Keys)| + |added|
      && RetainedBytes(next.Keys) == RetainedBytes(manifest.Keys) + (PathBytes(path) + SumOver(added, PathBytes))
  {
    hide SumOver, Directories, Ancestors, PathBytes, PayloadBytes, RetainedBytes;
    PayloadAdd(manifest, path, record);
    RetainedAdd(manifest.Keys, path);
    DirectoriesAdd(manifest.Keys, path);
    assert manifest[path := record].Keys == manifest.Keys + {path};
  }

  /** The ancestors a path would add, and what their names and its own would cost. */
  method NewAncestors(path: Path, known: set<Path>) returns (added: set<Path>, cost: nat)
    requires path != []
    ensures added == Ancestors(path) - known
    ensures cost == PathBytes(path) + SumOver(added, PathBytes)
  {
    hide SumOver, AncestorsBelow, PathBytes;
    FirstAncestors(path);
    added, cost := {}, PathBytes(path);
    for index := 1 to |path|
      invariant added == AncestorsBelow(path, index) - known
      invariant cost == PathBytes(path) + SumOver(added, PathBytes)
    {
      var directory := path[..index];
      AncestorsNext(path, index);
      if directory !in known {
        SumAdd(added, directory, PathBytes);
        added := added + {directory};
        cost := cost + PathBytes(directory);
      }
    }
  }

  // ----- The vendor account --------------------------------------------------------------

  class VendorAccount {
    const maxTreeBytes: nat
    const maxFiles: nat
    const maxDirectories: nat
    const maxRetainedBytes: nat
    var manifest: Manifest
    var vendorBytes: nat
    var retainedPathBytes: nat
    var directories: set<Path>

    /** The running numbers are the sums over what has been recorded, and within the limits. */
    ghost predicate Valid()
      reads this
    {
      && directories == Directories(manifest.Keys)
      && vendorBytes == PayloadBytes(manifest) && retainedPathBytes == RetainedBytes(manifest.Keys)
      && WithinTotals(manifest, maxFiles, maxTreeBytes, maxDirectories, maxRetainedBytes)
    }

    constructor (maxTreeBytes: nat, maxFiles: nat, maxDirectories: nat, maxRetainedBytes: nat)
      ensures Valid() && manifest == map[]
      ensures this.maxTreeBytes == maxTreeBytes && this.maxFiles == maxFiles
      ensures this.maxDirectories == maxDirectories && this.maxRetainedBytes == maxRetainedBytes
    {
      this.maxTreeBytes := maxTreeBytes;
      this.maxFiles := maxFiles;
      this.maxDirectories := maxDirectories;
      this.maxRetainedBytes := maxRetainedBytes;
      manifest := map[];
      vendorBytes := 0;
      retainedPathBytes := 0;
      directories := {};
      assert Directories({}) == {};
    }

    /** A recorded key costs nothing; a new one must fit with all its new ancestors. */
    method CheckedKey(key: Path) returns (r: Option<(set<Path>, nat)>)
      requires Valid() && key != []
      ensures key in manifest ==> r == Some(({}, 0))
      ensures key !in manifest ==>
        var added := Ancestors(key) - directories;
        var cost := PathBytes(key) + SumOver(added, PathBytes);
        r == if PathBytes(key) <= MAX_PATH_BYTES && |manifest| < maxFiles
                && |directories| + |added| <= maxDirectories && retainedPathBytes + cost <= maxRetainedBytes
             then Some((added, cost)) else None
    {
      hide SumOver, Ancestors, Directories, PathBytes, PayloadBytes, RetainedBytes, WithinTotals;
      if key in manifest {
        return Some(({}, 0));
      }
      var added, cost := NewAncestors(key, directories);
      if PathBytes(key) > MAX_PATH_BYTES || |manifest| >= maxFiles
        || |directories| + |added| > maxDirectories || retainedPathBytes + cost > maxRetainedBytes
      {
        return None;
      }
      r := Some((added, cost));
    }

    /** Records one file once; every refusal leaves the account untouched. */
    method Record(key: Path, record: FileRecord) returns (ok: bool)
      requires Valid() && key != []
      modifies this
      ensures Valid()
      ensures manifest == if ok then old(manifest)[key := record] else old(manifest)
      ensures ok && key in old(manifest) ==> manifest == old(manifest)
      ensures key in old(manifest) ==> (ok <==> old(manifest)[key] == record)
      ensures key !in old(manifest) ==> (ok <==>
        && PathBytes(key) <= MAX_PATH_BYTES
        && WithinTotals(old(manifest)[key := record], maxFiles, maxTreeBytes, maxDirectories, maxRetainedBytes))
    {
      hide SumOver, Directories, Ancestors, PathBytes, PayloadBytes, RetainedBytes;
      var checked := CheckedKey(key);
      if key !in manifest {
        TotalsAdd(manifest, key, record);
      }
      if checked.None? {
        return false;
      }
      if key in manifest && manifest[key] != record {
        return false;
      }
      if key !in manifest {
        if record.size > maxTreeBytes - vendorBytes {
          return false;
        }
        retainedPathBytes := retainedPathBytes + checked.value.1;
        vendorBytes := vendorBytes + record.size;
        directories := directories + checked.value.0;
      }
      assert key in manifest ==> manifest[key := record] == manifest;
      manifest := manifest[key := record];
      ok := true;
    }
  }

  lemma FirstAncestors(path: Path)
    requires path != []
    ensures AncestorsBelow(path, 1) == {} && SumOver({}, PathBytes) == 0
  {
  }

  lemma AncestorsNext(path: Path, n: nat)
    requires 1 <= n < |path|
    ensures AncestorsBelow(path, n + 1) == AncestorsBelow(path, n) + {path[..n]}
    ensures path[..n] !in AncestorsBelow(path, n)
  {
    forall d | d in AncestorsBelow(path, n) ensures d != path[..n] {
      var i :| 1 <= i < n && d == path[..i];
      assert |d| == i;
    }
  }

  // ----- The manifest check --------------------------------------------------------------

  datatype ManifestError =
    | TooManyFiles | TooManyBytes | TooManyDirectories | TooManyPathBytes
    | UnsafePath | InvalidEntry
  {
    predicate Aggregate() {
      TooManyFiles? || TooManyBytes? || TooManyDirectories? || TooManyPathBytes?
    }
  }

  predicate SafePath(path: Path, prefix: Path) {
    path != [] && (forall i :: 0 <= i < |path| ==> SafeName(path[i])) && WithinLimits(path, prefix)
  }

  predicate ValidRecord(record: FileRecord) {
    record.size <= MAX_FILE_BYTES && |record.digest| == 64 && forall i :: 0 <= i < 64 ==> record.digest[i] < 16
  }

  predicate ValidEntries(manifest: Manifest, prefix: Path) {
    forall path :: path in manifest ==> SafePath(path, prefix) && ValidRecord(manifest[path])
  }

  /** The order a dictionary is walked in: every key once. */
  ghost predicate Enumerates(order: seq<Path>, keys: set<Path>) {
    (forall i, j :: 0 <= i < j < |order| ==> order[i] != order[j]) && forall path :: path in order <==> path in keys
  }

  /** Part of the files and part of the directories cost no more than all of them. */
  lemma PartCostsLess(all: set<Path>, files: set<Path>, directories: set<Path>)
    requires files <= all && directories <= Directories(all)
    ensures SumOver(files, PathBytes) + SumOver(directories, PathBytes) <= RetainedBytes(all)
    ensures |directories| <= |Directories(all)|
  {
    SumPart(files, all, PathBytes);
    SumPart(directories, Directories(all), PathBytes);
    SubsetCount(directories, Directories(all));
  }

  lemma SubsetCount<T>(a: set<T>, b: set<T>)
    requires a <= b
    ensures |a| <= |b|
  {
    assert b == a + (b - a);
  }

  ghost predicate Overruns(part: set<Path>, others: nat, error: ManifestError) {
    || (error == TooManyDirectories && |part| > MAX_ARCHIVE_DIRECTORIES)
    || (error == TooManyPathBytes && others + SumOver(part, PathBytes) > MAX_RETAINED_BYTES)
  }

  /** Adds the ancestors of one path, stopping at the first total that is exceeded. */
  method AddAncestors(path: Path, directories: set<Path>, retained: nat, ghost others: nat)
    returns (r: Result<set<Path>, ManifestError>, total: nat, ghost part: set<Path>)
    requires path != [] && retained == others + SumOver(directories, PathBytes)
    ensures r.Ok? ==> r.value == directories + Ancestors(path) && total == others + SumOver(r.value, PathBytes)
    ensures r.Ok? && directories != r.value ==> |r.value| <= MAX_ARCHIVE_DIRECTORIES && total <= MAX_RETAINED_BYTES
    ensures r.Err? ==> part <= directories + Ancestors(path) && Overruns(part, others, r.error)
  {
    hide SumOver, AncestorsBelow, PathBytes;
    FirstAncestors(path);
    var now := directories;
    total := retained;
    for index := 1 to |path|
      invariant now == directories + AncestorsBelow(path, index)
      invariant total == others + SumOver(now, PathBytes)
      invariant now == directories || (|now| <= MAX_ARCHIVE_DIRECTORIES && total <= MAX_RETAINED_BYTES)
    {
      var directory := path[..index];
      AncestorsNext(path, index);
      AncestorsGrow(path, index + 1);
      if directory !in now {
        SumAdd(now, directory, PathBytes);
        now := now + {directory};
        total := total + PathBytes(directory);
        if |now| > MAX_ARCHIVE_DIRECTORIES {
          return Err(TooManyDirectories), total, now;
        }
        if total > MAX_RETAINED_BYTES {
          return Err(TooManyPathBytes), total, now;
        }
      }
    }
    r, part := Ok(now), now;
  }

  lemma AncestorsGrow(path: Path, n: nat)
    requires n <= |path|
    ensures AncestorsBelow(path, n) <= Ancestors(path)
  {
  }

  /** The totals over the files checked so far, all within their limits. */
  ghost predicate Tallied(manifest: Manifest, done: set<Path>, payload: nat, retained: nat, directories: set<Path>) {
    && done <= manifest.Keys
    && payload == SumOver(done, SizeIn(manifest)) <= MAX_TREE_BYTES
    && retained == RetainedBytes(done) <= MAX_RETAINED_BYTES
    && directories == Directories(done) && |directories| <= MAX_ARCHIVE_DIRECTORIES
  }

  datatype Tally = Tally(payload: nat, retained: nat, directories: set<Path>)

  /** One file of the manifest: its size, its path, and each ancestor not met before. */
  method TallyEntry(manifest: Manifest, ghost done: set<Path>, tally: Tally, path: Path)
    returns (r: Result<Tally, ManifestError>)
    requires Tallied(manifest, done, tally.payload, tally.retained, tally.directories)
    requires path in manifest && path !in done && path != []
    ensures r.Ok? ==> Tallied(manifest, done + {path}, r.value.payload, r.value.retained, r.value.directories)
    ensures r.Err? ==> !WithinArchive(manifest)
  {
    hide SumOver, PathBytes, Ancestors;
    SumAdd(done, path, SizeIn(manifest));
    SumPart(done + {path}, manifest.Keys, SizeIn(manifest));
    var payload := tally.payload + manifest[path].size;
    if payload > MAX_TREE_BYTES {
      return Err(TooManyBytes);
    }
    SumAdd(done, path, PathBytes);
    DirectoriesAdd(done, path);
    DirectoriesUnion(done + {path}, manifest.Keys);
    assert done + {path} + manifest.Keys == manifest.Keys;
    var retained := tally.retained + PathBytes(path);
    PartCostsLess(manifest.Keys, done + {path}, tally.directories);
    if retained > MAX_RETAINED_BYTES {
      return Err(TooManyPathBytes);
    }
    var added, total, part := AddAncestors(path, tally.directories, retained, SumOver(done + {path}, PathBytes));
    if added.Err? {
      PartCostsLess(manifest.Keys, done + {path}, part);
      return Err(added.error);
    }
    r := Ok(Tally(payload, total, added.value));
  }

  /**
   * Accepts exactly the manifests whose entries are all valid and whose four totals are
   * within the limits, whatever order the entries come in; and an aggregate error is only
   * ever reported for a total that really is exceeded.
   */
  method ValidateArchiveManifest(manifest: Manifest, order: seq<Path>, prefix: Path)
    returns (r: Result<set<Path>, ManifestError>)
    requires Enumerates(order, manifest.Keys)
    ensures r.Ok? <==> ValidEntries(manifest, prefix) && WithinArchive(manifest)
    ensures r.Ok? ==> r.value == Directories(manifest.Keys)
    ensures r.Err? && r.error.Aggregate() ==> !WithinArchive(manifest)
  {
    hide Tallied, WithinArchive, Directories, SafePath, ValidRecord;
    if |manifest| > MAX_ARCHIVE_FILES {
      FilesExceeded(manifest);
      return Err(TooManyFiles);
    }
    StartTally(manifest);
    ghost var done: set<Path> := {};
    var tally := Tally(0, 0, {});
    for i := 0 to |order|
      invariant forall path :: path in done <==> path in order[..i]
      invariant Tallied(manifest, done, tally.payload, tally.retained, tally.directories)
      invariant forall path :: path in done ==> SafePath(path, prefix) && ValidRecord(manifest[path])
    {
      var path := order[i];
      if !SafePath(path, prefix) {
        return Err(UnsafePath);
      }
      if !ValidRecord(manifest[path]) {
        return Err(InvalidEntry);
      }
      SafePathNonempty(path, prefix);
      var next := TallyEntry(manifest, done, tally, path);
      if next.Err? {
        return Err(next.error);
      }
      tally := next.value;
      done := done + {path};
      assert order[..i + 1] == order[..i] + [path];
    }
    assert order[..|order|] == order;
    assert done == manifest.Keys;
    AllTallied(manifest, tally);
    r := Ok(tally.directories);
  }

  lemma FilesExceeded(manifest: Manifest)
    requires |manifest| > MAX_ARCHIVE_FILES
    ensures !WithinArchive(manifest)
  {
  }

  lemma AllTallied(manifest: Manifest, tally: Tally)
    requires |manifest| <= MAX_ARCHIVE_FILES
    requires Tallied(manifest, manifest.Keys, tally.payload, tally.retained, tally.directories)
    ensures WithinArchive(manifest) && tally.directories == Directories(manifest.Keys)
  {
  }

  lemma StartTally(manifest: Manifest)
    ensures Tallied(manifest, {}, 0, 0, {})
  {
    assert Directories({}) == {};
  }

  lemma SafePathNonempty(path: Path, prefix: Path)
    requires SafePath(path, prefix)
    ensures path != []
  {
  }

  // ----- Public tree and vendor tree together --------------------------------------------

  /** What main hands to the vendor account: whatever the public tree has left over. */
  ghost predicate RemainingBudget(public: Manifest, vendor: VendorAccount) {
    && vendor.maxFiles == MAX_ARCHIVE_FILES - |public|
    && vendor.maxTreeBytes == MAX_TREE_BYTES - PayloadBytes(public)
    && vendor.maxDirectories == MAX_ARCHIVE_DIRECTORIES - |Directories(public.Keys)|
    && vendor.maxRetainedBytes == MAX_RETAINED_BYTES - RetainedBytes(public.Keys)
  }

  /** The merged manifest stays within the archive's totals: shared ancestors only help. */
  lemma MergedWithinArchive(public: Manifest, vendor: VendorAccount)
    requires vendor.Valid() && RemainingBudget(public, vendor)
    requires public.Keys !! vendor.manifest.Keys
    ensures WithinArchive(public + vendor.manifest)
  {
    hide SumOver, Directories, PathBytes;
    var a, b := public.Keys, vendor.manifest.Keys;
    var merged := public + vendor.manifest;
    assert merged.Keys == a + b;
    SumUnion(a, b, SizeIn(merged));
    SumSame(a, SizeIn(public), SizeIn(merged));
    SumSame(b, SizeIn(vendor.manifest), SizeIn(merged));
    SumUnion(a, b, PathBytes);
    DirectoriesUnion(a, b);
    SumSharedUnion(Directories(a), Directories(b), PathBytes);
    UnionCount(a, b);
    UnionCount(Directories(a), Directories(b));
  }

  lemma UnionCount<T>(a: set<T>, b: set<T>)
    ensures |a + b| <= |a| + |b|
  {
    assert a + b == a + (b - a);
    SubsetCount(b - a, b);
  }
}
