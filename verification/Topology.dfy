/**
 * The topology check of the bundle auditor: one pass over the sorted member paths with a stack of
 * open directories. The second half says what the pass decides, without mentioning the stack.
 */
module Topology {
  import opened Ordering

  datatype Kind = Directory | RegularFile | Other

  type Kinds = map<Path, set<Kind>>

  datatype Failure =
    | ExplicitRoot
    | NotCanonicalOrder
    | MissingParent(parent: Path)
    | EmptyDirectory(path: Path)

  const MAX_FAILURES: nat := 100

  // ---- the pass over the sorted paths ----

  datatype Entry = Entry(path: Path, hasFile: bool)

  /** The stack of open directories, top last, and the directories closed empty so far. */
  datatype Walk = Walk(open: seq<Entry>, empty: seq<Path>)

  const NOTHING_OPEN := Walk([], [])

  /** Marks the directory on top of the stack as holding a file. */
  function Mark(open: seq<Entry>): seq<Entry>
    requires open != []
  {
    open[|open| - 1 := Entry(open[|open| - 1].path, true)]
  }

  function Close(w: Walk): Walk
    requires w.open != []
  {
    var top, rest := w.open[|w.open| - 1], w.open[..|w.open| - 1];
    if !top.hasFile then Walk(rest, w.empty + [top.path])
    else Walk(if rest != [] then Mark(rest) else rest, w.empty)
  }

  function CloseUntil(w: Walk, path: Path): Walk
    decreases |w.open|
  {
    if w.open == [] || w.open[|w.open| - 1].path < path then w else CloseUntil(Close(w), path)
  }

  function Visit(w: Walk, path: Path, kinds: set<Kind>): Walk {
    var closed := CloseUntil(w, path);
    var open := if Directory in kinds then closed.open + [Entry(path, false)] else closed.open;
    Walk(if RegularFile in kinds && open != [] && open[|open| - 1].path != path then Mark(open) else open, closed.empty)
  }

  predicate Covered(paths: seq<Path>, kinds: Kinds) {
    forall p :: p in paths ==> p in kinds
  }

  function After(paths: seq<Path>, kinds: Kinds, i: nat): Walk
    requires i <= |paths| && Covered(paths, kinds)
    decreases i
  {
    if i == 0 then NOTHING_OPEN else Visit(After(paths, kinds, i - 1), paths[i - 1], kinds[paths[i - 1]])
  }

  function CloseAll(w: Walk): Walk
    decreases |w.open|
  {
    if w.open == [] then w else CloseAll(Close(w))
  }

  function EmptyDirectories(order: seq<Path>, kinds: Kinds): seq<Path>
    requires Table(order, kinds)
  {
    SortedInTable(order, kinds);
    var paths := Sort(LessPath, order);
    CloseAll(After(paths, kinds, |paths|)).empty
  }

  // ---- the whole report ----

  /** The dictionary of the source: its keys in insertion order, and what each maps to. */
  ghost predicate Table(order: seq<Path>, kinds: Kinds) {
    Distinct(order) && forall p :: p in order <==> p in kinds
  }

  lemma SortedInTable(order: seq<Path>, kinds: Kinds)
    requires Table(order, kinds)
    ensures forall p :: p in Sort(LessPath, order) <==> p in kinds
    ensures Increasing(LessPath, Sort(LessPath, order))
  {
    PathsOrdered();
    SortDistinct(LessPath, order);
  }

  predicate HasRoot(sequence: seq<Path>) {
    exists i :: 0 <= i < |sequence| && |sequence[i]| == 1
  }

  predicate ParentMissing(path: Path, kinds: Kinds): (missing: bool)
    ensures missing ==> |path| > 2
  {
    |path| > 2 && (path[..|path| - 1] !in kinds || Directory !in kinds[path[..|path| - 1]])
  }

  function MissingParents(order: seq<Path>, kinds: Kinds): seq<Failure> {
    if order == [] then []
    else
      var last := order[|order| - 1];
      MissingParents(order[..|order| - 1], kinds) +
      (if ParentMissing(last, kinds) then [MissingParent(last[..|last| - 1])] else [])
  }

  function Reported(empty: seq<Path>): (r: seq<Failure>)
    ensures |r| == |empty|
  {
    seq(|empty|, i requires 0 <= i < |empty| => EmptyDirectory(empty[i]))
  }

  function Report(sequence: seq<Path>, order: seq<Path>, kinds: Kinds): seq<Failure>
    requires Table(order, kinds)
  {
    (if HasRoot(sequence) then [ExplicitRoot] else []) +
    ((if Sort(LessPath, sequence) != sequence then [NotCanonicalOrder] else []) +
     (MissingParents(order, kinds) + Reported(EmptyDirectories(order, kinds))))
  }

  // ---- what the pass decides ----

  /** A path recorded as a file and not also as a directory. */
  predicate PureFile(kinds: set<Kind>) {
    RegularFile in kinds && Directory !in kinds
  }

  ghost predicate FileBelow(paths: seq<Path>, kinds: Kinds, i: nat, d: Path)
    requires i <= |paths| && Covered(paths, kinds)
  {
    exists j :: 0 <= j < i && d < paths[j] && PureFile(kinds[paths[j]])
  }

  ghost predicate DirectoryIn(paths: seq<Path>, kinds: Kinds, i: nat, d: Path)
    requires i <= |paths| && Covered(paths, kinds)
  {
    exists j :: 0 <= j < i && paths[j] == d && Directory in kinds[d]
  }

  ghost predicate IsOpen(open: seq<Entry>, d: Path) {
    exists k :: 0 <= k < |open| && open[k].path == d
  }

  ghost predicate MarkedFrom(open: seq<Entry>, k: nat) {
    exists m :: k <= m < |open| && open[m].hasFile
  }

  ghost predicate Nested(open: seq<Entry>) {
    forall k, m :: 0 <= k < m < |open| ==> open[k].path < open[m].path
  }

  ghost predicate OpenDirectories(w: Walk, paths: seq<Path>, kinds: Kinds, i: nat)
    requires i <= |paths| && Covered(paths, kinds)
  {
    forall d :: IsOpen(w.open, d) ==> DirectoryIn(paths, kinds, i, d)
  }

  ghost predicate MarksRight(w: Walk, paths: seq<Path>, kinds: Kinds, i: nat)
    requires i <= |paths| && Covered(paths, kinds)
  {
    forall k :: 0 <= k < |w.open| ==> (MarkedFrom(w.open, k) <==> FileBelow(paths, kinds, i, w.open[k].path))
  }

  ghost predicate EmptyRight(w: Walk, paths: seq<Path>, kinds: Kinds, i: nat)
    requires i <= |paths| && Covered(paths, kinds)
  {
    forall d :: d in w.empty <==>
      DirectoryIn(paths, kinds, i, d) && !IsOpen(w.open, d) && !FileBelow(paths, kinds, i, d)
  }

  /** What holds between the first `i` paths and the state of the pass, even while closing. */
  ghost predicate Tracks(w: Walk, paths: seq<Path>, kinds: Kinds, i: nat)
    requires i <= |paths| && Covered(paths, kinds)
  {
    && Nested(w.open) && Distinct(w.empty)
    && OpenDirectories(w, paths, kinds, i) && MarksRight(w, paths, kinds, i) && EmptyRight(w, paths, kinds, i)
  }

  lemma CloseMarks(w: Walk, k: nat)
    requires k < |w.open| - 1
    ensures MarkedFrom(Close(w).open, k) <==> MarkedFrom(w.open, k)
  {
    var n, c := |w.open| - 1, Close(w);
    if w.open[n].hasFile {
      assert c.open[n - 1].hasFile;
    } else {
      assert c.open == w.open[..n];
      if MarkedFrom(w.open, k) {
        var m :| k <= m < |w.open| && w.open[m].hasFile;
        assert c.open[m].hasFile;
      }
    }
  }

  lemma CloseOpen(w: Walk)
    requires w.open != [] && Nested(w.open)
    ensures var top, c := w.open[|w.open| - 1], Close(w);
      && |c.open| == |w.open| - 1 && Nested(c.open)
      && (forall k :: 0 <= k < |c.open| ==> c.open[k].path == w.open[k].path)
      && (forall d :: IsOpen(c.open, d) <==> IsOpen(w.open, d) && d != top.path)
  {
    var n, c := |w.open| - 1, Close(w);
    assert forall k :: 0 <= k < n ==> c.open[k].path == w.open[k].path;
    forall d ensures IsOpen(c.open, d) <==> IsOpen(w.open, d) && d != w.open[n].path {
      if IsOpen(w.open, d) && d != w.open[n].path {
        var k :| 0 <= k < |w.open| && w.open[k].path == d;
        assert c.open[k].path == d;
      }
      if IsOpen(c.open, d) {
        var k :| 0 <= k < |c.open| && c.open[k].path == d;
        assert w.open[k].path == d && w.open[k].path < w.open[n].path;
      }
    }
  }

  lemma DistinctSnoc(s: seq<Path>, x: Path)
    requires Distinct(s) && x !in s
    ensures Distinct(s + [x])
  {
  }

  lemma CloseTracks(w: Walk, paths: seq<Path>, kinds: Kinds, i: nat)
    requires i <= |paths| && Covered(paths, kinds)
    requires w.open != [] && Tracks(w, paths, kinds, i)
    ensures Tracks(Close(w), paths, kinds, i)
  {
    var n, c := |w.open| - 1, Close(w);
    var top := w.open[n];
    CloseOpen(w);
    forall k | 0 <= k < n {
      CloseMarks(w, k);
    }
    assert IsOpen(w.open, top.path);
    assert top.hasFile <==> MarkedFrom(w.open, n);
    hide FileBelow, DirectoryIn, MarkedFrom, IsOpen, Nested, Distinct, Covered;
    assert top.path !in w.empty;
    if !top.hasFile {
      DistinctSnoc(w.empty, top.path);
    }
  }

  lemma {:induction false} CloseUntilTracks(w: Walk, path: Path, paths: seq<Path>, kinds: Kinds, i: nat)
    requires i <= |paths| && Covered(paths, kinds)
    requires Tracks(w, paths, kinds, i)
    ensures Tracks(CloseUntil(w, path), paths, kinds, i)
    ensures forall d :: IsOpen(CloseUntil(w, path).open, d) <==> IsOpen(w.open, d) && d < path
    decreases |w.open|
  {
    if w.open == [] {
    } else if w.open[|w.open| - 1].path < path {
      forall d | IsOpen(w.open, d) ensures d < path {
        var k :| 0 <= k < |w.open| && w.open[k].path == d;
        assert d <= w.open[|w.open| - 1].path;
      }
    } else {
      CloseTracks(w, paths, kinds, i);
      CloseOpen(w);
      hide Tracks, IsOpen, Nested, Covered;
      CloseUntilTracks(Close(w), path, paths, kinds, i);
    }
  }

  /** Between two paths: the open directories are the ancestors of the last one, itself included. */
  ghost predicate AncestorsOpen(w: Walk, paths: seq<Path>, kinds: Kinds, i: nat)
    requires i <= |paths| && Covered(paths, kinds)
  {
    forall d :: IsOpen(w.open, d) <==> i > 0 && DirectoryIn(paths, kinds, i, d) && d <= paths[i - 1]
  }

  /** A directory that the path order has left behind is not entered again. */
  lemma LeftBehind(paths: seq<Path>, kinds: Kinds, i: nat, d: Path)
    requires 0 < i < |paths| && Increasing(LessPath, paths) && Covered(paths, kinds)
    requires DirectoryIn(paths, kinds, i, d) && d <= paths[i]
    ensures d <= paths[i - 1]
  {
    NamesOrdered();
    var j :| 0 <= j < i && paths[j] == d;
    LexBetween(LessName, d, paths[i - 1], paths[i]);
  }

  lemma {:induction false} AfterTracks(paths: seq<Path>, kinds: Kinds, i: nat)
    requires i <= |paths| && Increasing(LessPath, paths) && Covered(paths, kinds)
    ensures Tracks(After(paths, kinds, i), paths, kinds, i)
    ensures AncestorsOpen(After(paths, kinds, i), paths, kinds, i)
    decreases i
  {
    hide *;
    if i == 0 {
      NothingTracks(paths, kinds);
    } else {
      AfterStep(paths, kinds, i);
      AfterTracks(paths, kinds, i - 1);
      VisitTracks(After(paths, kinds, i - 1), paths, kinds, i - 1);
    }
  }

  lemma AfterStep(paths: seq<Path>, kinds: Kinds, i: nat)
    requires 0 < i <= |paths| && Covered(paths, kinds)
    ensures paths[i - 1] in kinds
    ensures After(paths, kinds, i) == Visit(After(paths, kinds, i - 1), paths[i - 1], kinds[paths[i - 1]])
  {
  }

  lemma NothingTracks(paths: seq<Path>, kinds: Kinds)
    requires Covered(paths, kinds)
    ensures Tracks(After(paths, kinds, 0), paths, kinds, 0) && AncestorsOpen(After(paths, kinds, 0), paths, kinds, 0)
  {
  }

  lemma Advance(paths: seq<Path>, kinds: Kinds, i: nat, d: Path)
    requires i < |paths| && Covered(paths, kinds)
    ensures DirectoryIn(paths, kinds, i + 1, d) <==>
      DirectoryIn(paths, kinds, i, d) || (d == paths[i] && Directory in kinds[paths[i]])
    ensures FileBelow(paths, kinds, i + 1, d) <==>
      FileBelow(paths, kinds, i, d) || (d < paths[i] && PureFile(kinds[paths[i]]))
  {
  }

  /** Nothing before a path lies below it, and the path itself is new. */
  lemma NewPath(paths: seq<Path>, kinds: Kinds, i: nat)
    requires i < |paths| && Increasing(LessPath, paths) && Covered(paths, kinds)
    ensures !DirectoryIn(paths, kinds, i, paths[i]) && !FileBelow(paths, kinds, i, paths[i])
  {
    PathsOrdered();
    forall j | 0 <= j < i
      ensures paths[j] != paths[i] && !(paths[i] < paths[j])
    {
      assert LessPath(paths[j], paths[i]);
      if paths[i] < paths[j] {
        LexPrefix(LessName, paths[i], paths[j]);
        assert LessPath(paths[i], paths[j]);
      }
    }
  }

  lemma VisitTracks(w: Walk, paths: seq<Path>, kinds: Kinds, i: nat)
    requires i < |paths| && Increasing(LessPath, paths) && Covered(paths, kinds)
    requires Tracks(w, paths, kinds, i) && AncestorsOpen(w, paths, kinds, i)
    ensures Tracks(Visit(w, paths[i], kinds[paths[i]]), paths, kinds, i + 1)
    ensures AncestorsOpen(Visit(w, paths[i], kinds[paths[i]]), paths, kinds, i + 1)
  {
    var p := paths[i];
    var c := CloseUntil(w, p);
    CloseUntilTracks(w, p, paths, kinds, i);
    NewPath(paths, kinds, i);
    forall d ensures IsOpen(c.open, d) <==> DirectoryIn(paths, kinds, i, d) && d < p {
      if DirectoryIn(paths, kinds, i, d) && d < p {
        LeftBehind(paths, kinds, i, d);
      }
    }
    EnterTracks(c, paths, kinds, i);
  }

  /** With the path's own entry aside, the open directories are its ancestors. */
  lemma AncestorsStay(open: seq<Entry>, paths: seq<Path>, kinds: Kinds, i: nat)
    requires i < |paths| && Covered(paths, kinds) && Directory !in kinds[paths[i]]
    requires !DirectoryIn(paths, kinds, i, paths[i])
    requires forall d :: IsOpen(open, d) <==> DirectoryIn(paths, kinds, i, d) && d < paths[i]
    ensures AncestorsOpen(Walk(open, []), paths, kinds, i + 1)
    ensures forall d :: DirectoryIn(paths, kinds, i + 1, d) <==> DirectoryIn(paths, kinds, i, d)
  {
    hide DirectoryIn, IsOpen, Covered;
    forall d
      ensures DirectoryIn(paths, kinds, i + 1, d) <==> DirectoryIn(paths, kinds, i, d)
      ensures DirectoryIn(paths, kinds, i, d) && d <= paths[i] ==> d < paths[i]
    {
      Advance(paths, kinds, i, d);
      if DirectoryIn(paths, kinds, i, d) && d <= paths[i] {
        assert d != paths[i];
      }
    }
  }

  /** Opening the path itself, or marking the directory it stands in. */
  lemma EnterTracks(c: Walk, paths: seq<Path>, kinds: Kinds, i: nat)
    requires i < |paths| && Covered(paths, kinds)
    requires Tracks(c, paths, kinds, i)
    requires !DirectoryIn(paths, kinds, i, paths[i]) && !FileBelow(paths, kinds, i, paths[i])
    requires forall d :: IsOpen(c.open, d) <==> DirectoryIn(paths, kinds, i, d) && d < paths[i]
    ensures var p := paths[i];
      var open := if Directory in kinds[p] then c.open + [Entry(p, false)] else c.open;
      var marked := if RegularFile in kinds[p] && open != [] && open[|open| - 1].path != p then Mark(open) else open;
      Tracks(Walk(marked, c.empty), paths, kinds, i + 1) && AncestorsOpen(Walk(marked, c.empty), paths, kinds, i + 1)
  {
    var p := paths[i];
    if Directory in kinds[p] {
      EnterDirectory(c, paths, kinds, i);
    } else if RegularFile in kinds[p] && c.open != [] {
      EnterFile(c, paths, kinds, i);
    } else {
      EnterNothing(c, paths, kinds, i);
    }
  }

  lemma EnterDirectory(c: Walk, paths: seq<Path>, kinds: Kinds, i: nat)
    requires i < |paths| && Covered(paths, kinds) && Directory in kinds[paths[i]]
    requires Tracks(c, paths, kinds, i)
    requires !DirectoryIn(paths, kinds, i, paths[i]) && !FileBelow(paths, kinds, i, paths[i])
    requires forall d :: IsOpen(c.open, d) <==> DirectoryIn(paths, kinds, i, d) && d < paths[i]
    ensures var w := Walk(c.open + [Entry(paths[i], false)], c.empty);
      Tracks(w, paths, kinds, i + 1) && AncestorsOpen(w, paths, kinds, i + 1)
  {
    var p, e := paths[i], Entry(paths[i], false);
    var open := c.open + [e];
    forall d {
      Advance(paths, kinds, i, d);
    }
    OpenPush(c.open, e);
    forall k | 0 <= k < |c.open|
      ensures IsOpen(c.open, c.open[k].path) && (MarkedFrom(open, k) <==> MarkedFrom(c.open, k))
    {
      PushedMarks(c.open, e, k);
    }
    assert !MarkedFrom(open, |c.open|);
    hide FileBelow, DirectoryIn, MarkedFrom, IsOpen, Distinct, Covered;
    assert Nested(open);
  }

  lemma EnterFile(c: Walk, paths: seq<Path>, kinds: Kinds, i: nat)
    requires i < |paths| && Covered(paths, kinds) && PureFile(kinds[paths[i]]) && c.open != []
    requires Tracks(c, paths, kinds, i)
    requires !DirectoryIn(paths, kinds, i, paths[i]) && !FileBelow(paths, kinds, i, paths[i])
    requires forall d :: IsOpen(c.open, d) <==> DirectoryIn(paths, kinds, i, d) && d < paths[i]
    ensures c.open[|c.open| - 1].path != paths[i]
    ensures var w := Walk(Mark(c.open), c.empty);
      Tracks(w, paths, kinds, i + 1) && AncestorsOpen(w, paths, kinds, i + 1)
  {
    var open, n := Mark(c.open), |c.open|;
    var w := Walk(open, c.empty);
    OpenMark(c.open);
    assert IsOpen(c.open, c.open[n - 1].path);
    FileFillsOpen(c.open, paths, kinds, i);
    assert Nested(open);
    hide FileBelow, DirectoryIn, MarkedFrom, IsOpen, Distinct, Covered, Nested, PureFile;
    AncestorsStay(open, paths, kinds, i);
    forall d
      ensures DirectoryIn(paths, kinds, i, d) && !IsOpen(open, d) ==>
        (FileBelow(paths, kinds, i + 1, d) <==> FileBelow(paths, kinds, i, d))
    {
      Advance(paths, kinds, i, d);
    }
    assert OpenDirectories(w, paths, kinds, i + 1);
    assert EmptyRight(w, paths, kinds, i + 1);
  }

  lemma FileFillsOpen(open: seq<Entry>, paths: seq<Path>, kinds: Kinds, i: nat)
    requires i < |paths| && Covered(paths, kinds) && PureFile(kinds[paths[i]]) && open != []
    requires forall d :: IsOpen(open, d) ==> d < paths[i]
    ensures MarksRight(Walk(Mark(open), []), paths, kinds, i + 1)
  {
    var marked, n := Mark(open), |open|;
    assert marked[n - 1].hasFile;
    OpenMark(open);
    forall k | 0 <= k < n ensures MarkedFrom(marked, k) && FileBelow(paths, kinds, i + 1, marked[k].path) {
      assert IsOpen(open, open[k].path);
    }
  }

  lemma EnterNothing(c: Walk, paths: seq<Path>, kinds: Kinds, i: nat)
    requires i < |paths| && Covered(paths, kinds) && Directory !in kinds[paths[i]]
    requires RegularFile !in kinds[paths[i]] || c.open == []
    requires Tracks(c, paths, kinds, i)
    requires !DirectoryIn(paths, kinds, i, paths[i]) && !FileBelow(paths, kinds, i, paths[i])
    requires forall d :: IsOpen(c.open, d) <==> DirectoryIn(paths, kinds, i, d) && d < paths[i]
    ensures Tracks(c, paths, kinds, i + 1) && AncestorsOpen(c, paths, kinds, i + 1)
  {
    assert c.open == [] ==> forall d :: !IsOpen(c.open, d);
    hide FileBelow, DirectoryIn, MarkedFrom, IsOpen, Distinct, Covered, Nested;
    AncestorsStay(c.open, paths, kinds, i);
    forall d
      ensures DirectoryIn(paths, kinds, i, d) || c.open != [] ==>
        (FileBelow(paths, kinds, i + 1, d) <==> FileBelow(paths, kinds, i, d))
    {
      Advance(paths, kinds, i, d);
    }
  }

  lemma OpenPush(open: seq<Entry>, e: Entry)
    ensures forall d :: IsOpen(open + [e], d) <==> IsOpen(open, d) || d == e.path
  {
    forall d | IsOpen(open, d) ensures IsOpen(open + [e], d) {
      var k :| 0 <= k < |open| && open[k].path == d;
      assert (open + [e])[k].path == d;
    }
    assert (open + [e])[|open|] == e;
  }

  lemma PushedMarks(open: seq<Entry>, e: Entry, k: nat)
    requires !e.hasFile && k < |open|
    ensures MarkedFrom(open + [e], k) <==> MarkedFrom(open, k)
  {
    if MarkedFrom(open, k) {
      var m :| k <= m < |open| && open[m].hasFile;
      assert (open + [e])[m].hasFile;
    }
  }

  lemma OpenMark(open: seq<Entry>)
    requires open != []
    ensures forall d :: IsOpen(Mark(open), d) <==> IsOpen(open, d)
    ensures forall k :: 0 <= k < |open| ==> Mark(open)[k].path == open[k].path
  {
    forall d ensures IsOpen(Mark(open), d) <==> IsOpen(open, d) {
      if IsOpen(open, d) {
        var k :| 0 <= k < |open| && open[k].path == d;
        assert Mark(open)[k].path == d;
      }
    }
  }

  lemma {:induction false} CloseAllTracks(w: Walk, paths: seq<Path>, kinds: Kinds, i: nat)
    requires i <= |paths| && Covered(paths, kinds)
    requires Tracks(w, paths, kinds, i)
    ensures Tracks(CloseAll(w), paths, kinds, i) && CloseAll(w).open == []
    decreases |w.open|
  {
    if w.open != [] {
      CloseTracks(w, paths, kinds, i);
      CloseAllTracks(Close(w), paths, kinds, i);
    }
  }

  /** The paths recorded as directories, and those below which no pure file lies. */
  ghost predicate HoldsPureFile(kinds: Kinds, d: Path) {
    exists q :: q in kinds && d < q && PureFile(kinds[q])
  }

  /** Each directory without a pure file below it is reported, once; no other path is. */
  lemma EmptyDirectoriesExact(order: seq<Path>, kinds: Kinds)
    requires Table(order, kinds)
    ensures var empty := EmptyDirectories(order, kinds);
      Distinct(empty) && forall d :: d in empty <==> d in kinds && Directory in kinds[d] && !HoldsPureFile(kinds, d)
  {
    SortedInTable(order, kinds);
    var paths := Sort(LessPath, order);
    AfterTracks(paths, kinds, |paths|);
    CloseAllTracks(After(paths, kinds, |paths|), paths, kinds, |paths|);
    forall d ensures DirectoryIn(paths, kinds, |paths|, d) <==> d in kinds && Directory in kinds[d] {
      WholeTable(paths, kinds, d);
    }
    forall d ensures FileBelow(paths, kinds, |paths|, d) <==> HoldsPureFile(kinds, d) {
      WholeTable(paths, kinds, d);
    }
    hide FileBelow, DirectoryIn, HoldsPureFile, Distinct, Table, Increasing, Covered, CloseAll, After, Sort, Nested,
      MarkedFrom;
  }

  lemma WholeTable(paths: seq<Path>, kinds: Kinds, d: Path)
    requires forall p :: p in paths <==> p in kinds
    ensures DirectoryIn(paths, kinds, |paths|, d) <==> d in kinds && Directory in kinds[d]
    ensures FileBelow(paths, kinds, |paths|, d) <==> HoldsPureFile(kinds, d)
  {
    if d in kinds {
      assert d in paths;
    }
    if HoldsPureFile(kinds, d) {
      var q :| q in kinds && d < q && PureFile(kinds[q]);
      assert q in paths;
    }
  }

  // ---- the plain reading of emptiness ----

  ghost predicate HoldsFile(kinds: Kinds, d: Path) {
    exists q :: q in kinds && d < q && RegularFile in kinds[q]
  }

  /** A path recorded twice, as a directory and as a file, with no pure file beside it below `d`. */
  ghost predicate HidesFile(kinds: Kinds, d: Path, q: Path) {
    q in kinds && d < q && RegularFile in kinds[q] && Directory in kinds[q] &&
    forall r :: r in kinds && d < r && RegularFile in kinds[r] ==> Directory in kinds[r]
  }

  /**
   * The report agrees with the plain reading, that a directory is empty when no file-kind path lies
   * below it, exactly when no directory has only doubly recorded files below it.
   */
  lemma PlainReadingExact(order: seq<Path>, kinds: Kinds)
    requires Table(order, kinds)
    ensures (forall d :: d in kinds && Directory in kinds[d] ==>
      (d in EmptyDirectories(order, kinds) <==> !HoldsFile(kinds, d)))
      <==> !exists d, q :: d in kinds && Directory in kinds[d] && HidesFile(kinds, d, q)
  {
    EmptyDirectoriesExact(order, kinds);
    if exists d, q :: d in kinds && Directory in kinds[d] && HidesFile(kinds, d, q) {
      var d, q :| d in kinds && Directory in kinds[d] && HidesFile(kinds, d, q);
      assert HoldsFile(kinds, d) && !HoldsPureFile(kinds, d);
    }
    forall d | d in kinds && Directory in kinds[d] && HoldsFile(kinds, d) && !HoldsPureFile(kinds, d)
      ensures exists q :: HidesFile(kinds, d, q)
    {
      var q :| q in kinds && d < q && RegularFile in kinds[q];
      assert HidesFile(kinds, d, q);
    }
    forall d ensures HoldsPureFile(kinds, d) ==> HoldsFile(kinds, d) {
    }
  }

  /** No path recorded twice, so the plain reading holds: what the duplicate check guarantees. */
  lemma SingleKindsReadPlainly(order: seq<Path>, kinds: Kinds)
    requires Table(order, kinds)
    requires forall q :: q in kinds ==> !(RegularFile in kinds[q] && Directory in kinds[q])
    ensures forall d :: d in kinds && Directory in kinds[d] ==>
      (d in EmptyDirectories(order, kinds) <==> !HoldsFile(kinds, d))
  {
    PlainReadingExact(order, kinds);
  }

  /** A doubly recorded path does not fill the directory above it. */
  lemma DoubleKindHidesFile()
    ensures var a, b: Path, c := ["r", "a"], ["r", "a", "b"], {Directory, RegularFile};
      var kinds: Kinds := map[a := {Directory}, b := c];
      Table([a, b], kinds) && HoldsFile(kinds, a) && a in EmptyDirectories([a, b], kinds)
  {
    var a: Path, b: Path := ["r", "a"], ["r", "a", "b"];
    var kinds: Kinds := map[a := {Directory}, b := {Directory, RegularFile}];
    assert |a| == 2 && |b| == 3;
    EmptyDirectoriesExact([a, b], kinds);
    assert HidesFile(kinds, a, b);
    assert !HoldsPureFile(kinds, a);
  }

  // ---- acceptance ----

  ghost predicate ParentsPresent(kinds: Kinds) {
    forall p :: p in kinds && |p| > 2 ==> p[..|p| - 1] in kinds && Directory in kinds[p[..|p| - 1]]
  }

  lemma {:induction false} NoMissingParents(order: seq<Path>, kinds: Kinds)
    ensures MissingParents(order, kinds) == [] <==> forall p :: p in order ==> !ParentMissing(p, kinds)
  {
    if order != [] {
      var front, last := order[..|order| - 1], order[|order| - 1];
      NoMissingParents(front, kinds);
      assert order == front + [last];
    }
  }

  lemma ParentsExact(order: seq<Path>, kinds: Kinds)
    requires Table(order, kinds)
    ensures MissingParents(order, kinds) == [] <==> ParentsPresent(kinds)
  {
    hide MissingParents;
    NoMissingParents(order, kinds);
  }

  lemma NothingIn<T>(s: seq<T>)
    ensures s == [] <==> forall x :: x !in s
  {
    if s != [] {
      assert s[0] in s;
    }
  }

  /** No failure at all, in the terms a reader of the archive would use. */
  lemma AcceptedExact(sequence: seq<Path>, order: seq<Path>, kinds: Kinds)
    requires Table(order, kinds)
    ensures Report(sequence, order, kinds) == [] <==>
      && (forall p :: p in sequence ==> |p| != 1)
      && NonDecreasing(LessPath, sequence)
      && ParentsPresent(kinds)
      && (forall d :: d in kinds && Directory in kinds[d] ==> HoldsPureFile(kinds, d))
  {
    hide *;
    PathsOrdered();
    SortedExact(LessPath, sequence);
    ParentsExact(order, kinds);
    EmptyDirectoriesExact(order, kinds);
    NothingIn(EmptyDirectories(order, kinds));
    RootInSequence(sequence);
    ReportParts(sequence, order, kinds);
  }

  lemma RootInSequence(sequence: seq<Path>)
    ensures HasRoot(sequence) <==> exists p :: p in sequence && |p| == 1
  {
  }

  lemma ReportParts(sequence: seq<Path>, order: seq<Path>, kinds: Kinds)
    requires Table(order, kinds)
    ensures Report(sequence, order, kinds) == [] <==>
      !HasRoot(sequence) && Sort(LessPath, sequence) == sequence && MissingParents(order, kinds) == [] &&
      EmptyDirectories(order, kinds) == []
  {
    hide EmptyDirectories, Sort, MissingParents, HasRoot;
  }
}
