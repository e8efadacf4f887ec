/** The topology check as the auditor runs it, appending to a bounded list of failures. */
module TopologyAudit {
  import opened Ordering
  import opened Topology

  /** A list that refuses to grow past its limit: the refused append raises. */
  class AuditFailures {
    var messages: seq<Failure>

    constructor ()
      ensures messages == []
    {
      messages := [];
    }

    method Append(f: Failure) returns (appended: bool)
      requires |messages| <= MAX_FAILURES
      modifies this
      ensures |messages| <= MAX_FAILURES
      ensures Recorded(old(messages), [f], messages, appended)
    {
      if |messages| >= MAX_FAILURES {
        return false;
      }
      messages := messages + [f];
      return true;
    }
  }

  /** All of `whole` was appended, or as much of it as fits and the next append raised. */
  ghost predicate Recorded(before: seq<Failure>, whole: seq<Failure>, now: seq<Failure>, completed: bool) {
    && (completed <==> |before| + |whole| <= MAX_FAILURES)
    && now == if completed then before + whole else (before + whole)[..MAX_FAILURES]
  }

  lemma RecordedBoth(before: seq<Failure>, first: seq<Failure>, middle: seq<Failure>, second: seq<Failure>,
                     now: seq<Failure>, completed: bool)
    requires Recorded(before, first, middle, true) && Recorded(middle, second, now, completed)
    ensures Recorded(before, first + second, now, completed)
  {
    assert before + (first + second) == (before + first) + second;
  }

  lemma RecordedPart(before: seq<Failure>, first: seq<Failure>, now: seq<Failure>, second: seq<Failure>)
    requires Recorded(before, first, now, false) && |before| <= MAX_FAILURES
    ensures Recorded(before, first + second, now, false)
  {
    assert before + (first + second) == (before + first) + second;
  }

  /** Continues the pass from path `i` to the end. */
  function Finish(w: Walk, paths: seq<Path>, kinds: Kinds, i: nat): Walk
    requires i <= |paths| && Covered(paths, kinds)
    decreases |paths| - i
  {
    if i == |paths| then CloseAll(w) else Finish(Visit(w, paths[i], kinds[paths[i]]), paths, kinds, i + 1)
  }

  lemma {:induction false} FinishIsAfter(paths: seq<Path>, kinds: Kinds, i: nat)
    requires i <= |paths| && Covered(paths, kinds)
    ensures Finish(After(paths, kinds, i), paths, kinds, i) == CloseAll(After(paths, kinds, |paths|))
    decreases |paths| - i
  {
    hide Visit, CloseAll, Covered;
    if i < |paths| {
      FinishIsAfter(paths, kinds, i + 1);
      AfterStep(paths, kinds, i + 1);
    }
  }

  lemma {:induction false} CloseUntilExtends(w: Walk, path: Path)
    ensures w.empty <= CloseUntil(w, path).empty
    decreases |w.open|
  {
    if w.open != [] && !(w.open[|w.open| - 1].path < path) {
      CloseUntilExtends(Close(w), path);
    }
  }

  lemma {:induction false} CloseAllExtends(w: Walk)
    ensures w.empty <= CloseAll(w).empty
    decreases |w.open|
  {
    if w.open != [] {
      CloseAllExtends(Close(w));
    }
  }

  lemma CoveredAt(paths: seq<Path>, kinds: Kinds, i: nat)
    requires i < |paths| && Covered(paths, kinds)
    ensures paths[i] in kinds
  {
  }

  lemma {:induction false} FinishExtends(w: Walk, paths: seq<Path>, kinds: Kinds, i: nat)
    requires i <= |paths| && Covered(paths, kinds)
    ensures w.empty <= Finish(w, paths, kinds, i).empty
    decreases |paths| - i
  {
    hide CloseAll, CloseUntil, Covered;
    if i == |paths| {
      CloseAllExtends(w);
    } else {
      CloseUntilExtends(w, paths[i]);
      CoveredAt(paths, kinds, i);
      FinishExtends(Visit(w, paths[i], kinds[paths[i]]), paths, kinds, i + 1);
    }
  }

  /** Pops the innermost directory, and reports or propagates. */
  method CloseDirectory(ghost w: Walk, open: seq<Entry>, failures: AuditFailures)
    returns (rest: seq<Entry>, completed: bool)
    requires w.open == open != [] && |failures.messages| <= MAX_FAILURES
    modifies failures
    ensures rest == Close(w).open && |failures.messages| <= MAX_FAILURES
    ensures w.empty <= Close(w).empty
    ensures Recorded(old(failures.messages), Reported(Close(w).empty[|w.empty|..]), failures.messages, completed)
  {
    var top := open[|open| - 1];
    rest := open[..|open| - 1];
    completed := true;
    if !top.hasFile {
      assert (w.empty + [top.path])[|w.empty|..] == [top.path];
      assert Reported([top.path]) == [EmptyDirectory(top.path)];
      completed := failures.Append(EmptyDirectory(top.path));
    } else if rest != [] {
      rest := Mark(rest);
    }
  }

  lemma ReportedSlice(empty: seq<Path>, i: nat, j: nat)
    requires i <= j <= |empty|
    ensures Reported(empty[..i]) + Reported(empty[i..j]) == Reported(empty[..j])
    ensures Reported(empty[..j]) + Reported(empty[j..]) == Reported(empty)
  {
  }

  /** One closing recorded after the ones before it. */
  lemma ClosingRecorded(before: seq<Failure>, empty: seq<Path>, w: Walk, middle: seq<Failure>, now: seq<Failure>,
                        ok: bool)
    requires w.open != [] && w.empty <= Close(w).empty <= empty && |before| <= MAX_FAILURES
    requires Recorded(before, Reported(w.empty), middle, true)
    requires Recorded(middle, Reported(Close(w).empty[|w.empty|..]), now, ok)
    ensures ok ==> Recorded(before, Reported(Close(w).empty), now, true)
    ensures !ok ==> Recorded(before, Reported(empty), now, false)
  {
    var i, j := |w.empty|, |Close(w).empty|;
    assert empty[..i] == w.empty && empty[..j] == Close(w).empty && empty[i..j] == Close(w).empty[i..];
    ReportedSlice(empty, i, j);
    hide Close, Recorded;
    RecordedBoth(before, Reported(w.empty), middle, Reported(empty[i..j]), now, ok);
    if !ok {
      RecordedPart(before, Reported(Close(w).empty), now, Reported(empty[j..]));
    }
  }

  /** The last part of the check: the pass with its stack. */
  method ReportEmptyDirectories(order: seq<Path>, kinds: Kinds, failures: AuditFailures) returns (completed: bool)
    requires Table(order, kinds) && |failures.messages| <= MAX_FAILURES
    modifies failures
    ensures Recorded(old(failures.messages), Reported(EmptyDirectories(order, kinds)), failures.messages, completed)
    ensures |failures.messages| <= MAX_FAILURES
  {
    hide *;
    SortedInTable(order, kinds);
    var paths := Sort(LessPath, order);
    ghost var before := failures.messages;
    ghost var empty := EmptyDirectories(order, kinds);
    ghost var w := NOTHING_OPEN;
    var open: seq<Entry> := [];
    PassBegins(order, kinds, before);
    for i := 0 to |paths|
      invariant w.open == open && Covered(paths, kinds)
      invariant Finish(w, paths, kinds, i).empty == empty
      invariant Recorded(before, Reported(w.empty), failures.messages, true)
      invariant |failures.messages| <= MAX_FAILURES
    {
      var path := paths[i];
      CoveredAt(paths, kinds, i);
      ghost var target := Visit(w, path, kinds[path]);
      ghost var goal := CloseUntil(w, path);
      VisitParts(w, path, kinds[path]);
      FinishStep(w, paths, kinds, i);
      FinishExtends(target, paths, kinds, i + 1);
      while open != [] && !(open[|open| - 1].path < path)
        invariant w.open == open && CloseUntil(w, path) == goal
        invariant Recorded(before, Reported(w.empty), failures.messages, true)
        invariant |failures.messages| <= MAX_FAILURES
        decreases |open|
      {
        CloseUntilStep(w, path);
        CloseUntilExtends(Close(w), path);
        CloseShape(w);
        ghost var middle := failures.messages;
        var ok: bool;
        open, ok := CloseDirectory(w, open, failures);
        ClosingRecorded(before, empty, w, middle, failures.messages, ok);
        if !ok {
          return false;
        }
        w := Close(w);
      }
      CloseUntilDone(w, path);
      if Directory in kinds[path] {
        open := open + [Entry(path, false)];
      }
      if RegularFile in kinds[path] && open != [] {
        var current := open[|open| - 1].path;
        if current != path {
          open := Mark(open);
        }
      }
      w := target;
    }
    FinishEnds(w, paths, kinds);
    while open != []
      invariant w.open == open && CloseAll(w).empty == empty
      invariant Recorded(before, Reported(w.empty), failures.messages, true)
      invariant |failures.messages| <= MAX_FAILURES
      decreases |open|
    {
      CloseAllStep(w);
      CloseAllExtends(Close(w));
      CloseShape(w);
      ghost var middle := failures.messages;
      var ok: bool;
      open, ok := CloseDirectory(w, open, failures);
      ClosingRecorded(before, empty, w, middle, failures.messages, ok);
      if !ok {
        return false;
      }
      w := Close(w);
    }
    CloseAllDone(w);
    completed := true;
  }

  lemma PassBegins(order: seq<Path>, kinds: Kinds, before: seq<Failure>)
    requires Table(order, kinds) && |before| <= MAX_FAILURES
    ensures Recorded(before, Reported(NOTHING_OPEN.empty), before, true) && NOTHING_OPEN.open == []
    ensures var paths := Sort(LessPath, order);
      Covered(paths, kinds) && Finish(NOTHING_OPEN, paths, kinds, 0).empty == EmptyDirectories(order, kinds)
  {
    SortedInTable(order, kinds);
    FinishIsAfter(Sort(LessPath, order), kinds, 0);
    assert Reported([]) == [];
  }

  lemma VisitParts(w: Walk, path: Path, kinds: set<Kind>)
    ensures var c := CloseUntil(w, path);
      var open := if Directory in kinds then c.open + [Entry(path, false)] else c.open;
      Visit(w, path, kinds) ==
        Walk(if RegularFile in kinds && open != [] && open[|open| - 1].path != path then Mark(open) else open, c.empty)
    ensures w.empty <= CloseUntil(w, path).empty
  {
    CloseUntilExtends(w, path);
  }

  lemma FinishStep(w: Walk, paths: seq<Path>, kinds: Kinds, i: nat)
    requires i < |paths| && Covered(paths, kinds)
    ensures Finish(w, paths, kinds, i) == Finish(Visit(w, paths[i], kinds[paths[i]]), paths, kinds, i + 1)
  {
  }

  lemma FinishEnds(w: Walk, paths: seq<Path>, kinds: Kinds)
    requires Covered(paths, kinds)
    ensures Finish(w, paths, kinds, |paths|) == CloseAll(w)
  {
  }

  lemma CloseUntilStep(w: Walk, path: Path)
    requires w.open != [] && !(w.open[|w.open| - 1].path < path)
    ensures CloseUntil(w, path) == CloseUntil(Close(w), path)
  {
  }

  lemma CloseUntilDone(w: Walk, path: Path)
    requires w.open == [] || w.open[|w.open| - 1].path < path
    ensures CloseUntil(w, path) == w
  {
  }

  lemma CloseAllStep(w: Walk)
    requires w.open != []
    ensures CloseAll(w) == CloseAll(Close(w))
  {
  }

  lemma CloseAllDone(w: Walk)
    requires w.open == []
    ensures CloseAll(w) == w
  {
  }

  lemma CloseShape(w: Walk)
    requires w.open != []
    ensures w.empty <= Close(w).empty && |Close(w).empty| <= |w.empty| + 1 && |Close(w).open| == |w.open| - 1
  {
  }

  // ---- the whole check ----

  method ValidateBuilderTopology(sequence: seq<Path>, order: seq<Path>, kinds: Kinds, failures: AuditFailures)
    returns (completed: bool)
    requires Table(order, kinds) && |failures.messages| <= MAX_FAILURES
    modifies failures
    ensures Recorded(old(failures.messages), Report(sequence, order, kinds), failures.messages, completed)
  {
    hide *;
    ghost var before := failures.messages;
    ghost var missing := MissingParents(order, kinds);
    ghost var empty := Reported(EmptyDirectories(order, kinds));
    ReportIs(sequence, order, kinds);
    RecordedNothing(before);
    ghost var recorded: seq<Failure> := [];
    ghost var middle := before;
    if HasRoot(sequence) {
      completed := failures.Append(ExplicitRoot);
      ghost var left := Unsorted(sequence) + (missing + empty);
      RecordedNext(before, [], middle, [ExplicitRoot], failures.messages, completed, left);
      if !completed {
        return;
      }
      recorded, middle := [ExplicitRoot], failures.messages;
    }
    var expectedOrder := Sort(LessPath, sequence);
    if sequence != expectedOrder {
      completed := failures.Append(NotCanonicalOrder);
      RecordedNext(before, recorded, middle, [NotCanonicalOrder], failures.messages, completed, missing + empty);
      if !completed {
        return;
      }
      recorded, middle := recorded + [NotCanonicalOrder], failures.messages;
    }
    completed := ReportMissingParents(order, kinds, failures);
    RecordedNext(before, recorded, middle, missing, failures.messages, completed, empty);
    if completed {
      recorded, middle := recorded + missing, failures.messages;
      completed := ReportEmptyDirectories(order, kinds, failures);
      RecordedNext(before, recorded, middle, empty, failures.messages, completed, []);
    }
  }

  ghost function Unsorted(sequence: seq<Path>): seq<Failure> {
    if Sort(LessPath, sequence) != sequence then [NotCanonicalOrder] else []
  }

  lemma ReportIs(sequence: seq<Path>, order: seq<Path>, kinds: Kinds)
    requires Table(order, kinds)
    ensures Unsorted(sequence) == if sequence != Sort(LessPath, sequence) then [NotCanonicalOrder] else []
    ensures var rest := MissingParents(order, kinds) + Reported(EmptyDirectories(order, kinds));
      var report := Report(sequence, order, kinds);
      && report == (if HasRoot(sequence) then [ExplicitRoot] else []) + (Unsorted(sequence) + rest)
      && (Sort(LessPath, sequence) == sequence ==> Unsorted(sequence) + rest == rest)
  {
    hide MissingParents, EmptyDirectories, Sort, HasRoot;
  }

  lemma RecordedNothing(before: seq<Failure>)
    requires |before| <= MAX_FAILURES
    ensures Recorded(before, [], before, true)
  {
  }

  lemma RecordedNext(before: seq<Failure>, first: seq<Failure>, middle: seq<Failure>, second: seq<Failure>,
                     now: seq<Failure>, completed: bool, rest: seq<Failure>)
    requires Recorded(before, first, middle, true) && Recorded(middle, second, now, completed) &&
      |before| <= MAX_FAILURES
    ensures completed ==> Recorded(before, first + second, now, true)
    ensures !completed ==> Recorded(before, first + (second + rest), now, false)
    ensures rest == [] ==> second + rest == second
    ensures first == [] ==> first + (second + rest) == second + rest && first + second == second
    ensures first + (second + rest) == (first + second) + rest
  {
    RecordedBoth(before, first, middle, second, now, completed);
    if !completed {
      assert first + (second + rest) == (first + second) + rest;
      RecordedPart(before, first + second, now, rest);
    }
  }

  method ReportMissingParents(order: seq<Path>, kinds: Kinds, failures: AuditFailures) returns (completed: bool)
    requires Table(order, kinds) && |failures.messages| <= MAX_FAILURES
    modifies failures
    ensures Recorded(old(failures.messages), MissingParents(order, kinds), failures.messages, completed)
    ensures |failures.messages| <= MAX_FAILURES
  {
    hide *;
    ghost var before := failures.messages;
    RecordedNothing(before);
    MissingParentsNone(order, kinds);
    for i := 0 to |order|
      invariant |failures.messages| <= MAX_FAILURES
      invariant Recorded(before, MissingParents(order[..i], kinds), failures.messages, true)
    {
      MissingParentsStep(order, kinds, i);
      var path := order[i];
      if ParentMissing(path, kinds) {
        ghost var middle := failures.messages;
        var ok := failures.Append(MissingParent(path[..|path| - 1]));
        ghost var rest := MissingParentsRest(order, kinds, i + 1);
        RecordedNext(before, MissingParents(order[..i], kinds), middle, [MissingParent(path[..|path| - 1])],
          failures.messages, ok, rest);
        if !ok {
          return false;
        }
      }
    }
    assert order[..|order|] == order;
    completed := true;
  }

  lemma MissingParentsNone(order: seq<Path>, kinds: Kinds)
    ensures MissingParents(order[..0], kinds) == []
  {
  }

  lemma MissingParentsStep(order: seq<Path>, kinds: Kinds, i: nat)
    requires i < |order|
    ensures MissingParents(order[..i + 1], kinds) ==
      if ParentMissing(order[i], kinds)
        then MissingParents(order[..i], kinds) + [MissingParent(order[i][..|order[i]| - 1])]
      else MissingParents(order[..i], kinds)
  {
    assert order[..i + 1][..i] == order[..i];
  }

  lemma MissingParentsRest(order: seq<Path>, kinds: Kinds, i: nat) returns (rest: seq<Failure>)
    requires i <= |order|
    ensures MissingParents(order[..i], kinds) + rest == MissingParents(order, kinds)
  {
    hide *;
    MissingParentsGrow(order, kinds, i);
    rest := MissingParents(order, kinds)[|MissingParents(order[..i], kinds)|..];
  }

  lemma {:induction false} MissingParentsGrow(order: seq<Path>, kinds: Kinds, i: nat)
    requires i <= |order|
    ensures MissingParents(order[..i], kinds) <= MissingParents(order, kinds)
    decreases |order| - i
  {
    hide *;
    if i == |order| {
      assert order[..i] == order;
    } else {
      MissingParentsStep(order, kinds, i);
      MissingParentsGrow(order, kinds, i + 1);
    }
  }
}
