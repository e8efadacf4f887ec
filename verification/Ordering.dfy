/** Lexicographic order and sorting, for names (by character) and for paths (by name). */
module Ordering {

  type Name = string
  type Path = seq<Name>

  // ---- lexicographic order over any strict total order ----

  ghost predicate StrictTotal<T(!new)>(less: (T, T) -> bool) {
    && (forall a :: !less(a, a))
    && (forall a, b :: less(a, b) || a == b || less(b, a))
    && (forall a, b, c :: less(a, b) && less(b, c) ==> less(a, c))
  }

  /** An order in which distinct elements may be equivalent, as entries with one key are. */
  ghost predicate WeakOrder<T(!new)>(less: (T, T) -> bool) {
    && (forall a :: !less(a, a))
    && (forall a, b, c :: less(a, b) && less(b, c) ==> less(a, c))
    && (forall a, b, c :: less(a, c) ==> less(a, b) || less(b, c))
  }

  lemma TotalIsWeak<T(!new)>(less: (T, T) -> bool)
    requires StrictTotal(less)
    ensures WeakOrder(less)
  {
  }

  predicate Lex<T(==)>(less: (T, T) -> bool, a: seq<T>, b: seq<T>) {
    if b == [] then false
    else if a == [] then true
    else if a[0] == b[0] then Lex(less, a[1..], b[1..])
    else less(a[0], b[0])
  }

  lemma {:induction false} LexIrreflexive<T(!new)>(less: (T, T) -> bool, a: seq<T>)
    requires StrictTotal(less)
    ensures !Lex(less, a, a)
  {
    if a != [] {
      LexIrreflexive(less, a[1..]);
    }
  }

  lemma {:induction false} LexTotal<T(!new)>(less: (T, T) -> bool, a: seq<T>, b: seq<T>)
    requires StrictTotal(less)
    ensures Lex(less, a, b) || a == b || Lex(less, b, a)
  {
    if a != [] && b != [] && a[0] == b[0] {
      LexTotal(less, a[1..], b[1..]);
      if a[1..] == b[1..] {
        assert a == [a[0]] + a[1..] && b == [b[0]] + b[1..];
      }
    }
  }

  lemma {:induction false} LexTransitive<T(!new)>(less: (T, T) -> bool, a: seq<T>, b: seq<T>, c: seq<T>)
    requires StrictTotal(less) && Lex(less, a, b) && Lex(less, b, c)
    ensures Lex(less, a, c)
  {
    if a != [] {
      if a[0] == b[0] && b[0] == c[0] {
        LexTransitive(less, a[1..], b[1..], c[1..]);
      }
    }
  }

  /** Everything between a prefix and one of its extensions extends the prefix too. */
  lemma {:induction false} LexBetween<T(!new)>(less: (T, T) -> bool, d: seq<T>, x: seq<T>, y: seq<T>)
    requires StrictTotal(less) && d <= y && (d == x || Lex(less, d, x)) && Lex(less, x, y)
    ensures d <= x
  {
    if d != [] && d != x {
      assert d[0] == y[0];
      if d[0] != x[0] {
        assert false;
      }
      assert d == [d[0]] + d[1..] && x == [x[0]] + x[1..];
      assert d[1..] <= y[1..];
      LexBetween(less, d[1..], x[1..], y[1..]);
    }
  }

  lemma {:induction false} LexPrefix<T(!new)>(less: (T, T) -> bool, d: seq<T>, x: seq<T>)
    requires d < x
    ensures Lex(less, d, x)
  {
    if d != [] {
      LexPrefix(less, d[1..], x[1..]);
    }
  }

  lemma {:induction false} LexAppend<T(!new)>(less: (T, T) -> bool, p: seq<T>, a: seq<T>, b: seq<T>)
    ensures Lex(less, p + a, p + b) <==> Lex(less, a, b)
  {
    if p == [] {
      assert p + a == a && p + b == b;
    } else {
      LexAppend(less, p[1..], a, b);
      assert (p + a)[1..] == p[1..] + a && (p + b)[1..] == p[1..] + b;
    }
  }

  // ---- names and paths ----

  predicate LessChar(a: char, b: char) {
    a < b
  }

  predicate LessName(a: Name, b: Name) {
    Lex(LessChar, a, b)
  }

  predicate LessPath(a: Path, b: Path) {
    Lex(LessName, a, b)
  }

  lemma NamesOrdered()
    ensures StrictTotal(LessName)
  {
    assert StrictTotal(LessChar);
    forall a: Name ensures !LessName(a, a) {
      LexIrreflexive(LessChar, a);
    }
    forall a: Name, b: Name ensures LessName(a, b) || a == b || LessName(b, a) {
      LexTotal(LessChar, a, b);
    }
    forall a: Name, b: Name, c: Name | LessName(a, b) && LessName(b, c) ensures LessName(a, c) {
      LexTransitive(LessChar, a, b, c);
    }
  }

  lemma PathsOrdered()
    ensures StrictTotal(LessPath)
  {
    NamesOrdered();
    forall a: Path ensures !LessPath(a, a) {
      LexIrreflexive(LessName, a);
    }
    forall a: Path, b: Path ensures LessPath(a, b) || a == b || LessPath(b, a) {
      LexTotal(LessName, a, b);
    }
    forall a: Path, b: Path, c: Path | LessPath(a, b) && LessPath(b, c) ensures LessPath(a, c) {
      LexTransitive(LessName, a, b, c);
    }
  }

  // ---- sorting ----

  function Insert<T>(less: (T, T) -> bool, x: T, s: seq<T>): seq<T> {
    if s == [] then [x]
    else if less(s[0], x) then [s[0]] + Insert(less, x, s[1..])
    else [x] + s
  }

  /** The sorted sequence; elements that compare equal keep their order. */
  function Sort<T>(less: (T, T) -> bool, s: seq<T>): seq<T> {
    if s == [] then [] else Insert(less, s[0], Sort(less, s[1..]))
  }

  ghost predicate NonDecreasing<T(!new)>(less: (T, T) -> bool, s: seq<T>) {
    forall i, j :: 0 <= i < j < |s| ==> !less(s[j], s[i])
  }

  ghost predicate Increasing<T(!new)>(less: (T, T) -> bool, s: seq<T>) {
    forall i, j :: 0 <= i < j < |s| ==> less(s[i], s[j])
  }

  ghost predicate Distinct<T>(s: seq<T>) {
    forall i, j :: 0 <= i < j < |s| ==> s[i] != s[j]
  }

  lemma {:induction false} InsertKeeps<T(!new)>(less: (T, T) -> bool, x: T, s: seq<T>)
    ensures multiset(Insert(less, x, s)) == multiset{x} + multiset(s)
  {
    if s != [] {
      assert s == [s[0]] + s[1..];
      InsertKeeps(less, x, s[1..]);
    }
  }

  lemma {:induction false} InsertSorts<T(!new)>(less: (T, T) -> bool, x: T, s: seq<T>)
    requires WeakOrder(less) && NonDecreasing(less, s)
    ensures NonDecreasing(less, Insert(less, x, s))
  {
    if s != [] && less(s[0], x) {
      var rest := s[1..];
      assert NonDecreasing(less, rest);
      InsertSorts(less, x, rest);
      InsertKeeps(less, x, rest);
      var r := Insert(less, x, rest);
      forall j | 0 <= j < |r| ensures !less(r[j], s[0]) {
        assert r[j] in multiset(r);
        if r[j] != x {
          assert r[j] in rest;
        }
      }
    }
  }

  lemma {:induction false} SortSorts<T(!new)>(less: (T, T) -> bool, s: seq<T>)
    requires WeakOrder(less)
    ensures NonDecreasing(less, Sort(less, s))
    ensures multiset(Sort(less, s)) == multiset(s)
  {
    if s != [] {
      SortSorts(less, s[1..]);
      InsertSorts(less, s[0], Sort(less, s[1..]));
      InsertKeeps(less, s[0], Sort(less, s[1..]));
      assert s == [s[0]] + s[1..];
    }
  }

  lemma {:induction false} SortFixes<T(!new)>(less: (T, T) -> bool, s: seq<T>)
    requires NonDecreasing(less, s)
    ensures Sort(less, s) == s
  {
    if s != [] {
      assert NonDecreasing(less, s[1..]);
      SortFixes(less, s[1..]);
      if |s| > 1 {
        assert !less(s[1], s[0]);
      }
      assert s == [s[0]] + s[1..];
    }
  }

  /** Comparing a sequence with its sorted form tells exactly whether it was sorted. */
  lemma SortedExact<T(!new)>(less: (T, T) -> bool, s: seq<T>)
    requires StrictTotal(less)
    ensures Sort(less, s) == s <==> NonDecreasing(less, s)
  {
    TotalIsWeak(less);
    SortSorts(less, s);
    if NonDecreasing(less, s) {
      SortFixes(less, s);
    }
  }

  lemma MultisetDistinct<T(!new)>(s: seq<T>, i: nat, j: nat)
    requires i < j < |s| && s[i] == s[j]
    ensures multiset(s)[s[i]] >= 2
  {
    assert s == s[..i] + [s[i]] + s[i + 1..j] + [s[j]] + s[j + 1..];
  }

  lemma {:induction false} DistinctOnce<T(!new)>(s: seq<T>, x: T)
    requires Distinct(s)
    ensures multiset(s)[x] <= 1
  {
    if s != [] {
      DistinctOnce(s[1..], x);
      assert s == [s[0]] + s[1..];
      if x == s[0] {
        assert x !in s[1..];
      }
    }
  }

  /** Sorting distinct elements yields the same elements, strictly increasing. */
  lemma SortDistinct<T(!new)>(less: (T, T) -> bool, s: seq<T>)
    requires StrictTotal(less) && Distinct(s)
    ensures Increasing(less, Sort(less, s))
    ensures forall x :: x in Sort(less, s) <==> x in s
    ensures |Sort(less, s)| == |s|
  {
    TotalIsWeak(less);
    SortSorts(less, s);
    var r := Sort(less, s);
    forall i, j | 0 <= i < j < |r| ensures less(r[i], r[j]) {
      if r[i] == r[j] {
        MultisetDistinct(r, i, j);
        DistinctOnce(s, r[i]);
      }
    }
    forall x ensures x in r <==> x in s {
      assert x in r <==> x in multiset(r);
      assert x in s <==> x in multiset(s);
    }
    assert |multiset(r)| == |r| && |multiset(s)| == |s|;
  }
}
