/** Sums of a weight over finite sets. */
module FiniteSums {

  ghost function SumOver<T>(s: set<T>, weight: T -> nat): nat {
    if s == {} then 0
    else
      var x :| x in s;
      weight(x) + SumOver(s - {x}, weight)
  }

  lemma {:induction false} SumAdd<T>(s: set<T>, x: T, weight: T -> nat)
    requires x !in s
    ensures SumOver(s + {x}, weight) == SumOver(s, weight) + weight(x)
  {
    var t := s + {x};
    var y :| y in t && SumOver(t, weight) == weight(y) + SumOver(t - {y}, weight);
    if y == x {
      assert t - {y} == s;
    } else {
      SumAdd(s - {y}, x, weight);
      assert t - {y} == (s - {y}) + {x};
      SumAdd(s - {y}, y, weight);
      assert (s - {y}) + {y} == s;
    }
  }

  lemma {:induction false} SumUnion<T>(a: set<T>, b: set<T>, weight: T -> nat)
    requires a !! b
    ensures SumOver(a + b, weight) == SumOver(a, weight) + SumOver(b, weight)
  {
    if b == {} {
      assert a + b == a;
    } else {
      var x :| x in b;
      SumUnion(a, b - {x}, weight);
      SumAdd(b - {x}, x, weight);
      SumAdd(a + (b - {x}), x, weight);
      assert (b - {x}) + {x} == b && (a + (b - {x})) + {x} == a + b;
    }
  }

  /** A shared element is paid for once. */
  lemma SumSharedUnion<T>(a: set<T>, b: set<T>, weight: T -> nat)
    ensures SumOver(a + b, weight) <= SumOver(a, weight) + SumOver(b, weight)
  {
    SumUnion(a, b - a, weight);
    SumUnion(b * a, b - a, weight);
    assert a + (b - a) == a + b && b * a + (b - a) == b;
  }

  lemma SumPart<T>(a: set<T>, b: set<T>, weight: T -> nat)
    requires a <= b
    ensures SumOver(a, weight) <= SumOver(b, weight)
  {
    SumUnion(a, b - a, weight);
    assert a + (b - a) == b;
  }

  lemma {:induction false} SumSame<T>(s: set<T>, v: T -> nat, w: T -> nat)
    requires forall x :: x in s ==> v(x) == w(x)
    ensures SumOver(s, v) == SumOver(s, w)
  {
    if s != {} {
      var x :| x in s && SumOver(s, v) == v(x) + SumOver(s - {x}, v);
      SumSame(s - {x}, v, w);
      SumAdd(s - {x}, x, w);
      assert (s - {x}) + {x} == s;
    }
  }

  ghost function Image<S, T>(s: set<S>, f: S -> T): set<T> {
    set x | x in s :: f(x)
  }

  /** Renaming the elements one by one changes no sum and no count. */
  lemma {:induction false} SumImage<S, T>(s: set<S>, f: S -> T, v: S -> nat, w: T -> nat)
    requires forall x, y :: x in s && y in s && f(x) == f(y) ==> x == y
    requires forall x :: x in s ==> v(x) == w(f(x))
    ensures SumOver(Image(s, f), w) == SumOver(s, v) && |Image(s, f)| == |s|
  {
    if s == {} {
      assert Image(s, f) == {};
    } else {
      var x :| x in s && SumOver(s, v) == v(x) + SumOver(s - {x}, v);
      var rest := Image(s - {x}, f);
      SumImage(s - {x}, f, v, w);
      assert f(x) !in rest && Image(s, f) == rest + {f(x)};
      SumAdd(rest, f(x), w);
    }
  }

  lemma {:induction false} SumShift<T>(s: set<T>, v: T -> nat, w: T -> nat, c: nat)
    requires forall x :: x in s ==> w(x) == v(x) + c
    ensures SumOver(s, w) == SumOver(s, v) + c * |s|
  {
    if s != {} {
      var x :| x in s && SumOver(s, v) == v(x) + SumOver(s - {x}, v);
      SumShift(s - {x}, v, w, c);
      SumAdd(s - {x}, x, w);
      assert (s - {x}) + {x} == s && |s| == |s - {x}| + 1;
      TimesNext(c, |s - {x}|);
    }
  }

  lemma {:induction false} SumConstant<T>(s: set<T>, w: T -> nat, c: nat)
    requires forall x :: x in s ==> w(x) == c
    ensures SumOver(s, w) == c * |s|
  {
    if s != {} {
      var x :| x in s && SumOver(s, w) == w(x) + SumOver(s - {x}, w);
      SumConstant(s - {x}, w, c);
      assert |s| == |s - {x}| + 1;
      TimesNext(c, |s - {x}|);
    }
  }

  lemma TimesNext(c: nat, n: nat)
    ensures c * (n + 1) == c * n + c
  {
  }

  // ----- Sums over sequences -------------------------------------------------------------

  ghost function Total<T>(s: seq<T>, weight: T -> nat): nat {
    if s == [] then 0 else weight(s[0]) + Total(s[1..], weight)
  }

  /** Without repetition the sum over a sequence is the sum over its elements. */
  lemma {:induction false} TotalDistinct<T>(s: seq<T>, weight: T -> nat)
    requires forall i, j :: 0 <= i < j < |s| ==> s[i] != s[j]
    ensures Total(s, weight) == SumOver((set x | x in s), weight) && |s| == |set x | x in s|
  {
    if s != [] {
      var rest := set x | x in s[1..];
      TotalDistinct(s[1..], weight);
      assert (set x | x in s) == rest + {s[0]} && s[0] !in rest;
      SumAdd(rest, s[0], weight);
    }
  }
}
