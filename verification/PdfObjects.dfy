/**
 * Streaming recognition of a PDF indirect object. The scanner is an automaton over bytes with a
 * handful of counters; sections 7.2.2, 7.2.3 and 7.3.10 of ISO 32000-1:2008 say what it looks for.
 */
module PdfObjects {
  import opened Bytes

  const LOWER_B: byte := 98
  const LOWER_J: byte := 106
  const LOWER_O: byte := 111

  predicate IsWhite(b: byte) {
    b == NUL || b == TAB || b == LF || b == FF || b == CR || b == SPACE
  }

  predicate IsDelimiter(b: byte) {
    || b == 40 || b == 41 || b == 60 || b == 62 || b == LBRACKET || b == RBRACKET
    || b == LBRACE || b == RBRACE || b == SLASH || b == PERCENT
  }

  predicate IsBoundary(b: byte) {
    IsWhite(b) || IsDelimiter(b)
  }

  predicate EndsComment(b: byte) {
    b == CR || b == LF
  }

  // ---- the scanner ----

  datatype Phase = SeekFirst | InNumber | NumberGap | KeywordO | KeywordB | KeywordJ | InComment

  datatype Scan = Scan(phase: Phase, digits: nat, completed: nat, boundary: bool, found: bool)

  const START := Scan(SeekFirst, 0, 0, true, false)

  function Restart(s: Scan, b: byte): Scan {
    Scan(SeekFirst, 0, 0, IsBoundary(b), s.found)
  }

  function Completed(s: Scan): nat {
    if s.completed + 1 < 2 then s.completed + 1 else 2
  }

  function ScanByte(s: Scan, b: byte): Scan {
    if s.found then s
    else
      match s.phase
      case InComment =>
        if EndsComment(b) then s.(phase := if s.completed != 0 then NumberGap else SeekFirst, boundary := true) else s
      case SeekFirst =>
        if s.boundary && IsDigit(b) then s.(phase := InNumber, digits := 1, completed := 0, boundary := false)
        else if b == PERCENT then s.(phase := InComment, completed := 0)
        else s.(boundary := IsBoundary(b))
      case InNumber =>
        if IsDigit(b) then (if s.digits + 1 > 10 then Restart(s, b) else s.(digits := s.digits + 1))
        else if IsWhite(b) then s.(phase := NumberGap, completed := Completed(s))
        else if b == PERCENT then s.(phase := InComment, completed := Completed(s))
        else Restart(s, b)
      case NumberGap =>
        if IsWhite(b) then s
        else if IsDigit(b) then s.(phase := InNumber, digits := 1)
        else if s.completed >= 2 && b == LOWER_O then s.(phase := KeywordO)
        else if b == PERCENT then s.(phase := InComment)
        else Restart(s, b)
      case KeywordO =>
        if b == LOWER_B then s.(phase := KeywordB)
        else if b == PERCENT then s.(phase := InComment, completed := 0)
        else Restart(s, b)
      case KeywordB =>
        if b == LOWER_J then s.(phase := KeywordJ)
        else if b == PERCENT then s.(phase := InComment, completed := 0)
        else Restart(s, b)
      case KeywordJ =>
        if IsBoundary(b) then s.(found := true) else Restart(s, b)
  }

  function ScanBytes(s: Scan, data: bytes): Scan
    decreases |data|
  {
    if data == [] then s else ScanByte(ScanBytes(s, data[..|data| - 1]), data[|data| - 1])
  }

  lemma {:induction false} ScanBytesConcat(s: Scan, a: bytes, b: bytes)
    ensures ScanBytes(s, a + b) == ScanBytes(ScanBytes(s, a), b)
    decreases |b|
  {
    if b == [] {
      assert a + b == a;
    } else {
      ScanBytesConcat(s, a, b[..|b| - 1]);
      assert (a + b)[..|a + b| - 1] == a + b[..|b| - 1];
    }
  }

  lemma {:induction false} FoundStays(s: Scan, data: bytes)
    requires s.found
    ensures ScanBytes(s, data) == s
    decreases |data|
  {
    if data != [] {
      FoundStays(s, data[..|data| - 1]);
    }
  }

  class PdfObjectScanner {
    var phase: Phase
    var digits: nat
    var completedNumbers: nat
    var boundary: bool
    var found: bool

    function State(): Scan
      reads this
    {
      Scan(phase, digits, completedNumbers, boundary, found)
    }

    constructor ()
      ensures State() == START
    {
      phase, digits, completedNumbers, boundary, found := SeekFirst, 0, 0, true, false;
    }

    method Reset(b: byte)
      modifies this
      ensures State() == Restart(old(State()), b)
    {
      phase, digits, completedNumbers := SeekFirst, 0, 0;
      boundary := IsBoundary(b);
    }

    method Feed(data: bytes)
      modifies this
      ensures State() == ScanBytes(old(State()), data)
    {
      ghost var before := State();
      if found {
        FoundStays(before, data);
        return;
      }
      for i := 0 to |data|
        invariant !found && State() == ScanBytes(before, data[..i])
      {
        assert data[..i + 1][..i] == data[..i];
        Advance(data[i]);
        if found {
          assert data == data[..i + 1] + data[i + 1..];
          ScanBytesConcat(before, data[..i + 1], data[i + 1..]);
          FoundStays(State(), data[i + 1..]);
          return;
        }
      }
      assert data[..|data|] == data;
    }

    method Advance(b: byte)
      requires !found
      modifies this
      ensures State() == ScanByte(old(State()), b)
    {
      match phase
      case InComment =>
        if EndsComment(b) {
          phase := if completedNumbers != 0 then NumberGap else SeekFirst;
          boundary := true;
        }
      case SeekFirst =>
        if boundary && IsDigit(b) {
          phase, digits, completedNumbers, boundary := InNumber, 1, 0, false;
        } else if b == PERCENT {
          phase, completedNumbers := InComment, 0;
        } else {
          boundary := IsBoundary(b);
        }
      case InNumber =>
        if IsDigit(b) {
          digits := digits + 1;
          if digits > 10 {
            Reset(b);
          }
        } else if IsWhite(b) {
          completedNumbers := if completedNumbers + 1 < 2 then completedNumbers + 1 else 2;
          phase := NumberGap;
        } else if b == PERCENT {
          completedNumbers := if completedNumbers + 1 < 2 then completedNumbers + 1 else 2;
          phase := InComment;
        } else {
          Reset(b);
        }
      case NumberGap =>
        if IsWhite(b) {
        } else if IsDigit(b) {
          phase, digits := InNumber, 1;
        } else if completedNumbers >= 2 && b == LOWER_O {
          phase := KeywordO;
        } else if b == PERCENT {
          phase := InComment;
        } else {
          Reset(b);
        }
      case KeywordO =>
        if b == LOWER_B {
          phase := KeywordB;
        } else if b == PERCENT {
          phase, completedNumbers := InComment, 0;
        } else {
          Reset(b);
        }
      case KeywordB =>
        if b == LOWER_J {
          phase := KeywordJ;
        } else if b == PERCENT {
          phase, completedNumbers := InComment, 0;
        } else {
          Reset(b);
        }
      case KeywordJ =>
        if IsBoundary(b) {
          found := true;
        } else {
          Reset(b);
        }
    }
  }

  // ---- what is looked for ----

  /** Comments read as white space, byte for byte; the line end that closes one stays. */
  function Blank(s: bytes, comment: bool): (r: bytes)
    ensures |r| == |s|
  {
    if s == [] then []
    else if comment then
      if EndsComment(s[0]) then [s[0]] + Blank(s[1..], false) else [SPACE] + Blank(s[1..], true)
    else if s[0] == PERCENT then [SPACE] + Blank(s[1..], true)
    else [s[0]] + Blank(s[1..], false)
  }

  /** One to ten digits at [i, j). */
  ghost predicate Digits(t: bytes, i: nat, j: nat) {
    i < j <= |t| && j - i <= 10 && forall k :: i <= k < j ==> IsDigit(t[k])
  }

  ghost predicate White(t: bytes, i: nat, j: nat) {
    i < j <= |t| && forall k :: i <= k < j ==> IsWhite(t[k])
  }

  predicate StartsToken(t: bytes, i: nat) {
    i == 0 || (i <= |t| && IsBoundary(t[i - 1]))
  }

  predicate Keyword(t: bytes, i: nat) {
    i + 3 < |t| && t[i] == LOWER_O && t[i + 1] == LOWER_B && t[i + 2] == LOWER_J && IsBoundary(t[i + 3])
  }

  /** Object number at [a, b), generation number at [c, d), and the keyword at e. */
  ghost predicate ObjectAt(t: bytes, a: nat, b: nat, c: nat, d: nat, e: nat) {
    StartsToken(t, a) && Digits(t, a, b) && White(t, b, c) && Digits(t, c, d) && White(t, d, e) && Keyword(t, e)
  }

  ghost predicate DeclaresObject(data: bytes) {
    exists a, b, c, d, e :: ObjectAt(Blank(data, false), a, b, c, d, e)
  }

  // ---- without comments ----

  /** The states that matter once comments are gone. */
  datatype Progress =
    | Seek(boundary: bool)
    | Number(completed: nat, digits: nat)
    | Gap(completed: nat)
    | O | B | J
    | Found

  function Step(p: Progress, b: byte): Progress {
    match p
    case Found => Found
    case Seek(boundary) => if boundary && IsDigit(b) then Number(0, 1) else Seek(IsBoundary(b))
    case Number(n, digits) =>
      if IsDigit(b) then (if digits + 1 > 10 then Seek(false) else Number(n, digits + 1))
      else if IsWhite(b) then Gap(if n + 1 < 2 then n + 1 else 2)
      else Seek(IsBoundary(b))
    case Gap(n) =>
      if IsWhite(b) then p
      else if IsDigit(b) then Number(n, 1)
      else if n >= 2 && b == LOWER_O then O
      else Seek(IsBoundary(b))
    case O => if b == LOWER_B then B else Seek(IsBoundary(b))
    case B => if b == LOWER_J then J else Seek(IsBoundary(b))
    case J => if IsBoundary(b) then Found else Seek(IsBoundary(b))
  }

  /** The state after the first `j` bytes. */
  function At(t: bytes, j: nat): Progress
    requires j <= |t|
  {
    if j == 0 then Seek(true) else Step(At(t, j - 1), t[j - 1])
  }

  /** What a scanner state amounts to when its comment, if any, is read as white space. */
  function Meaning(s: Scan): Progress {
    if s.found then Found
    else
      match s.phase
      case InComment => if s.completed != 0 then Gap(s.completed) else Seek(true)
      case SeekFirst => Seek(s.boundary)
      case InNumber => Number(s.completed, s.digits)
      case NumberGap => Gap(s.completed)
      case KeywordO => O
      case KeywordB => B
      case KeywordJ => J
  }

  predicate Reachable(s: Scan) {
    && s.completed <= 2
    && (s.phase == NumberGap ==> s.completed >= 1)
    && (s.phase == InNumber ==> 1 <= s.digits <= 10)
  }

  lemma BlankByte(s: Scan, b: byte)
    requires Reachable(s)
    ensures var seen := Blank([b], s.phase == InComment)[0];
      Reachable(ScanByte(s, b)) && Meaning(ScanByte(s, b)) == Step(Meaning(s), seen)
    ensures !ScanByte(s, b).found ==>
      ((ScanByte(s, b).phase == InComment) == if s.phase == InComment then !EndsComment(b) else b == PERCENT)
  {
    Classes(b);
    hide IsWhite, IsDelimiter;
  }

  lemma Classes(b: byte)
    ensures EndsComment(b) ==> IsWhite(b)
    ensures IsWhite(SPACE) && !IsWhite(PERCENT) && IsBoundary(PERCENT) && IsBoundary(SPACE)
    ensures IsDigit(b) ==> !IsBoundary(b)
    ensures IsWhite(b) ==> IsBoundary(b) && !IsDigit(b)
    ensures !IsBoundary(LOWER_O) && !IsBoundary(LOWER_B) && !IsBoundary(LOWER_J)
  {
  }

  function CommentAfter(data: bytes, comment: bool): bool {
    if data == [] then comment
    else CommentAfter(data[1..], if comment then !EndsComment(data[0]) else data[0] == PERCENT)
  }

  lemma {:induction false} BlankConcat(a: bytes, b: bytes, comment: bool)
    ensures Blank(a + b, comment) == Blank(a, comment) + Blank(b, CommentAfter(a, comment))
    ensures CommentAfter(a + b, comment) == CommentAfter(b, CommentAfter(a, comment))
  {
    hide EndsComment;
    if a == [] {
      assert a + b == b;
    } else {
      var t := a + b;
      var inside := if comment then !EndsComment(a[0]) else a[0] == PERCENT;
      assert t[0] == a[0] && t[1..] == a[1..] + b;
      BlankConcat(a[1..], b, inside);
      assert Blank(t, comment) == [Blank([a[0]], comment)[0]] + Blank(t[1..], inside);
      assert Blank(a, comment) == [Blank([a[0]], comment)[0]] + Blank(a[1..], inside);
    }
  }

  lemma {:induction false} AtPrefix(t: bytes, more: bytes, j: nat)
    requires j <= |t|
    ensures At(t + more, j) == At(t, j)
  {
    hide Step;
    if j > 0 {
      AtPrefix(t, more, j - 1);
    }
  }

  /** The scanner on the raw bytes is the comment-free automaton on the blanked ones. */
  lemma {:induction false} ScansBlanked(data: bytes)
    ensures var s := ScanBytes(START, data);
      && Reachable(s) && Meaning(s) == At(Blank(data, false), |data|)
      && (!s.found ==> (s.phase == InComment) == CommentAfter(data, false))
    decreases |data|
  {
    hide ScanByte, Step, Meaning, Reachable, EndsComment;
    if data == [] {
      StartMeans();
    } else {
      var front, b := data[..|data| - 1], data[|data| - 1];
      ScansBlanked(front);
      var s := ScanBytes(START, front);
      assert data == front + [b];
      BlankSnoc(front, b);
      if s.found {
        FoundStaysFound(s, b, Blank(data, false)[|front|]);
      } else {
        BlankByte(s, b);
      }
    }
  }

  lemma StartMeans()
    ensures Reachable(START) && Meaning(START) == Seek(true) && !START.found && START.phase != InComment
  {
  }

  lemma FoundStaysFound(s: Scan, b: byte, seen: byte)
    requires s.found
    ensures ScanByte(s, b) == s && Step(Meaning(s), seen) == Meaning(s)
  {
  }

  lemma BlankSnoc(front: bytes, b: byte)
    ensures var t, comment := Blank(front + [b], false), CommentAfter(front, false);
      && t[|front|] == Blank([b], comment)[0]
      && At(t, |front|) == At(Blank(front, false), |front|)
      && CommentAfter(front + [b], false) == (if comment then !EndsComment(b) else b == PERCENT)
  {
    hide At, Step;
    BlankConcat(front, [b], false);
    AtPrefix(Blank(front, false), Blank([b], CommentAfter(front, false)), |front|);
    assert forall c :: CommentAfter([b][1..], c) == c;
  }

  // ---- the automaton finds exactly the declarations ----

  ghost predicate NumberEnds(t: bytes, i: nat, j: nat) {
    Digits(t, i, j) && StartsToken(t, i)
  }

  /** A number and then white space up to `j`. */
  ghost predicate FirstGap(t: bytes, j: nat) {
    exists a, b :: NumberEnds(t, a, b) && White(t, b, j)
  }

  ghost predicate SecondNumber(t: bytes, c: nat, d: nat) {
    FirstGap(t, c) && Digits(t, c, d)
  }

  ghost predicate SecondGap(t: bytes, j: nat) {
    exists c, d :: SecondNumber(t, c, d) && White(t, d, j)
  }

  ghost predicate Means(t: bytes, j: nat, p: Progress)
    requires j <= |t|
  {
    match p
    case Seek(boundary) => boundary ==> StartsToken(t, j)
    case Number(n, digits) =>
      digits <= j && NumberEnds(t, j - digits, j) && (n >= 1 ==> SecondNumber(t, j - digits, j))
    case Gap(n) => n <= 2 && (n >= 1 ==> FirstGap(t, j)) && (n >= 2 ==> SecondGap(t, j))
    case O => j >= 1 && t[j - 1] == LOWER_O && SecondGap(t, j - 1)
    case B => j >= 2 && t[j - 2] == LOWER_O && t[j - 1] == LOWER_B && SecondGap(t, j - 2)
    case J => j >= 3 && t[j - 3] == LOWER_O && t[j - 2] == LOWER_B && t[j - 1] == LOWER_J && SecondGap(t, j - 3)
    case Found => exists e :: SecondGap(t, e) && Keyword(t, e)
  }

  lemma {:induction false} Sound(t: bytes, j: nat)
    requires j <= |t|
    ensures Means(t, j, At(t, j))
    ensures At(t, j).Gap? ==> At(t, j).completed >= 1 && j >= 1 && IsWhite(t[j - 1])
  {
    if j > 0 {
      Sound(t, j - 1);
      SoundStep(t, j);
    }
  }

  lemma SoundStep(t: bytes, j: nat)
    requires 1 <= j <= |t| && Means(t, j - 1, At(t, j - 1))
    requires At(t, j - 1).Gap? ==> At(t, j - 1).completed >= 1 && j >= 2 && IsWhite(t[j - 2])
    ensures Means(t, j, At(t, j))
    ensures At(t, j).Gap? ==> At(t, j).completed >= 1 && IsWhite(t[j - 1])
  {
    Classes(t[j - 1]);
    var p, b := At(t, j - 1), t[j - 1];
    assert At(t, j) == Step(p, b);
    hide At, IsWhite, IsDelimiter;
    match p
    case Found =>
    case Seek(boundary) =>
    case Number(n, digits) => NumberStep(t, j, n, digits);
    case Gap(n) => GapStep(t, j, n);
    case O =>
    case B =>
    case J =>
      if IsBoundary(b) {
        assert Keyword(t, j - 4);
      }
  }

  lemma NumberStep(t: bytes, j: nat, n: nat, digits: nat)
    requires 1 <= j <= |t| && Means(t, j - 1, Number(n, digits))
    ensures Means(t, j, Step(Number(n, digits), t[j - 1]))
    ensures Step(Number(n, digits), t[j - 1]).Gap? ==>
      Step(Number(n, digits), t[j - 1]).completed >= 1 && IsWhite(t[j - 1])
  {
    if IsWhite(t[j - 1]) {
      assert White(t, j - 1, j);
      assert FirstGap(t, j);
      if n >= 1 {
        assert SecondNumber(t, j - 1 - digits, j - 1);
      }
    }
  }

  lemma GapStep(t: bytes, j: nat, n: nat)
    requires 2 <= j <= |t| && 1 <= n && IsWhite(t[j - 2]) && Means(t, j - 1, Gap(n))
    ensures Means(t, j, Step(Gap(n), t[j - 1]))
  {
    Classes(t[j - 1]);
    Classes(t[j - 2]);
    hide IsWhite, IsDelimiter;
    if IsWhite(t[j - 1]) {
      var x, y :| NumberEnds(t, x, y) && White(t, y, j - 1);
      assert White(t, y, j);
      assert FirstGap(t, j);
      if n >= 2 {
        var c, d :| SecondNumber(t, c, d) && White(t, d, j - 1);
        assert White(t, d, j);
        assert SecondGap(t, j);
      }
    } else if IsDigit(t[j - 1]) {
      assert NumberEnds(t, j - 1, j);
      assert SecondNumber(t, j - 1, j);
    }
  }

  /** After a boundary the automaton can start a number. */
  lemma {:induction false} AfterBoundary(t: bytes, j: nat)
    requires 1 <= j <= |t| && IsBoundary(t[j - 1])
    ensures At(t, j) == Found || At(t, j) == Seek(true) || At(t, j).Gap?
  {
  }

  lemma {:induction false} FoundForever(t: bytes, i: nat, j: nat)
    requires i <= j <= |t| && At(t, i) == Found
    ensures At(t, j) == Found
    decreases j
  {
    if i < j {
      FoundForever(t, i, j - 1);
    }
  }

  lemma {:induction false} TracksDigits(t: bytes, i: nat, j: nat, least: nat)
    requires Digits(t, i, j) && StartsToken(t, i)
    requires least <= 1 && (least == 1 ==> At(t, i) == Found || (At(t, i).Gap? && At(t, i).completed >= 1))
    ensures At(t, j) == Found || (At(t, j).Number? && At(t, j).digits == j - i && At(t, j).completed >= least)
    decreases j
  {
    if j > i + 1 {
      TracksDigits(t, i, j - 1, least);
      assert At(t, j) == Step(At(t, j - 1), t[j - 1]);
    } else {
      if i > 0 {
        AfterBoundary(t, i);
      }
      assert At(t, j) == Step(At(t, i), t[i]);
    }
  }

  lemma {:induction false} TracksWhite(t: bytes, i: nat, j: nat, least: nat)
    requires White(t, i, j) && 1 <= least <= 2
    requires At(t, i) == Found || (At(t, i).Number? && At(t, i).completed + 1 >= least)
    ensures At(t, j) == Found || (At(t, j).Gap? && At(t, j).completed >= least)
    decreases j
  {
    if j > i + 1 {
      TracksWhite(t, i, j - 1, least);
    }
  }

  lemma TracksKeyword(t: bytes, e: nat)
    requires Keyword(t, e)
    requires At(t, e) == Found || (At(t, e).Gap? && At(t, e).completed >= 2)
    ensures At(t, e + 4) == Found
  {
    if At(t, e) == Found {
      FoundForever(t, e, e + 4);
    } else {
      assert At(t, e + 1) == O;
      assert At(t, e + 2) == B;
      assert At(t, e + 3) == J;
    }
  }

  lemma Complete(t: bytes, a: nat, b: nat, c: nat, d: nat, e: nat)
    requires ObjectAt(t, a, b, c, d, e)
    ensures At(t, |t|) == Found
  {
    hide At;
    TracksDigits(t, a, b, 0);
    TracksWhite(t, b, c, 1);
    assert StartsToken(t, c) by { assert IsWhite(t[c - 1]); }
    TracksDigits(t, c, d, 1);
    TracksWhite(t, d, e, 2);
    TracksKeyword(t, e);
    FoundForever(t, e + 4, |t|);
  }

  /** The scanner reports an object exactly when the bytes, comments blanked, declare one. */
  lemma FoundExact(data: bytes)
    ensures ScanBytes(START, data).found <==> DeclaresObject(data)
  {
    var t := Blank(data, false);
    ScansBlanked(data);
    Sound(t, |t|);
    if ScanBytes(START, data).found {
      var e :| SecondGap(t, e) && Keyword(t, e);
      var c, d :| SecondNumber(t, c, d) && White(t, d, e);
      var a, b :| NumberEnds(t, a, b) && White(t, b, c);
      assert ObjectAt(t, a, b, c, d, e);
    }
    if DeclaresObject(data) {
      var a, b, c, d, e :| ObjectAt(t, a, b, c, d, e);
      Complete(t, a, b, c, d, e);
    }
  }
}
