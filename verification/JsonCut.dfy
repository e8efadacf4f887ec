/**
 * Messages that are cut off before the JSON pass: the scanner then sees the beginning of a
 * document. A cut inside the value of a secret member shows nothing of the value.
 */
module JsonCut {
  import opened Wrappers
  import opened Bytes
  import opened JsonScanner
  import opened JsonRedactor
  import opened JsonDocument
  import opened JsonSpans
  import Unicode

  // ----- A cut value is consumed whole ---------------------------------------------------

  /** However much of a value there is, the skip after a secret key takes all of it. */
  lemma CutValueConsumed(v: Value, p: bytes)
    requires ValidValue(v) && p <= Print(v, [])
    ensures SecretValueRest(p) == []
  {
    hide Print, ValidValue, AfterToken;
    var rest := SecretValueRest(p);
    if rest != [] {
      SecretValueExact(p, rest);
      var t: Token :| t.Valid() && p == t.Text(rest);
      var more := Print(v, [])[|p|..];
      assert p + more == Print(v, []);
      TokenAppends(t, rest, more);
      ReadsToken(t, rest + more);
      ReadsWhole(v, []);
    }
  }

  // ----- A place inside a document -------------------------------------------------------

  /**
   * The place of one value: on the way to it no key is secret, and its own key is. A hole with no
   * inner hole stands for the value of that member.
   */
  datatype Hole = ArrayHole(elements: ElementsHole) | ObjectHole(members: MembersHole)

  datatype ElementsHole =
    | LaterElement(before: bytes, value: Value, after: bytes, rest: ElementsHole)
    | InElement(before: bytes, inner: Hole, after: bytes, more: Option<Elements>)

  datatype MembersHole =
    | LaterMember(before: bytes, key: bytes, preColon: bytes, postColon: bytes, value: Value, after: bytes,
                  rest: MembersHole)
    | InMember(before: bytes, key: bytes, preColon: bytes, postColon: bytes, inner: Option<Hole>, after: bytes,
               more: Option<Members>)

  predicate ValidHole(h: Hole, secret: bytes -> bool) {
    match h
    case ArrayHole(es) => ValidElementsHole(es, secret)
    case ObjectHole(ms) => ValidMembersHole(ms, secret)
  }

  predicate ValidElementsHole(es: ElementsHole, secret: bytes -> bool) {
    match es
    case LaterElement(before, value, after, rest) =>
      Space(before) && ValidValue(value) && Space(after) && ValidElementsHole(rest, secret)
    case InElement(before, inner, after, more) =>
      && Space(before) && ValidHole(inner, secret) && Space(after)
      && (more.Some? ==> more.value.Elements? && ValidElements(more.value))
  }

  predicate ValidMembersHole(ms: MembersHole, secret: bytes -> bool) {
    match ms
    case LaterMember(before, key, preColon, postColon, value, after, rest) =>
      && Space(before) && StringText(key) && Space(preColon) && Space(postColon) && ValidValue(value) && Space(after)
      && ValidMembersHole(rest, secret)
    case InMember(before, key, preColon, postColon, inner, after, more) =>
      && Space(before) && StringText(key) && Space(preColon) && Space(postColon) && Space(after)
      && (more.Some? ==> more.value.Members? && ValidMembers(more.value))
      && match inner
         case None => SecretKey(key, secret)
         case Some(h) => !SecretKey(key, secret) && ValidHole(h, secret)
  }

  function Fill(h: Hole, v: Value): Value {
    match h
    case ArrayHole(es) => Array(FillElements(es, v))
    case ObjectHole(ms) => Object(FillMembers(ms, v))
  }

  function FillElements(es: ElementsHole, v: Value): Elements {
    match es
    case LaterElement(before, value, after, rest) => Elements(before, value, after, Some(FillElements(rest, v)))
    case InElement(before, inner, after, more) => Elements(before, Fill(inner, v), after, more)
  }

  function FillMembers(ms: MembersHole, v: Value): Members {
    match ms
    case LaterMember(before, key, preColon, postColon, value, after, rest) =>
      Members(before, key, preColon, postColon, value, after, Some(FillMembers(rest, v)))
    case InMember(before, key, preColon, postColon, inner, after, more) =>
      var value := match inner case None => v case Some(h) => Fill(h, v);
      Members(before, key, preColon, postColon, value, after, more)
  }

  /** The text up to the hole, and then `p`. */
  function Front(h: Hole, p: bytes): bytes {
    match h
    case ArrayHole(es) => [LBRACKET] + FrontElements(es, p)
    case ObjectHole(ms) => [LBRACE] + FrontMembers(ms, p)
  }

  function FrontElements(es: ElementsHole, p: bytes): bytes {
    match es
    case LaterElement(before, value, after, rest) => before + Print(value, after + ([COMMA] + FrontElements(rest, p)))
    case InElement(before, inner, _, _) => before + Front(inner, p)
  }

  function FrontMembers(ms: MembersHole, p: bytes): bytes {
    match ms
    case LaterMember(before, key, preColon, postColon, value, after, rest) =>
      before + Quoted(key, preColon + [COLON] + (postColon + Print(value, after + ([COMMA] + FrontMembers(rest, p)))))
    case InMember(before, key, preColon, postColon, inner, _, _) =>
      var below := match inner case None => p case Some(h) => Front(h, p);
      before + Quoted(key, preColon + [COLON] + (postColon + below))
  }

  /** The text behind the hole, in front of `rest`. */
  function Back(h: Hole, rest: bytes): bytes {
    match h
    case ArrayHole(es) => BackElements(es, [RBRACKET] + rest)
    case ObjectHole(ms) => BackMembers(ms, [RBRACE] + rest)
  }

  function BackElements(es: ElementsHole, rest: bytes): bytes {
    match es
    case LaterElement(_, _, _, others) => BackElements(others, rest)
    case InElement(_, inner, after, more) =>
      Back(inner, after + match more case None => rest case Some(others) => [COMMA] + PrintElements(others, rest))
  }

  function BackMembers(ms: MembersHole, rest: bytes): bytes {
    match ms
    case LaterMember(_, _, _, _, _, _, others) => BackMembers(others, rest)
    case InMember(_, _, _, _, inner, after, more) =>
      var behind := after + PrintMore(more, rest);
      match inner case None => behind case Some(h) => Back(h, behind)
  }

  lemma {:induction false} FilledText(h: Hole, v: Value, rest: bytes)
    ensures Print(Fill(h, v), rest) == Front(h, Print(v, Back(h, rest)))
    decreases h
  {
    match h
    case ArrayHole(es) => FilledElements(es, v, [RBRACKET] + rest);
    case ObjectHole(ms) => FilledMembers(ms, v, [RBRACE] + rest);
  }

  lemma {:induction false} FilledElements(es: ElementsHole, v: Value, rest: bytes)
    ensures PrintElements(FillElements(es, v), rest) == FrontElements(es, Print(v, BackElements(es, rest)))
    decreases es
  {
    match es
    case LaterElement(before, value, after, others) => FilledElements(others, v, rest);
    case InElement(before, inner, after, more) =>
      var behind := match more case None => rest case Some(others) => [COMMA] + PrintElements(others, rest);
      FilledText(inner, v, after + behind);
  }

  lemma {:induction false} FilledMembers(ms: MembersHole, v: Value, rest: bytes)
    ensures PrintMembers(FillMembers(ms, v), rest) == FrontMembers(ms, Print(v, BackMembers(ms, rest)))
    decreases ms
  {
    match ms
    case LaterMember(_, _, _, _, _, _, others) => FilledMembers(others, v, rest);
    case InMember(_, _, _, _, inner, after, more) =>
      if inner.Some? {
        FilledText(inner.value, v, after + PrintMore(more, rest));
      }
  }

  lemma {:induction false} FilledIsValid(h: Hole, v: Value, secret: bytes -> bool)
    requires ValidHole(h, secret) && ValidValue(v)
    ensures ValidValue(Fill(h, v))
    decreases h
  {
    match h
    case ArrayHole(es) => FilledElementsValid(es, v, secret);
    case ObjectHole(ms) => FilledMembersValid(ms, v, secret);
  }

  lemma {:induction false} FilledElementsValid(es: ElementsHole, v: Value, secret: bytes -> bool)
    requires ValidElementsHole(es, secret) && ValidValue(v)
    ensures ValidElements(FillElements(es, v)) && FillElements(es, v).Elements?
    decreases es
  {
    match es
    case LaterElement(_, _, _, rest) => FilledElementsValid(rest, v, secret);
    case InElement(_, inner, _, _) => FilledIsValid(inner, v, secret);
  }

  lemma {:induction false} FilledMembersValid(ms: MembersHole, v: Value, secret: bytes -> bool)
    requires ValidMembersHole(ms, secret) && ValidValue(v)
    ensures ValidMembers(FillMembers(ms, v)) && FillMembers(ms, v).Members?
    decreases ms
  {
    match ms
    case LaterMember(_, _, _, _, _, _, rest) => FilledMembersValid(rest, v, secret);
    case InMember(_, _, _, _, inner, _, _) =>
      if inner.Some? {
        FilledIsValid(inner.value, v, secret);
      }
  }

  // ----- Text in front of other text -----------------------------------------------------

  lemma {:induction false} PrintAppends(v: Value, rest: bytes, more: bytes)
    ensures Print(v, rest) + more == Print(v, rest + more)
    decreases v
  {
    hide PrintElements, PrintMembers, PrintNumeral;
    match v
    case Text(raw) => QuotedAppends(raw, rest, more);
    case Literal(text) => ThreeTexts(text, rest, more);
    case Number(n) => NumeralAppends(n, rest, more);
    case Array(es) =>
      ElementsAppend(es, [RBRACKET] + rest, more);
      ThreeTexts([RBRACKET], rest, more);
      ThreeTexts([LBRACKET], PrintElements(es, [RBRACKET] + rest), more);
    case Object(ms) =>
      MembersAppend(ms, [RBRACE] + rest, more);
      ThreeTexts([RBRACE], rest, more);
      ThreeTexts([LBRACE], PrintMembers(ms, [RBRACE] + rest), more);
  }

  lemma ThreeTexts(a: bytes, b: bytes, c: bytes)
    ensures a + b + c == a + (b + c)
  {
  }

  lemma QuotedAppends(raw: bytes, rest: bytes, more: bytes)
    ensures Quoted(raw, rest) + more == Quoted(raw, rest + more)
  {
  }

  lemma {:induction false} ElementsAppend(es: Elements, rest: bytes, more: bytes)
    ensures PrintElements(es, rest) + more == PrintElements(es, rest + more)
    decreases es
  {
    match es
    case NoElements(space) =>
    case Elements(before, value, after, others) =>
      if others.Some? {
        ElementsAppend(others.value, rest, more);
        assert [COMMA] + PrintElements(others.value, rest) + more == [COMMA] + PrintElements(others.value, rest + more);
      }
      var next := match others case None => rest case Some(o) => [COMMA] + PrintElements(o, rest);
      PrintAppends(value, after + next, more);
      assert after + next + more == after + (next + more);
  }

  lemma {:induction false} MembersAppend(ms: Members, rest: bytes, more: bytes)
    ensures PrintMembers(ms, rest) + more == PrintMembers(ms, rest + more)
    decreases ms
  {
    match ms
    case NoMembers(space) =>
    case Members(before, key, preColon, postColon, value, after, others) =>
      if others.Some? {
        MembersAppend(others.value, rest, more);
        assert [COMMA] + PrintMembers(others.value, rest) + more == [COMMA] + PrintMembers(others.value, rest + more);
      }
      var next := PrintMore(others, rest);
      PrintAppends(value, after + next, more);
      assert after + next + more == after + PrintMore(others, rest + more);
      MemberAppends(before, key, preColon, postColon, Print(value, after + next), more);
  }

  lemma MemberAppends(before: bytes, key: bytes, preColon: bytes, postColon: bytes, text: bytes, more: bytes)
    ensures before + Quoted(key, preColon + [COLON] + (postColon + text)) + more
         == before + Quoted(key, preColon + [COLON] + (postColon + (text + more)))
  {
  }

  lemma {:induction false} FrontAppends(h: Hole, p: bytes, more: bytes)
    ensures Front(h, p) + more == Front(h, p + more)
    decreases h
  {
    match h
    case ArrayHole(es) => FrontElementsAppend(es, p, more);
    case ObjectHole(ms) => FrontMembersAppend(ms, p, more);
  }

  lemma {:induction false} FrontElementsAppend(es: ElementsHole, p: bytes, more: bytes)
    ensures FrontElements(es, p) + more == FrontElements(es, p + more)
    decreases es
  {
    match es
    case LaterElement(before, value, after, rest) =>
      FrontElementsAppend(rest, p, more);
      var next := [COMMA] + FrontElements(rest, p);
      PrintAppends(value, after + next, more);
      assert after + next + more == after + ([COMMA] + FrontElements(rest, p + more));
    case InElement(before, inner, _, _) => FrontAppends(inner, p, more);
  }

  lemma {:induction false} FrontMembersAppend(ms: MembersHole, p: bytes, more: bytes)
    ensures FrontMembers(ms, p) + more == FrontMembers(ms, p + more)
    decreases ms
  {
    match ms
    case LaterMember(before, key, preColon, postColon, value, after, rest) =>
      FrontMembersAppend(rest, p, more);
      var next := [COMMA] + FrontMembers(rest, p);
      PrintAppends(value, after + next, more);
      assert after + next + more == after + ([COMMA] + FrontMembers(rest, p + more));
      MemberAppends(before, key, preColon, postColon, Print(value, after + next), more);
    case InMember(before, key, preColon, postColon, inner, _, _) =>
      if inner.Some? {
        FrontAppends(inner.value, p, more);
        MemberAppends(before, key, preColon, postColon, Front(inner.value, p), more);
      } else {
        MemberAppends(before, key, preColon, postColon, p, more);
      }
  }

  // ----- Cut documents -------------------------------------------------------------------

  /** What is left of the text in front of the hole; its own member is the marker. */
  function Shown(h: Hole, secret: bytes -> bool): bytes {
    match h
    case ArrayHole(es) => [LBRACKET] + ShownElements(es, secret)
    case ObjectHole(ms) => [LBRACE] + ShownMembers(ms, secret)
  }

  function ShownElements(es: ElementsHole, secret: bytes -> bool): bytes {
    match es
    case LaterElement(before, value, after, rest) =>
      before + Print(RedactValue(value, secret), after + ([COMMA] + ShownElements(rest, secret)))
    case InElement(before, inner, _, _) => before + Shown(inner, secret)
  }

  function ShownMembers(ms: MembersHole, secret: bytes -> bool): bytes {
    match ms
    case LaterMember(before, key, preColon, postColon, value, after, rest) =>
      var tail := after + ([COMMA] + ShownMembers(rest, secret));
      before + (if SecretKey(key, secret) then MARKER + tail
                else Quoted(key, preColon + [COLON] + (postColon + Print(RedactValue(value, secret), tail))))
    case InMember(before, key, preColon, postColon, inner, _, _) =>
      match inner
      case None => before + MARKER
      case Some(h) => before + Quoted(key, preColon + [COLON] + (postColon + Shown(h, secret)))
  }

  /** The beginning of a value, as far as the scanner is concerned. */
  predicate Swallowed(p: bytes) {
    SecretValueRest(p) == [] && (p != [] ==> !IsSpace(p[0]))
  }

  lemma {:induction false} FrontRedacts(h: Hole, p: bytes, secret: bytes -> bool)
    requires ValidHole(h, secret) && Swallowed(p)
    ensures Redact(Front(h, p), secret) == Shown(h, secret)
    decreases h
  {
    match h
    case ArrayHole(es) =>
      FrontElementsRedact(es, p, secret);
      RedactQuiet([LBRACKET], FrontElements(es, p), secret);
    case ObjectHole(ms) =>
      FrontMembersRedact(ms, p, secret);
      RedactQuiet([LBRACE], FrontMembers(ms, p), secret);
  }

  lemma SpaceIsQuiet(space: bytes)
    requires Space(space)
    ensures QUOTE !in space
  {
  }

  lemma {:induction false} FrontElementsRedact(es: ElementsHole, p: bytes, secret: bytes -> bool)
    requires ValidElementsHole(es, secret) && Swallowed(p)
    ensures Redact(FrontElements(es, p), secret) == ShownElements(es, secret)
    decreases es
  {
    hide Redact, Swallowed, Print, Space;
    SpaceIsQuiet(es.before);
    match es
    case LaterElement(before, value, after, rest) =>
      FrontElementsRedact(rest, p, secret);
      var next := FrontElements(rest, p);
      CommaRedacts(after, next, secret);
      RedactsValue(value, after + ([COMMA] + next), secret);
      RedactQuiet(before, Print(value, after + ([COMMA] + next)), secret);
    case InElement(before, inner, _, _) =>
      FrontRedacts(inner, p, secret);
      RedactQuiet(before, Front(inner, p), secret);
  }

  /** A comma and what follows it, behind a value. */
  lemma CommaRedacts(after: bytes, next: bytes, secret: bytes -> bool)
    requires Space(after)
    ensures var tail := after + ([COMMA] + next);
      && EndsMember(tail) && NoColon(tail)
      && Redact(tail, secret) == after + ([COMMA] + Redact(next, secret))
  {
    SpaceIsQuiet(after);
    EndsMemberAfter(after, COMMA, next);
    RedactQuiet(after, [COMMA] + next, secret);
    RedactQuiet([COMMA], next, secret);
  }

  lemma {:induction false} FrontMembersRedact(ms: MembersHole, p: bytes, secret: bytes -> bool)
    requires ValidMembersHole(ms, secret) && Swallowed(p)
    ensures Redact(FrontMembers(ms, p), secret) == ShownMembers(ms, secret)
    decreases ms
  {
    hide Redact, Print, Space, StringText, SecretValueRest, SecretKey, ValidValue, EndsMember, NoColon;
    SpaceIsQuiet(ms.before);
    match ms
    case LaterMember(before, key, preColon, postColon, value, after, rest) =>
      FrontMembersRedact(rest, p, secret);
      var next := FrontMembers(rest, p);
      var tail := after + ([COMMA] + next);
      CommaRedacts(after, next, secret);
      RedactQuiet(before, Quoted(key, preColon + [COLON] + (postColon + Print(value, tail))), secret);
      if SecretKey(key, secret) {
        ValueStartsSolid(value, tail);
        ReadsValue(value, tail);
        MarksSecretMember(key, preColon, postColon, Print(value, tail), secret);
      } else {
        RedactsValue(value, tail, secret);
        RedactsOpenMember(key, preColon, postColon, Print(value, tail), secret);
      }
    case InMember(before, key, preColon, postColon, inner, _, _) =>
      var below := match inner case None => p case Some(h) => Front(h, p);
      RedactQuiet(before, Quoted(key, preColon + [COLON] + (postColon + below)), secret);
      if inner.Some? {
        FrontRedacts(inner.value, p, secret);
        RedactsOpenMember(key, preColon, postColon, below, secret);
      } else {
        MarksSecretMember(key, preColon, postColon, p, secret);
        NothingRedacts(secret);
      }
  }

  lemma NothingRedacts(secret: bytes -> bool)
    ensures Redact([], secret) == [] && MARKER + [] == MARKER
  {
  }

  /**
   * A document cut anywhere inside the value of a secret member, its two ends included: the
   * output is what stands in front of the member, redacted, and the marker. It is the same for
   * every value and every such cut.
   */
  lemma CutShowsNothing(before: bytes, h: Hole, v: Value, after: bytes, n: nat, secret: bytes -> bool)
    requires Space(before) && ValidHole(h, secret) && ValidValue(v) && Space(after)
    requires var start := |before| + |Front(h, [])|; start <= n <= start + |Print(v, [])|
    ensures var d := Document(before, Fill(h, v), after);
      ValidDocument(d) && n <= |PrintDocument(d)| && Redact(PrintDocument(d)[..n], secret) == before + Shown(h, secret)
  {
    hide Redact, Print, Front, Back, Fill, Shown, Space, ValidValue, SecretValueRest;
    var d := Document(before, Fill(h, v), after);
    FilledIsValid(h, v, secret);
    FilledText(h, v, after);
    var back := Back(h, after);
    var p := Print(v, [])[..n - |before| - |Front(h, [])|];
    CutText(before, h, v, back, p);
    assert PrintDocument(d)[..n] == before + Front(h, p);
    SpaceIsQuiet(before);
    RedactQuiet(before, Front(h, p), secret);
    BeginningSwallowed(v, p);
    FrontRedacts(h, p, secret);
  }

  lemma CutText(before: bytes, h: Hole, v: Value, back: bytes, p: bytes)
    requires p <= Print(v, [])
    ensures var text, n := before + Front(h, Print(v, back)), |before| + |Front(h, [])| + |p|;
      n <= |text| && text[..n] == before + Front(h, p)
  {
    hide Print, Front;
    var more := Print(v, [])[|p|..];
    PrintAppends(v, [], back);
    assert [] + back == back;
    assert Print(v, back) == p + (more + back);
    FrontAppends(h, p, more + back);
    FrontAppends(h, [], p);
    assert [] + p == p;
  }

  lemma BeginningSwallowed(v: Value, p: bytes)
    requires ValidValue(v) && p <= Print(v, [])
    ensures Swallowed(p)
  {
    hide Print, ValidValue, SecretValueRest;
    CutValueConsumed(v, p);
    ValueStartsSolid(v, []);
  }

  // ----- Where the message is cut --------------------------------------------------------

  /** Cuts at the limit, or before the character that crosses it. */
  method BoundedSanitizeInput(value: bytes, limit: nat) returns (bounded: bytes)
    ensures bounded <= value && |bounded| <= limit
    ensures |value| <= limit ==> bounded == value
    ensures |value| > limit ==>
      && (bounded == [] || !Unicode.IsContinuation(value[|bounded|]))
      && forall k :: |bounded| < k <= limit ==> Unicode.IsContinuation(value[k])
    ensures Unicode.ValidUtf8(value) ==> Unicode.ValidUtf8(bounded)
  {
    hide Unicode.ValidUtf8;
    if |value| <= limit {
      return value;
    }
    var end := limit;
    while end > 0 && Unicode.IsContinuation(value[end])
      invariant 0 <= end <= limit
      invariant forall k :: end < k <= limit ==> Unicode.IsContinuation(value[k])
    {
      end := end - 1;
    }
    if Unicode.ValidUtf8(value) {
      Unicode.CutsBetween(value, end);
    }
    bounded := value[..end];
  }
}
