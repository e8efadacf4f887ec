/**
 * What the value scanner consumes on arbitrary bytes, document or not. The grammar below does not
 * mention the scanner: a complete string, a bracket-matched composite, or an RFC 8259 primitive.
 */
module JsonSpans {
  import opened Wrappers
  import opened Bytes
  import opened JsonScanner
  import opened JsonRedactor
  import opened JsonDocument

  /** Bytes of a string up to its closing quote: a backslash always hides the next byte. */
  predicate StringBody(raw: bytes) {
    if raw == [] then true
    else if raw[0] == BACKSLASH then |raw| >= 2 && StringBody(raw[2..])
    else raw[0] != QUOTE && StringBody(raw[1..])
  }

  /** The inside of a composite: bytes outside strings and brackets, strings, composites. */
  datatype Items =
    | End
    | Plain(b: byte, rest: Items)
    | Str(raw: bytes, rest: Items)
    | Nest(opener: byte, inside: Items, rest: Items)
  {
    predicate Valid() {
      match this
      case End => true
      case Plain(b, rest) => Inert([b]) && rest.Valid()
      case Str(raw, rest) => StringBody(raw) && rest.Valid()
      case Nest(opener, inside, rest) => (opener == LBRACE || opener == LBRACKET) && inside.Valid() && rest.Valid()
    }

    function Text(after: bytes): bytes {
      match this
      case End => after
      case Plain(b, rest) => [b] + rest.Text(after)
      case Str(raw, rest) => Quoted(raw, rest.Text(after))
      case Nest(opener, inside, rest) => [opener] + inside.Text([Closer(opener)] + rest.Text(after))
    }
  }

  /** The complete tokens, each written in front of `after`. */
  datatype Token =
    | StringToken(raw: bytes)
    | CompositeToken(opener: byte, inside: Items)
    | LiteralToken(text: bytes)
    | NumberToken(n: Numeral)
  {

    predicate Valid() {
      match this
      case StringToken(raw) => StringBody(raw)
      case CompositeToken(opener, inside) => (opener == LBRACE || opener == LBRACKET) && inside.Valid()
      case LiteralToken(text) => text in [TRUE_TEXT, FALSE_TEXT, NULL_TEXT]
      case NumberToken(n) => ValidNumeral(n)
    }

    function Text(after: bytes): bytes {
      match this
      case StringToken(raw) => Quoted(raw, after)
      case CompositeToken(opener, inside) => [opener] + inside.Text([Closer(opener)] + after)
      case LiteralToken(text) => text + after
      case NumberToken(n) => PrintNumeral(n, after)
    }
  }

  lemma {:induction false} ItemsAppend(items: Items, rest: bytes, more: bytes)
    ensures items.Text(rest) + more == items.Text(rest + more)
    decreases items
  {
    match items
    case End =>
    case Plain(b, others) => ItemsAppend(others, rest, more);
    case Str(raw, others) => ItemsAppend(others, rest, more);
    case Nest(opener, inside, others) =>
      ItemsAppend(others, rest, more);
      ItemsAppend(inside, [Closer(opener)] + others.Text(rest), more);
      assert [Closer(opener)] + others.Text(rest) + more == [Closer(opener)] + others.Text(rest + more);
  }

  lemma NumeralAppends(n: Numeral, rest: bytes, more: bytes)
    ensures PrintNumeral(n, rest) + more == PrintNumeral(n, rest + more)
  {
    var e := PrintExponent(n.exponent, rest);
    assert e + more == PrintExponent(n.exponent, rest + more);
    assert PrintFraction(n.fraction, e) + more == PrintFraction(n.fraction, e + more);
  }

  /** What stands behind a token is not part of it. */
  lemma TokenAppends(t: Token, rest: bytes, more: bytes)
    ensures t.Text(rest) + more == t.Text(rest + more)
  {
    hide Items.Text, PrintNumeral;
    match t
    case StringToken(raw) =>
    case CompositeToken(opener, inside) =>
      ItemsAppend(inside, [Closer(opener)] + rest, more);
      assert [Closer(opener)] + rest + more == [Closer(opener)] + (rest + more);
    case LiteralToken(text) =>
    case NumberToken(n) => NumeralAppends(n, rest, more);
  }

  lemma {:induction false} ReadsBody(raw: bytes, after: bytes)
    requires StringBody(raw)
    ensures AfterString(raw + [QUOTE] + after) == Some(after)
  {
    var s := raw + [QUOTE] + after;
    if raw == [] {
      assert s[1..] == after;
    } else if raw[0] == BACKSLASH {
      ReadsBody(raw[2..], after);
      assert s[2..] == raw[2..] + [QUOTE] + after;
    } else {
      ReadsBody(raw[1..], after);
      assert s[1..] == raw[1..] + [QUOTE] + after;
    }
  }

  lemma {:induction false} BodyOf(s: bytes) returns (raw: bytes)
    requires AfterString(s).Some?
    ensures StringBody(raw) && s == raw + [QUOTE] + AfterString(s).value
    decreases |s|
  {
    if s[0] == QUOTE {
      raw := [];
    } else {
      var k := if s[0] == BACKSLASH then 2 else 1;
      var tail := BodyOf(s[k..]);
      raw := s[..k] + tail;
      assert raw[k..] == tail;
      assert s == s[..k] + s[k..];
    }
  }

  lemma {:induction false} PassesItems(items: Items, after: bytes, open: bytes)
    requires items.Valid() && open != []
    ensures AfterComposite(items.Text(after), open) == AfterComposite(after, open)
    decreases items
  {
    match items
    case End =>
    case Plain(b, rest) =>
      PassesInert([b], rest.Text(after), open);
      PassesItems(rest, after, open);
    case Str(raw, rest) =>
      ReadsBody(raw, rest.Text(after));
      assert Quoted(raw, rest.Text(after))[1..] == raw + [QUOTE] + rest.Text(after);
      PassesItems(rest, after, open);
    case Nest(opener, inside, rest) =>
      PassesItems(inside, [Closer(opener)] + rest.Text(after), open + [Closer(opener)]);
      PassesBrackets(opener, inside.Text([Closer(opener)] + rest.Text(after)), rest.Text(after), open);
      PassesItems(rest, after, open);
  }

  /** Whatever the composite scan accepted was bracket-matched. */
  lemma {:induction false} ItemsOf(s: bytes, open: bytes) returns (items: Items, after: bytes)
    requires open != [] && AfterComposite(s, open).Some?
    ensures items.Valid() && s == items.Text([open[|open| - 1]] + after)
    ensures |after| < |s|
    ensures if |open| == 1 then AfterComposite(s, open) == Some(after)
            else AfterComposite(after, open[..|open| - 1]) == AfterComposite(s, open)
    decreases |s|, 1
  {
    assert s == [s[0]] + s[1..];
    if s[0] == QUOTE {
      var raw := BodyOf(s[1..]);
      var rest;
      rest, after := ItemsOf(AfterString(s[1..]).value, open);
      items := Str(raw, rest);
    } else if s[0] == LBRACE || s[0] == LBRACKET {
      var inside, next := NestOf(s, open);
      var rest;
      rest, after := ItemsOf(next, open);
      items := Nest(s[0], inside, rest);
    } else if s[0] == RBRACE || s[0] == RBRACKET {
      items, after := End, s[1..];
    } else {
      var rest;
      rest, after := ItemsOf(s[1..], open);
      items := Plain(s[0], rest);
    }
  }

  lemma {:induction false} NestOf(s: bytes, open: bytes) returns (inside: Items, next: bytes)
    requires open != [] && AfterComposite(s, open).Some?
    requires s[0] == LBRACE || s[0] == LBRACKET
    ensures inside.Valid() && s[1..] == inside.Text([Closer(s[0])] + next)
    ensures |next| < |s| - 1 && AfterComposite(next, open) == AfterComposite(s, open)
    decreases |s|, 0
  {
    var deeper := open + [Closer(s[0])];
    assert deeper[..|deeper| - 1] == open;
    inside, next := ItemsOf(s[1..], deeper);
  }

  lemma {:induction false} DigitsOf(s: bytes) returns (digits: bytes)
    requires AfterDigits(s).Some?
    ensures Digits(digits) && s == digits + AfterDigits(s).value
    ensures digits[0] == s[0]
  {
    if |s| > 1 && IsDigit(s[1]) {
      var more := DigitsOf(s[1..]);
      digits := [s[0]] + more;
      assert s == [s[0]] + s[1..];
    } else {
      digits := [s[0]];
      assert s[1..] == SkipDigits(s[1..]);
      assert s == [s[0]] + s[1..];
    }
  }

  lemma NumeralOf(s: bytes) returns (n: Numeral)
    requires AfterNumber(s).Some?
    ensures ValidNumeral(n) && s == PrintNumeral(n, AfterNumber(s).value)
  {
    hide AfterInteger, AfterFraction, AfterExponent, PrintFraction, PrintExponent, Digits;
    var minus, integer := IntegerOf(s);
    var t := AfterInteger(s).value;
    var fraction := FractionOf(t);
    var exponent := ExponentOf(AfterFraction(t).value);
    n := Numeral(minus, integer, fraction, exponent);
  }

  lemma FractionOf(t: bytes) returns (fraction: Option<bytes>)
    requires AfterFraction(t).Some?
    ensures fraction.Some? ==> Digits(fraction.value)
    ensures t == PrintFraction(fraction, AfterFraction(t).value)
  {
    if t != [] && t[0] == DOT {
      var digits := DigitsOf(t[1..]);
      fraction := Some(digits);
      assert t == [DOT] + t[1..];
    } else {
      fraction := None;
    }
  }

  lemma IntegerOf(s: bytes) returns (minus: bool, digits: bytes)
    requires AfterInteger(s).Some?
    ensures Digits(digits) && (digits[0] == 48 ==> |digits| == 1)
    ensures s == (if minus then [MINUS] else []) + digits + AfterInteger(s).value
  {
    minus := s != [] && s[0] == MINUS;
    var t := if minus then s[1..] else s;
    assert s == (if minus then [MINUS] else []) + t;
    if t[0] == 48 {
      digits := [t[0]];
      assert t == [t[0]] + t[1..];
    } else {
      digits := DigitsOf(t);
    }
  }

  lemma ExponentOf(u: bytes) returns (e: Option<Exponent>)
    requires AfterExponent(u).Some?
    ensures e.Some? ==> e.value.letter in [101, 69] && e.value.sign in [[], [PLUS], [MINUS]] && Digits(e.value.digits)
    ensures u == PrintExponent(e, AfterExponent(u).value)
  {
    hide AfterDigits, Digits, PrintExponent;
    if u != [] && (u[0] == 101 || u[0] == 69) {
      var signed := |u| > 1 && (u[1] == PLUS || u[1] == MINUS);
      var k := if signed then 2 else 1;
      var sign := u[1..k];
      assert sign == (if signed then [u[1]] else []) && sign in [[], [PLUS], [MINUS]];
      var digits := DigitsOf(u[k..]);
      e := Some(Exponent(u[0], sign, digits));
      ExponentParts(u, k, digits, AfterDigits(u[k..]).value);
    } else {
      e := None;
      NoExponent(u);
    }
  }

  lemma ExponentParts(u: bytes, k: nat, digits: bytes, rest: bytes)
    requires 1 <= k <= |u| && u[k..] == digits + rest
    ensures u == PrintExponent(Some(Exponent(u[0], u[1..k], digits)), rest)
  {
    assert u == [u[0]] + u[1..k] + u[k..];
  }

  lemma NoExponent(u: bytes)
    ensures PrintExponent(None, u) == u
  {
  }

  lemma PrefixSplits(text: bytes, s: bytes)
    requires text <= s
    ensures s == text + s[|text|..]
  {
  }

  lemma TokenOf(s: bytes) returns (t: Token)
    requires AfterToken(s).Some?
    ensures t.Valid() && s == t.Text(AfterToken(s).value)
  {
    if s[0] == QUOTE {
      var raw := BodyOf(s[1..]);
      t := StringToken(raw);
      assert s == [QUOTE] + s[1..];
    } else if s[0] == LBRACE || s[0] == LBRACKET {
      var inside, after := ItemsOf(s[1..], [Closer(s[0])]);
      t := CompositeToken(s[0], inside);
      assert s == [s[0]] + s[1..];
    } else if TRUE_TEXT <= s || FALSE_TEXT <= s || NULL_TEXT <= s {
      var text := if TRUE_TEXT <= s then TRUE_TEXT else if FALSE_TEXT <= s then FALSE_TEXT else NULL_TEXT;
      PrefixSplits(text, s);
      t := LiteralToken(text);
    } else {
      var n := NumeralOf(s);
      t := NumberToken(n);
    }
  }

  /** What may follow a trusted value: space, then a comma, a closing brace or the end. */
  predicate MemberBoundary(rest: bytes) {
    var next := SkipSpace(rest);
    next == [] || next[0] == COMMA || next[0] == RBRACE
  }

  lemma ReadsToken(t: Token, after: bytes)
    requires t.Valid() && EndsNumber(after)
    ensures AfterToken(t.Text(after)) == Some(after)
  {
    match t
    case StringToken(raw) =>
      ReadsBody(raw, after);
      assert t.Text(after)[1..] == raw + [QUOTE] + after;
    case CompositeToken(opener, inside) =>
      PassesItems(inside, [Closer(opener)] + after, [Closer(opener)]);
      assert [] + [Closer(opener)] == [Closer(opener)];
      PassesBrackets(opener, inside.Text([Closer(opener)] + after), after, []);
      assert t.Text(after)[1..] == inside.Text([Closer(opener)] + after);
    case LiteralToken(text) => ReadsLiteral(text, after);
    case NumberToken(n) => ReadsNumber(n, after);
  }

  /**
   * On arbitrary bytes: something is left after a secret value exactly when a complete token was
   * consumed and a member may end there. In every other case the rest of the input is consumed.
   */
  lemma SecretValueExact(s: bytes, rest: bytes)
    requires rest != []
    ensures SecretValueRest(s) == rest <==> MemberBoundary(rest) && exists t: Token :: t.Valid() && s == t.Text(rest)
  {
    if SecretValueRest(s) == rest {
      var t := TokenOf(s);
    }
    forall t: Token | t.Valid() && s == t.Text(rest) && MemberBoundary(rest)
      ensures SecretValueRest(s) == rest
    {
      ReadsToken(t, rest);
    }
  }

  lemma {:induction false} LastByteSurvives(s: bytes)
    requires s != [] && !IsSpace(s[|s| - 1])
    ensures SkipSpace(s) != []
  {
    if IsSpace(s[0]) {
      LastByteSurvives(s[1..]);
    }
  }

  lemma {:induction false} OnlySpace(s: bytes)
    ensures SkipSpace(s) == [] <==> forall i :: 0 <= i < |s| ==> IsSpace(s[i])
  {
    if s != [] && IsSpace(s[0]) {
      OnlySpace(s[1..]);
      assert forall i :: 1 <= i < |s| ==> s[i] == s[1..][i - 1];
    }
  }

  /** A complete token, and behind it white space to the end, at least one byte of it. */
  ghost predicate TokenThenSpace(s: bytes) {
    exists t: Token, rest: bytes ::
      t.Valid() && s == t.Text(rest) && rest != [] && forall i :: 0 <= i < |rest| ==> IsSpace(rest[i])
  }

  /**
   * That a comma or closing brace follows whenever something is left holds on exactly the texts
   * that are not one complete token followed by nothing but white space.
   */
  lemma DelimiterExact(s: bytes)
    ensures (SecretValueRest(s) != [] ==> EndsMember(SecretValueRest(s))) <==> !TokenThenSpace(s)
  {
    var left := SecretValueRest(s);
    if left != [] && !EndsMember(left) {
      SecretValueExact(s, left);
      OnlySpace(left);
    }
    if TokenThenSpace(s) {
      var t: Token, rest: bytes :|
        t.Valid() && s == t.Text(rest) && rest != [] && forall i :: 0 <= i < |rest| ==> IsSpace(rest[i]);
      OnlySpace(rest);
      SecretValueExact(s, rest);
    }
  }

  /**
   * The stronger reading, that a comma or closing brace follows whenever something is left, holds
   * on a text that does not end in white space.
   */
  lemma DelimiterFollows(s: bytes)
    requires s != [] && !IsSpace(s[|s| - 1])
    ensures SecretValueRest(s) != [] ==> EndsMember(SecretValueRest(s))
  {
    var rest := SecretValueRest(s);
    if rest != [] {
      var t := TokenOf(s);
      TextEndsWith(t, rest);
      LastByteSurvives(rest);
    }
  }

  lemma TextEndsWith(t: Token, rest: bytes)
    ensures var text := t.Text(rest); |text| >= |rest| && text[|text| - |rest|..] == rest
  {
    hide Token.Text;
    TokenAppends(t, [], rest);
    assert [] + rest == rest;
    assert t.Text(rest)[|t.Text([])|..] == rest;
  }

  /** On the three bytes `1`, space, space the scanner stops after the digit: nothing follows. */
  lemma TrailingSpaceIsLeft()
    ensures SecretValueRest([49, SPACE, SPACE]) == [SPACE, SPACE]
    ensures !EndsMember([SPACE, SPACE])
  {
    var rest: bytes := [SPACE, SPACE];
    assert rest[1..][1..] == [] && SkipSpace([]) == [];
    assert SkipSpace(rest) == [];
    var n := Numeral(false, [49], None, None);
    ReadsToken(NumberToken(n), rest);
    assert NumberToken(n).Text(rest) == [49, SPACE, SPACE];
  }
}
