/**
 * RFC 8259 documents with their layout, and what redaction means on them: the byte scanner of
 * JsonRedactor, which builds no tree, computes the redaction of the tree.
 */
module JsonDocument {
  import opened Wrappers
  import opened Bytes
  import opened JsonKeys
  import opened JsonScanner
  import opened JsonRedactor

  datatype Value =
    | Text(raw: bytes)
    | Literal(text: bytes)
    | Number(number: Numeral)
    | Array(elements: Elements)
    | Object(members: Members)

  /** Section 6: minus and integer digits, an optional fraction, an optional exponent. */
  datatype Numeral = Numeral(minus: bool, integer: bytes, fraction: Option<bytes>, exponent: Option<Exponent>)

  datatype Exponent = Exponent(letter: byte, sign: bytes, digits: bytes)

  /** What stands between the brackets; `more` is present exactly when a comma follows. */
  datatype Elements =
    | NoElements(space: bytes)
    | Elements(before: bytes, value: Value, after: bytes, more: Option<Elements>)

  datatype Members =
    | NoMembers(space: bytes)
    | Members(before: bytes, key: bytes, preColon: bytes, postColon: bytes, value: Value, after: bytes,
              more: Option<Members>)

  datatype Document = Document(before: bytes, value: Value, after: bytes)

  // ---- well-formedness ----

  predicate Space(s: bytes) {
    forall b :: b in s ==> IsSpace(b)
  }

  predicate Digits(s: bytes) {
    s != [] && forall b :: b in s ==> IsDigit(b)
  }

  /** Section 7: no control character, no bare quote, every backslash starts an escape. */
  predicate StringText(s: bytes) {
    if s == [] then true
    else if s[0] != BACKSLASH then s[0] != QUOTE && s[0] >= 0x20 && StringText(s[1..])
    else if |s| < 2 then false
    else if IsShortEscape(s[1]) then StringText(s[2..])
    else s[1] == LOWER_U && |s| >= 6 && HexQuad(s[2..6]).Some? && StringText(s[6..])
  }

  predicate ValidNumeral(n: Numeral) {
    && Digits(n.integer) && (n.integer[0] == 48 ==> |n.integer| == 1)
    && (n.fraction.Some? ==> Digits(n.fraction.value))
    && (n.exponent.Some? ==>
          && n.exponent.value.letter in [101, 69]
          && n.exponent.value.sign in [[], [PLUS], [MINUS]]
          && Digits(n.exponent.value.digits))
  }

  predicate ValidValue(v: Value) {
    match v
    case Text(raw) => StringText(raw)
    case Literal(text) => text in [TRUE_TEXT, FALSE_TEXT, NULL_TEXT]
    case Number(n) => ValidNumeral(n)
    case Array(es) => ValidElements(es)
    case Object(ms) => ValidMembers(ms)
  }

  predicate ValidElements(es: Elements) {
    match es
    case NoElements(space) => Space(space)
    case Elements(before, value, after, more) =>
      Space(before) && ValidValue(value) && Space(after) &&
      match more
      case None => true
      case Some(rest) => rest.Elements? && ValidElements(rest)
  }

  predicate ValidMembers(ms: Members) {
    match ms
    case NoMembers(space) => Space(space)
    case Members(before, key, preColon, postColon, value, after, more) =>
      Space(before) && StringText(key) && Space(preColon) && Space(postColon) && ValidValue(value) && Space(after) &&
      match more
      case None => true
      case Some(rest) => rest.Members? && ValidMembers(rest)
  }

  predicate ValidDocument(d: Document) {
    Space(d.before) && ValidValue(d.value) && Space(d.after)
  }

  // ---- printing, in front of the text that follows ----

  function PrintNumeral(n: Numeral, rest: bytes): bytes {
    (if n.minus then [MINUS] else []) + n.integer + PrintFraction(n.fraction, PrintExponent(n.exponent, rest))
  }

  function PrintFraction(f: Option<bytes>, rest: bytes): bytes {
    match f
    case None => rest
    case Some(digits) => [DOT] + digits + rest
  }

  function PrintExponent(e: Option<Exponent>, rest: bytes): bytes {
    match e
    case None => rest
    case Some(x) => [x.letter] + x.sign + x.digits + rest
  }

  function Print(v: Value, rest: bytes): bytes {
    match v
    case Text(raw) => Quoted(raw, rest)
    case Literal(text) => text + rest
    case Number(n) => PrintNumeral(n, rest)
    case Array(es) => [LBRACKET] + PrintElements(es, [RBRACKET] + rest)
    case Object(ms) => [LBRACE] + PrintMembers(ms, [RBRACE] + rest)
  }

  function PrintElements(es: Elements, rest: bytes): bytes {
    match es
    case NoElements(space) => space + rest
    case Elements(before, value, after, more) =>
      before + Print(value, after +
        match more
        case None => rest
        case Some(others) => [COMMA] + PrintElements(others, rest))
  }

  function PrintMembers(ms: Members, rest: bytes): bytes {
    match ms
    case NoMembers(space) => space + rest
    case Members(before, key, preColon, postColon, value, after, more) =>
      before + Quoted(key, preColon + [COLON] + (postColon + Print(value, after + PrintMore(more, rest))))
  }

  function PrintMore(more: Option<Members>, rest: bytes): bytes {
    match more
    case None => rest
    case Some(others) => [COMMA] + PrintMembers(others, rest)
  }

  function PrintDocument(d: Document): bytes {
    d.before + Print(d.value, d.after)
  }

  // ---- redaction of the tree ----

  function RedactValue(v: Value, secret: bytes -> bool): Value {
    match v
    case Text(_) => v
    case Literal(_) => v
    case Number(_) => v
    case Array(es) => Array(RedactElements(es, secret))
    case Object(ms) => Object(RedactMembers(ms, secret))
  }

  function RedactElements(es: Elements, secret: bytes -> bool): Elements {
    match es
    case NoElements(_) => es
    case Elements(before, value, after, more) =>
      Elements(before, RedactValue(value, secret), after,
        match more
        case None => None
        case Some(others) => Some(RedactElements(others, secret)))
  }

  /** A secret member loses its key, its value and the layout between them. */
  function RedactMembers(ms: Members, secret: bytes -> bool): Members {
    match ms
    case NoMembers(_) => ms
    case Members(before, key, preColon, postColon, value, after, more) =>
      var others :=
        match more
        case None => None
        case Some(rest) => Some(RedactMembers(rest, secret));
      if SecretKey(key, secret) then Members(before, CREDENTIAL, [], [], Text(REDACTED), after, others)
      else Members(before, key, preColon, postColon, RedactValue(value, secret), after, others)
  }

  function RedactDocument(d: Document, secret: bytes -> bool): Document {
    Document(d.before, RedactValue(d.value, secret), d.after)
  }

  // ---- strings and numbers are read back exactly ----

  lemma {:induction false} ReadsString(raw: bytes, rest: bytes)
    requires StringText(raw)
    ensures AfterString(raw + [QUOTE] + rest) == Some(rest)
  {
    var s := raw + [QUOTE] + rest;
    if raw == [] {
      assert s[1..] == rest;
    } else if raw[0] != BACKSLASH {
      assert s[1..] == raw[1..] + [QUOTE] + rest;
      ReadsString(raw[1..], rest);
    } else {
      assert s[2..] == raw[2..] + [QUOTE] + rest;
      if IsShortEscape(raw[1]) {
        ReadsString(raw[2..], rest);
      } else {
        SkipsHex(raw[2..6], raw[6..] + [QUOTE] + rest);
        assert raw[2..] + [QUOTE] + rest == raw[2..6] + (raw[6..] + [QUOTE] + rest);
        ReadsString(raw[6..], rest);
      }
    }
  }

  lemma SkipsHex(digits: bytes, rest: bytes)
    requires |digits| == 4 && HexQuad(digits).Some?
    ensures AfterString(digits + rest) == AfterString(rest)
  {
    var s := digits + rest;
    assert AfterString(s) == AfterString(s[1..]);
    assert AfterString(s[1..]) == AfterString(s[2..]) by { assert s[1..][1..] == s[2..]; }
    assert AfterString(s[2..]) == AfterString(s[3..]) by { assert s[2..][1..] == s[3..]; }
    assert AfterString(s[3..]) == AfterString(s[4..]) by { assert s[3..][1..] == s[4..]; }
    assert s[4..] == rest;
  }

  lemma {:induction false} ReadsDigits(digits: bytes, rest: bytes)
    requires Digits(digits)
    requires rest != [] ==> !IsDigit(rest[0])
    ensures SkipDigits(digits + rest) == rest
    ensures AfterDigits(digits + rest) == Some(rest)
  {
    assert (digits + rest)[1..] == digits[1..] + rest;
    if |digits| == 1 {
      assert digits[1..] + rest == rest;
    } else {
      ReadsDigits(digits[1..], rest);
    }
  }

  /** The byte that may follow a number inside a document. */
  predicate EndsNumber(rest: bytes) {
    rest != [] ==> !IsDigit(rest[0]) && rest[0] != DOT && rest[0] != 101 && rest[0] != 69
  }

  lemma ReadsExponent(e: Option<Exponent>, rest: bytes)
    requires e.Some? ==> e.value.letter in [101, 69] && e.value.sign in [[], [PLUS], [MINUS]] && Digits(e.value.digits)
    requires EndsNumber(rest)
    ensures AfterExponent(PrintExponent(e, rest)) == Some(rest)
  {
    if e.Some? {
      var s := PrintExponent(e, rest);
      ReadsDigits(e.value.digits, rest);
      assert s[1 + |e.value.sign|..] == e.value.digits + rest;
      assert e.value.digits[0] in e.value.digits;
      if e.value.sign == [] {
        assert s[1] == e.value.digits[0];
      }
    }
  }

  lemma ReadsFraction(f: Option<bytes>, rest: bytes)
    requires f.Some? ==> Digits(f.value)
    requires rest != [] ==> !IsDigit(rest[0]) && rest[0] != DOT
    ensures AfterFraction(PrintFraction(f, rest)) == Some(rest)
  {
    if f.Some? {
      ReadsDigits(f.value, rest);
      assert PrintFraction(f, rest)[1..] == f.value + rest;
    }
  }

  lemma ReadsInteger(minus: bool, digits: bytes, rest: bytes)
    requires Digits(digits) && (digits[0] == 48 ==> |digits| == 1)
    requires rest != [] ==> !IsDigit(rest[0])
    ensures AfterInteger((if minus then [MINUS] else []) + digits + rest) == Some(rest)
  {
    var s := (if minus then [MINUS] else []) + digits + rest;
    assert digits[0] in digits;
    ReadsDigits(digits, rest);
    var t := if minus then s[1..] else s;
    assert t == digits + rest;
    if digits[0] == 48 {
      assert t[1..] == rest;
    }
  }

  lemma ReadsNumber(n: Numeral, rest: bytes)
    requires ValidNumeral(n) && EndsNumber(rest)
    ensures AfterToken(PrintNumeral(n, rest)) == Some(rest)
  {
    var e := PrintExponent(n.exponent, rest);
    var f := PrintFraction(n.fraction, e);
    var s := PrintNumeral(n, rest);
    assert AfterNumber(s) == Some(rest) by {
      hide PrintFraction, PrintExponent, AfterInteger, AfterFraction, AfterExponent, SkipDigits, Digits;
      ReadsExponent(n.exponent, rest);
      ReadsFraction(n.fraction, e);
      ReadsInteger(n.minus, n.integer, f);
    }
    assert n.integer[0] in n.integer;
    assert s[0] == if n.minus then MINUS else n.integer[0];
  }

  lemma ReadsLiteral(text: bytes, rest: bytes)
    requires text in [TRUE_TEXT, FALSE_TEXT, NULL_TEXT]
    ensures AfterToken(text + rest) == Some(rest)
  {
    assert (text + rest)[|text|..] == rest;
    assert (text + rest)[..|text|] == text;
    assert (text + rest)[0] == text[0];
    if text == NULL_TEXT || text == FALSE_TEXT {
      assert !(TRUE_TEXT <= text + rest);
    }
    if text == NULL_TEXT {
      assert !(FALSE_TEXT <= text + rest);
    }
  }

  // ---- a composite is passed over whatever it contains ----

  predicate Inert(s: bytes) {
    forall b :: b in s ==> b != QUOTE && b != LBRACE && b != LBRACKET && b != RBRACE && b != RBRACKET
  }

  lemma {:induction false} PassesInert(s: bytes, rest: bytes, open: bytes)
    requires Inert(s)
    ensures AfterComposite(s + rest, open) == AfterComposite(rest, open)
  {
    if s == [] {
      assert s + rest == rest;
    } else {
      assert s[0] in s && forall b :: b in s[1..] ==> b in s;
      assert (s + rest)[1..] == s[1..] + rest;
      PassesInert(s[1..], rest, open);
    }
  }

  lemma PassesString(raw: bytes, rest: bytes, open: bytes)
    requires StringText(raw)
    ensures AfterComposite(Quoted(raw, rest), open) == AfterComposite(rest, open)
  {
    ReadsString(raw, rest);
    assert Quoted(raw, rest)[1..] == raw + [QUOTE] + rest;
  }

  lemma PassesNumber(n: Numeral, rest: bytes, open: bytes)
    requires ValidNumeral(n)
    ensures AfterComposite(PrintNumeral(n, rest), open) == AfterComposite(rest, open)
  {
    var e := PrintExponent(n.exponent, rest);
    var f := PrintFraction(n.fraction, e);
    PassesInert((if n.minus then [MINUS] else []) + n.integer, f, open);
    if n.fraction.Some? {
      PassesInert([DOT] + n.fraction.value, e, open);
    }
    if n.exponent.Some? {
      var x := n.exponent.value;
      PassesInert([x.letter] + x.sign + x.digits, rest, open);
    }
  }

  /** A bracket pair around `inside`, given that the scan passes over `inside`. */
  lemma PassesBrackets(opener: byte, inside: bytes, rest: bytes, open: bytes)
    requires opener == LBRACE || opener == LBRACKET
    requires AfterComposite(inside, open + [Closer(opener)])
      == AfterComposite([Closer(opener)] + rest, open + [Closer(opener)])
    ensures open != [] ==> AfterComposite([opener] + inside, open) == AfterComposite(rest, open)
    ensures open == [] ==> AfterComposite(inside, [Closer(opener)]) == Some(rest)
  {
    var stack := open + [Closer(opener)];
    assert ([opener] + inside)[1..] == inside;
    assert ([Closer(opener)] + rest)[1..] == rest;
    assert stack[..|stack| - 1] == open;
    if open == [] {
      assert stack == [Closer(opener)];
    }
  }

  lemma {:induction false} PassesValue(v: Value, rest: bytes, open: bytes)
    requires ValidValue(v) && open != []
    ensures AfterComposite(Print(v, rest), open) == AfterComposite(rest, open)
    decreases v
  {
    match v
    case Text(raw) => PassesString(raw, rest, open);
    case Literal(text) => PassesInert(text, rest, open);
    case Number(n) => PassesNumber(n, rest, open);
    case Array(es) =>
      PassesElements(es, [RBRACKET] + rest, open + [RBRACKET]);
      PassesBrackets(LBRACKET, PrintElements(es, [RBRACKET] + rest), rest, open);
    case Object(ms) =>
      PassesMembers(ms, [RBRACE] + rest, open + [RBRACE]);
      PassesBrackets(LBRACE, PrintMembers(ms, [RBRACE] + rest), rest, open);
  }

  lemma {:induction false} PassesElements(es: Elements, rest: bytes, open: bytes)
    requires ValidElements(es) && open != []
    ensures AfterComposite(PrintElements(es, rest), open) == AfterComposite(rest, open)
    decreases es
  {
    match es
    case NoElements(space) => PassesInert(space, rest, open);
    case Elements(before, value, after, more) =>
      var next := match more case None => rest case Some(others) => [COMMA] + PrintElements(others, rest);
      PassesInert(before, Print(value, after + next), open);
      PassesValue(value, after + next, open);
      PassesInert(after, next, open);
      if more.Some? {
        PassesInert([COMMA], PrintElements(more.value, rest), open);
        PassesElements(more.value, rest, open);
      }
  }

  lemma {:induction false} PassesMembers(ms: Members, rest: bytes, open: bytes)
    requires ValidMembers(ms) && open != []
    ensures AfterComposite(PrintMembers(ms, rest), open) == AfterComposite(rest, open)
    decreases ms
  {
    match ms
    case NoMembers(space) => PassesInert(space, rest, open);
    case Members(before, key, preColon, postColon, value, after, more) =>
      var next := PrintMore(more, rest);
      var valueText := postColon + Print(value, after + next);
      PassesInert(before, Quoted(key, preColon + [COLON] + valueText), open);
      PassesString(key, preColon + [COLON] + valueText, open);
      PassesInert(preColon + [COLON], valueText, open);
      PassesInert(postColon, Print(value, after + next), open);
      PassesValue(value, after + next, open);
      PassesInert(after, next, open);
      if more.Some? {
        PassesInert([COMMA], PrintMembers(more.value, rest), open);
        PassesMembers(more.value, rest, open);
      }
  }

  // ---- the value of a secret member is measured exactly ----

  /** What follows a member value inside an object: space, then a comma or the closing brace. */
  predicate EndsMember(rest: bytes) {
    var next := SkipSpace(rest);
    next != [] && (next[0] == COMMA || next[0] == RBRACE)
  }

  /** A value is one token, whatever follows that does not go on with a number. */
  lemma ReadsWhole(v: Value, rest: bytes)
    requires ValidValue(v) && EndsNumber(rest)
    ensures AfterToken(Print(v, rest)) == Some(rest)
  {
    match v
    case Text(raw) =>
      ReadsString(raw, rest);
      assert Quoted(raw, rest)[1..] == raw + [QUOTE] + rest;
    case Literal(text) => ReadsLiteral(text, rest);
    case Number(n) => ReadsNumber(n, rest);
    case Array(es) =>
      PassesElements(es, [RBRACKET] + rest, [RBRACKET]);
      assert [] + [RBRACKET] == [RBRACKET];
      PassesBrackets(LBRACKET, PrintElements(es, [RBRACKET] + rest), rest, []);
      assert Print(v, rest)[1..] == PrintElements(es, [RBRACKET] + rest);
    case Object(ms) =>
      PassesMembers(ms, [RBRACE] + rest, [RBRACE]);
      assert [] + [RBRACE] == [RBRACE];
      PassesBrackets(LBRACE, PrintMembers(ms, [RBRACE] + rest), rest, []);
      assert Print(v, rest)[1..] == PrintMembers(ms, [RBRACE] + rest);
  }

  lemma ReadsValue(v: Value, rest: bytes)
    requires ValidValue(v) && EndsMember(rest)
    ensures SecretValueRest(Print(v, rest)) == rest
  {
    hide Print, ValidValue, AfterToken;
    ReadsWhole(v, rest);
  }

  // ---- the scanner redacts the tree ----

  lemma RedactByte(b: byte, rest: bytes, secret: bytes -> bool)
    requires b != QUOTE
    ensures Redact([b] + rest, secret) == [b] + Redact(rest, secret)
  {
    hide AfterString, SecretValueRest, SecretKey, AfterColon;
    assert ([b] + rest)[1..] == rest;
  }

  lemma {:induction false} RedactQuiet(s: bytes, rest: bytes, secret: bytes -> bool)
    requires QUOTE !in s
    ensures Redact(s + rest, secret) == s + Redact(rest, secret)
  {
    hide Redact;
    if s == [] {
      assert s + rest == rest;
    } else {
      assert s[0] in s && s + rest == [s[0]] + (s[1..] + rest);
      RedactByte(s[0], s[1..] + rest, secret);
      RedactQuiet(s[1..], rest, secret);
      assert s == [s[0]] + s[1..];
    }
  }

  /** No member name ends in front of `rest`. */
  predicate NoColon(rest: bytes) {
    AfterColon(rest).None?
  }

  lemma NoColonAfterSpace(space: bytes, b: byte, rest: bytes)
    requires Space(space) && b != COLON && !IsSpace(b)
    ensures NoColon(space + ([b] + rest))
  {
    SkipSpaceOver(space, [b] + rest);
  }

  lemma EndsMemberAfter(space: bytes, b: byte, rest: bytes)
    requires Space(space) && (b == COMMA || b == RBRACE)
    ensures EndsMember(space + ([b] + rest)) && NoColon(space + ([b] + rest))
  {
    SkipSpaceOver(space, [b] + rest);
  }

  lemma {:induction false} RedactsValue(v: Value, rest: bytes, secret: bytes -> bool)
    requires ValidValue(v) && NoColon(rest)
    ensures Redact(Print(v, rest), secret) == Print(RedactValue(v, secret), Redact(rest, secret))
    decreases v
  {
    match v
    case Text(raw) =>
      ReadsString(raw, rest);
      RedactString(raw, rest, secret);
    case Literal(text) => RedactQuiet(text, rest, secret);
    case Number(n) => RedactsNumeral(n, rest, secret);
    case Array(es) =>
      RedactsElements(es, RBRACKET, rest, secret);
      RedactQuiet([LBRACKET], PrintElements(es, [RBRACKET] + rest), secret);
    case Object(ms) =>
      RedactsMembers(ms, rest, secret);
      RedactQuiet([LBRACE], PrintMembers(ms, [RBRACE] + rest), secret);
  }

  lemma RedactsNumeral(n: Numeral, rest: bytes, secret: bytes -> bool)
    requires ValidNumeral(n)
    ensures Redact(PrintNumeral(n, rest), secret) == PrintNumeral(n, Redact(rest, secret))
  {
    var e := PrintExponent(n.exponent, rest);
    RedactQuiet((if n.minus then [MINUS] else []) + n.integer, PrintFraction(n.fraction, e), secret);
    if n.fraction.Some? {
      RedactQuiet([DOT] + n.fraction.value, e, secret);
    }
    if n.exponent.Some? {
      var x := n.exponent.value;
      RedactQuiet([x.letter] + x.sign + x.digits, rest, secret);
    }
  }

  lemma {:induction false} RedactsElements(es: Elements, close: byte, rest: bytes, secret: bytes -> bool)
    requires ValidElements(es) && close == RBRACKET
    ensures Redact(PrintElements(es, [close] + rest), secret)
         == PrintElements(RedactElements(es, secret), [close] + Redact(rest, secret))
    decreases es
  {
    RedactQuiet([close], rest, secret);
    match es
    case NoElements(space) => RedactQuiet(space, [close] + rest, secret);
    case Elements(before, value, after, more) =>
      var next :=
        match more
        case None => [close] + rest
        case Some(others) => [COMMA] + PrintElements(others, [close] + rest);
      NoColonAfterSpace(after, next[0], next[1..]);
      assert [next[0]] + next[1..] == next;
      RedactQuiet(before, Print(value, after + next), secret);
      RedactsValue(value, after + next, secret);
      RedactQuiet(after, next, secret);
      if more.Some? {
        RedactQuiet([COMMA], PrintElements(more.value, [close] + rest), secret);
        RedactsElements(more.value, close, rest, secret);
      }
  }

  lemma {:induction false} RedactsMembers(ms: Members, rest: bytes, secret: bytes -> bool)
    requires ValidMembers(ms)
    ensures Redact(PrintMembers(ms, [RBRACE] + rest), secret)
         == PrintMembers(RedactMembers(ms, secret), [RBRACE] + Redact(rest, secret))
    decreases ms, 0
  {
    RedactQuiet([RBRACE], rest, secret);
    match ms
    case NoMembers(space) => RedactQuiet(space, [RBRACE] + rest, secret);
    case Members(before, key, preColon, postColon, value, after, more) =>
      var next := PrintMore(more, [RBRACE] + rest);
      if more.Some? {
        RedactsMembers(more.value, rest, secret);
        RedactQuiet([COMMA], PrintMembers(more.value, [RBRACE] + rest), secret);
      }
      var redactedMore := match more case None => None case Some(m) => Some(RedactMembers(m, secret));
      assert Redact(next, secret) == PrintMore(redactedMore, [RBRACE] + Redact(rest, secret));
      EndsMemberAfter(after, next[0], next[1..]);
      assert [next[0]] + next[1..] == next;
      RedactQuiet(after, next, secret);
      var tail := after + next;
      RedactQuiet(before, Quoted(key, preColon + [COLON] + (postColon + Print(value, tail))), secret);
      if SecretKey(key, secret) {
        RedactsSecretMember(key, preColon, postColon, value, tail, secret);
      } else {
        RedactsValue(value, tail, secret);
        RedactsOpenMember(key, preColon, postColon, Print(value, tail), secret);
      }
  }

  /** A secret member becomes the marker, and the scan goes on where its value ends. */
  lemma MarksSecretMember(key: bytes, preColon: bytes, postColon: bytes, valueText: bytes, secret: bytes -> bool)
    requires StringText(key) && Space(preColon) && Space(postColon) && SecretKey(key, secret)
    requires valueText != [] ==> !IsSpace(valueText[0])
    ensures Redact(Quoted(key, preColon + [COLON] + (postColon + valueText)), secret)
      == MARKER + Redact(SecretValueRest(valueText), secret)
  {
    hide SecretValueRest, DecodeKey, SecretKey, AfterString, AfterColon, Space, StringText;
    var t := preColon + [COLON] + (postColon + valueText);
    var s := Quoted(key, t);
    assert s[1..] == key + [QUOTE] + t;
    ReadsString(key, t);
    assert s[1..|s| - |t| - 1] == key;
    ColonFound(preColon, postColon, valueText);
  }

  lemma RedactsSecretMember(key: bytes, preColon: bytes, postColon: bytes, value: Value, tail: bytes,
                            secret: bytes -> bool)
    requires StringText(key) && Space(preColon) && Space(postColon) && ValidValue(value)
    requires EndsMember(tail) && SecretKey(key, secret)
    ensures Redact(Quoted(key, preColon + [COLON] + (postColon + Print(value, tail))), secret)
      == Quoted(CREDENTIAL, [] + [COLON] + ([] + Print(Text(REDACTED), Redact(tail, secret))))
  {
    hide SecretValueRest, SecretKey, EndsMember, Space, ValidValue, StringText;
    ValueStartsSolid(value, tail);
    ReadsValue(value, tail);
    MarksSecretMember(key, preColon, postColon, Print(value, tail), secret);
    MarkerParts(Redact(tail, secret));
  }

  lemma ColonFound(preColon: bytes, postColon: bytes, valueText: bytes)
    requires Space(preColon) && Space(postColon)
    requires valueText != [] ==> !IsSpace(valueText[0])
    ensures AfterColon(preColon + [COLON] + (postColon + valueText)) == Some(valueText)
  {
    var after := postColon + valueText;
    assert preColon + [COLON] + after == preColon + ([COLON] + after);
    SkipSpaceOver(preColon, [COLON] + after);
    assert ([COLON] + after)[1..] == after;
    SkipSpaceOver(postColon, valueText);
  }

  lemma ValueStartsSolid(v: Value, rest: bytes)
    requires ValidValue(v)
    ensures Print(v, rest) != [] && !IsSpace(Print(v, rest)[0])
  {
    if v.Number? {
      assert v.number.integer[0] in v.number.integer;
    }
  }

  /** A member whose key is not secret keeps its key, and the scan goes on with its value. */
  lemma RedactsOpenMember(key: bytes, preColon: bytes, postColon: bytes, valueText: bytes, secret: bytes -> bool)
    requires StringText(key) && Space(preColon) && Space(postColon) && !SecretKey(key, secret)
    ensures Redact(Quoted(key, preColon + [COLON] + (postColon + valueText)), secret)
      == Quoted(key, preColon + [COLON] + (postColon + Redact(valueText, secret)))
  {
    hide SecretValueRest, DecodeKey;
    var after := postColon + valueText;
    var t := preColon + [COLON] + after;
    ReadsString(key, t);
    RedactString(key, t, secret);
    RedactQuiet(preColon + [COLON], after, secret);
    RedactQuiet(postColon, valueText, secret);
  }

  /** On every document the byte scanner returns the text of the redacted tree. */
  lemma RedactsDocument(d: Document, secret: bytes -> bool)
    requires ValidDocument(d)
    ensures Redact(PrintDocument(d), secret) == PrintDocument(RedactDocument(d, secret))
  {
    var end := d.after;
    SkipSpaceOver(d.after, []);
    assert d.after + [] == d.after;
    RedactQuiet(d.before, Print(d.value, end), secret);
    RedactsValue(d.value, end, secret);
    RedactQuiet(d.after, [], secret);
  }
}
