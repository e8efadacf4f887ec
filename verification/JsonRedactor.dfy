/**
 * Replacement of secret members in arbitrary text. `secret` is the key test of the source
 * (case folding followed by a fixed list), of which only one fact is ever used: the key the
 * replacement itself introduces is not secret.
 */
module JsonRedactor {
  import opened Wrappers
  import opened Bytes
  import opened JsonScanner
  import opened JsonKeys

  /** credential */
  const CREDENTIAL: bytes := [99, 114, 101, 100, 101, 110, 116, 105, 97, 108]

  /** <redacted> */
  const REDACTED: bytes := [60, 114, 101, 100, 97, 99, 116, 101, 100, 62]

  /** "credential":"<redacted>" */
  const MARKER: bytes := [QUOTE] + CREDENTIAL + [QUOTE, COLON, QUOTE] + REDACTED + [QUOTE]

  predicate SecretKey(raw: bytes, secret: bytes -> bool) {
    var key := DecodeKey(raw);
    key.Some? && secret(key.value)
  }

  /** The text after `t` when `t` continues with a colon, as it does after a member name. */
  function AfterColon(t: bytes): (r: Option<bytes>)
    ensures r.Some? ==> |r.value| < |t|
  {
    var next := SkipSpace(t);
    if next != [] && next[0] == COLON then Some(SkipSpace(next[1..])) else None
  }

  /** The redacted form of `s`, when `s` does not start inside a string. */
  function Redact(s: bytes, secret: bytes -> bool): bytes
    decreases |s|
  {
    if s == [] then []
    else if s[0] != QUOTE then [s[0]] + Redact(s[1..], secret)
    else
      match AfterString(s[1..])
      case None => s
      case Some(t) =>
        if AfterColon(t).Some? && SecretKey(s[1..|s| - |t| - 1], secret) then
          MARKER + Redact(SecretValueRest(AfterColon(t).value), secret)
        else
          s[..|s| - |t|] + Redact(t, secret)
  }

  method RedactJsonSecrets(value: bytes, secret: bytes -> bool) returns (redacted: bytes)
    ensures redacted == Redact(value, secret)
  {
    hide *;
    assert value[0..0] == [] && value[0..] == value;
    var output: bytes := [];
    var cursor, index := 0, 0;
    var changed := false;
    while index < |value|
      invariant 0 <= cursor <= index <= |value|
      invariant !changed ==> output == [] && cursor == 0
      invariant Redact(value, secret) == output + value[cursor..index] + Redact(value[index..], secret)
    {
      var next, replace := index + 1, false;
      var keyEnd := -1;
      if value[index] == QUOTE {
        keyEnd := JsonStringEnd(value, index);
        if keyEnd < 0 {
          break;
        }
        next, replace := SecretMemberEnd(value, index, keyEnd, secret);
      }
      if replace {
        RedactReplaces(value, index, keyEnd, secret);
        output := output + value[cursor..index] + MARKER;
        changed := true;
        cursor := next;
        assert value[cursor..next] == [];
      } else {
        RedactCopies(value, index, next, secret);
        CopyAhead(output, value, cursor, index, next, Redact(value[next..], secret));
      }
      index := next;
    }
    Remainder(output, value, cursor, index, secret);
    if !changed {
      return value;
    }
    redacted := output + value[cursor..];
  }

  /**
   * For the string that ends at `keyEnd`: whether it opens a secret member, and where the loop
   * continues, after the value in that case and after the string otherwise.
   */
  method SecretMemberEnd(value: bytes, index: nat, keyEnd: nat, secret: bytes -> bool)
    returns (next: nat, replace: bool)
    requires index < keyEnd < |value| && value[index] == QUOTE
    requires AfterString(value[index + 1..]) == Some(value[keyEnd + 1..])
    ensures keyEnd < next <= |value|
    ensures replace <==> AfterColon(value[keyEnd + 1..]).Some? && SecretKey(value[index + 1..keyEnd], secret)
    ensures replace ==> value[next..] == SecretValueRest(AfterColon(value[keyEnd + 1..]).value)
    ensures !replace ==> next == keyEnd + 1
  {
    hide *;
    var colon := SkipJsonWhitespace(value, keyEnd + 1);
    ColonAt(value, keyEnd + 1, colon);
    if colon >= |value| || value[colon] != COLON {
      return keyEnd + 1, false;
    }
    var key, valid := DecodeJsonKey(value[index + 1..keyEnd]);
    KeyTest(value[index + 1..keyEnd], secret);
    if !valid || !secret(key) {
      return keyEnd + 1, false;
    }
    var valueStart := SkipJsonWhitespace(value, colon + 1);
    next := JsonSecretValueEnd(value, valueStart);
    replace := true;
  }

  lemma ColonAt(value: bytes, start: nat, colon: nat)
    requires start <= |value| && colon <= |value| && SkipSpace(value[start..]) == value[colon..]
    ensures AfterColon(value[start..]) ==
      if colon < |value| && value[colon] == COLON then Some(SkipSpace(value[colon + 1..])) else None
  {
    if colon < |value| {
      Shift(value, colon, colon + 1);
    }
  }

  lemma KeyTest(raw: bytes, secret: bytes -> bool)
    ensures SecretKey(raw, secret) <==> DecodeKey(raw).Some? && secret(DecodeKey(raw).value)
  {
  }

  lemma Remainder(output: bytes, value: bytes, cursor: nat, index: nat, secret: bytes -> bool)
    requires cursor <= index <= |value|
    requires index == |value| || (value[index] == QUOTE && AfterString(value[index + 1..]).None?)
    ensures output + value[cursor..index] + Redact(value[index..], secret) == output + value[cursor..]
    ensures [] + value[0..] == value
  {
    if index < |value| {
      Shift(value, index, index + 1);
    }
    assert Redact(value[index..], secret) == value[index..];
    assert value[cursor..index] + value[index..] == value[cursor..];
  }

  /** The text up to `next` is one byte outside a string, or a string that is no secret key. */
  lemma RedactCopies(value: bytes, index: nat, next: nat, secret: bytes -> bool)
    requires index < next <= |value|
    requires if value[index] != QUOTE then next == index + 1
             else
               AfterString(value[index + 1..]) == Some(value[next..]) &&
               (AfterColon(value[next..]).None? || !SecretKey(value[index + 1..next - 1], secret))
    ensures Redact(value[index..], secret) == value[index..next] + Redact(value[next..], secret)
  {
    hide SecretValueRest, DecodeKey, AfterString, SkipSpace;
    var left := value[index..];
    Shift(value, index, index + 1);
    assert left[..next - index] == value[index..next];
    if value[index] == QUOTE {
      assert left[1..next - 1 - index] == value[index + 1..next - 1];
    }
  }

  lemma RedactReplaces(value: bytes, index: nat, keyEnd: nat, secret: bytes -> bool)
    requires index < keyEnd < |value| && value[index] == QUOTE
    requires AfterString(value[index + 1..]) == Some(value[keyEnd + 1..])
    requires AfterColon(value[keyEnd + 1..]).Some?
    requires SecretKey(value[index + 1..keyEnd], secret)
    ensures Redact(value[index..], secret) ==
      MARKER + Redact(SecretValueRest(AfterColon(value[keyEnd + 1..]).value), secret)
  {
    hide SecretValueRest, DecodeKey, AfterString, SkipSpace;
    var left := value[index..];
    Shift(value, index, index + 1);
    assert left[1..keyEnd - index] == value[index + 1..keyEnd];
  }

  lemma CopyAhead(output: bytes, value: bytes, cursor: nat, index: nat, next: nat, rest: bytes)
    requires cursor <= index <= next <= |value|
    ensures output + value[cursor..index] + (value[index..next] + rest) == output + value[cursor..next] + rest
  {
    assert value[cursor..index] + value[index..next] == value[cursor..next];
  }

  // ---- redaction is idempotent on every input ----

  lemma {:induction false} SkipSpaceSplits(s: bytes) returns (space: bytes)
    ensures s == space + SkipSpace(s) && forall b :: b in space ==> IsSpace(b)
  {
    if s != [] && IsSpace(s[0]) {
      var rest := SkipSpaceSplits(s[1..]);
      space := [s[0]] + rest;
    } else {
      space := [];
    }
  }

  lemma {:induction false} SkipSpaceOver(space: bytes, rest: bytes)
    requires forall b :: b in space ==> IsSpace(b)
    ensures SkipSpace(space + rest) == SkipSpace(rest)
  {
    if space == [] {
      assert space + rest == rest;
    } else {
      SkipSpaceOver(space[1..], rest);
      assert (space + rest)[1..] == space[1..] + rest;
    }
  }

  /** A string and the text after it, however long the string is. */
  lemma {:induction false} AfterStringSplits(s: bytes, u: bytes)
    requires AfterString(s).Some?
    ensures var n := |s| - |AfterString(s).value|;
      AfterString(s).value == s[n..] && AfterString(s[..n] + u) == Some(u)
    decreases |s|
  {
    var n := |s| - |AfterString(s).value|;
    if s[0] != QUOTE {
      var k := if s[0] == BACKSLASH then 2 else 1;
      AfterStringSplits(s[k..], u);
      SkipsPrefix(s, k, n, u);
    } else {
      assert s[..1] + u == [QUOTE] + u;
      assert ([QUOTE] + u)[1..] == u;
    }
  }

  lemma SkipsPrefix(s: bytes, k: nat, n: nat, u: bytes)
    requires s != [] && s[0] != QUOTE && k == (if s[0] == BACKSLASH then 2 else 1) && k <= n <= |s|
    ensures AfterString(s[..n] + u) == AfterString(s[k..][..n - k] + u)
    ensures s[k..][n - k..] == s[n..]
  {
    var joined := s[..n] + u;
    assert joined[0] == s[0];
    assert joined[k..] == s[k..][..n - k] + u;
  }

  /** What decides whether a string is a member name survives redaction of the text after it. */
  lemma {:induction false} ColonSurvives(t: bytes, secret: bytes -> bool)
    ensures AfterColon(t).None? <==> AfterColon(Redact(t, secret)).None?
    decreases |t|
  {
    hide SecretValueRest, DecodeKey;
    if t == [] {
    } else if IsSpace(t[0]) {
      ColonSurvives(t[1..], secret);
      assert ([t[0]] + Redact(t[1..], secret))[1..] == Redact(t[1..], secret);
    } else {
      assert Redact(t, secret) != [] && Redact(t, secret)[0] == t[0];
    }
  }

  function Quoted(text: bytes, rest: bytes): bytes {
    [QUOTE] + text + [QUOTE] + rest
  }

  lemma MarkerParts(rest: bytes)
    ensures MARKER + rest == Quoted(CREDENTIAL, [COLON] + Quoted(REDACTED, rest))
  {
  }

  lemma MarkerIsStable(rest: bytes, secret: bytes -> bool)
    requires !secret(CREDENTIAL)
    requires AfterColon(rest).None?
    ensures Redact(MARKER + rest, secret) == MARKER + Redact(rest, secret)
  {
    var tail := Quoted(REDACTED, rest);
    MarkerParts(rest);
    MarkerParts(Redact(rest, secret));
    assert Redact(Quoted(CREDENTIAL, [COLON] + tail), secret) == Quoted(CREDENTIAL, Redact([COLON] + tail, secret)) by {
      SimpleString(CREDENTIAL, [COLON] + tail);
      DecodesPlain(CREDENTIAL);
      RedactString(CREDENTIAL, [COLON] + tail, secret);
    }
    assert Redact([COLON] + tail, secret) == [COLON] + Redact(tail, secret) by {
      assert ([COLON] + tail)[1..] == tail;
    }
    assert Redact(tail, secret) == Quoted(REDACTED, Redact(rest, secret)) by {
      SimpleString(REDACTED, rest);
      RedactString(REDACTED, rest, secret);
    }
  }

  lemma {:induction false} SimpleString(text: bytes, rest: bytes)
    requires QUOTE !in text && BACKSLASH !in text
    ensures AfterString(text + [QUOTE] + rest) == Some(rest)
  {
    var s := text + [QUOTE] + rest;
    if text == [] {
      assert s[1..] == rest;
    } else {
      SimpleString(text[1..], rest);
      assert s[1..] == text[1..] + [QUOTE] + rest;
    }
  }

  /** A complete string that is no secret key is copied. */
  lemma RedactString(raw: bytes, rest: bytes, secret: bytes -> bool)
    requires AfterString(raw + [QUOTE] + rest) == Some(rest)
    requires AfterColon(rest).None? || !SecretKey(raw, secret)
    ensures Redact(Quoted(raw, rest), secret) == Quoted(raw, Redact(rest, secret))
  {
    hide SecretValueRest, DecodeKey, AfterString, SkipSpace, AfterColon, SecretKey;
    var s := Quoted(raw, rest);
    QuotedParts(raw, rest);
    assert Redact(s, secret) == [QUOTE] + raw + [QUOTE] + Redact(rest, secret);
  }

  lemma QuotedParts(raw: bytes, rest: bytes)
    ensures var s := Quoted(raw, rest);
      && s != [] && s[0] == QUOTE && s[1..] == raw + [QUOTE] + rest && |s| - |rest| == |raw| + 2
      && s[1..|raw| + 1] == raw && s[..|raw| + 2] == [QUOTE] + raw + [QUOTE]
  {
  }

  /** A rest that a value was cut from never starts with a colon. */
  lemma MemberRestHasNoColon(t: bytes)
    ensures AfterColon(MemberRest(t)).None?
  {
  }

  lemma SecretValueRestHasNoColon(s: bytes)
    ensures AfterColon(SecretValueRest(s)).None?
  {
    if AfterToken(s).Some? {
      MemberRestHasNoColon(AfterToken(s).value);
    }
  }

  lemma {:induction false} RedactIdempotent(s: bytes, secret: bytes -> bool)
    requires !secret(CREDENTIAL)
    ensures Redact(Redact(s, secret), secret) == Redact(s, secret)
    decreases |s|
  {
    hide SecretValueRest, DecodeKey, AfterString, AfterColon, SecretKey;
    if s == [] {
    } else if s[0] != QUOTE {
      var rest := Redact(s[1..], secret);
      RedactIdempotent(s[1..], secret);
      assert ([s[0]] + rest)[1..] == rest;
    } else if AfterString(s[1..]).Some? {
      var t := AfterString(s[1..]).value;
      if AfterColon(t).Some? && SecretKey(s[1..|s| - |t| - 1], secret) {
        var rest := SecretValueRest(AfterColon(t).value);
        SecretValueRestHasNoColon(AfterColon(t).value);
        ColonSurvives(rest, secret);
        RedactIdempotent(rest, secret);
        MarkerIsStable(Redact(rest, secret), secret);
      } else {
        var rest := Redact(t, secret);
        var raw := s[1..|s| - |t| - 1];
        AfterStringSplits(s[1..], rest);
        EndsWithQuote(s[1..]);
        assert s[1..][..|s| - 1 - |t|] == raw + [QUOTE];
        assert s[..|s| - |t|] == [QUOTE] + raw + [QUOTE];
        ColonSurvives(t, secret);
        RedactIdempotent(t, secret);
        RedactString(raw, rest, secret);
      }
    }
  }

  lemma {:induction false} EndsWithQuote(s: bytes)
    requires AfterString(s).Some?
    ensures s[|s| - |AfterString(s).value| - 1] == QUOTE
    decreases |s|
  {
    if s[0] == QUOTE {
    } else if s[0] == BACKSLASH {
      EndsWithQuote(s[2..]);
    } else {
      EndsWithQuote(s[1..]);
    }
  }
}
