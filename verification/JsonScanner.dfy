/**
 * The byte scanner behind the error sanitizer. Every function takes the bytes that are still
 * unread and returns the bytes left after the construct it recognizes, so that a statement about
 * a document does not depend on where in the text the construct stands. The methods below run
 * over one text with integer offsets, as the Go functions do, and are proved against these.
 */
module JsonScanner {
  import opened Wrappers
  import opened Bytes

  predicate IsSpace(b: byte) {
    b == SPACE || b == TAB || b == CR || b == LF
  }

  function SkipSpace(s: bytes): (r: bytes)
    ensures |r| <= |s|
    ensures r != [] ==> !IsSpace(r[0])
  {
    if s != [] && IsSpace(s[0]) then SkipSpace(s[1..]) else s
  }

  /** `s` starts just after an opening quote; the result starts just after the closing one. */
  function AfterString(s: bytes): (r: Option<bytes>)
    ensures r.Some? ==> |r.value| < |s|
  {
    if s == [] then None
    else if s[0] == QUOTE then Some(s[1..])
    else if s[0] == BACKSLASH then (if |s| == 1 then None else AfterString(s[2..]))
    else AfterString(s[1..])
  }

  function Closer(opener: byte): byte {
    if opener == LBRACE then RBRACE else RBRACKET
  }

  /** `s` starts inside the composites whose closers are stacked in `open`, outside any string. */
  function AfterComposite(s: bytes, open: bytes): (r: Option<bytes>)
    ensures r.Some? ==> |r.value| < |s|
    decreases |s|
  {
    if s == [] then None
    else if s[0] == QUOTE then
      match AfterString(s[1..])
      case None => None
      case Some(t) => AfterComposite(t, open)
    else if s[0] == LBRACE || s[0] == LBRACKET then
      AfterComposite(s[1..], open + [Closer(s[0])])
    else if s[0] == RBRACE || s[0] == RBRACKET then
      if open == [] || s[0] != open[|open| - 1] then None
      else if |open| == 1 then Some(s[1..])
      else AfterComposite(s[1..], open[..|open| - 1])
    else AfterComposite(s[1..], open)
  }

  function SkipDigits(s: bytes): (r: bytes)
    ensures |r| <= |s|
    ensures r != [] ==> !IsDigit(r[0])
    ensures s != [] && IsDigit(s[0]) ==> |r| < |s|
  {
    if s != [] && IsDigit(s[0]) then SkipDigits(s[1..]) else s
  }

  /** At least one digit. */
  function AfterDigits(s: bytes): (r: Option<bytes>)
    ensures r.Some? ==> |r.value| < |s|
  {
    if s != [] && IsDigit(s[0]) then Some(SkipDigits(s)) else None
  }

  function AfterInteger(s: bytes): (r: Option<bytes>)
    ensures r.Some? ==> |r.value| < |s|
  {
    var t := if s != [] && s[0] == MINUS then s[1..] else s;
    if t == [] then None
    else if t[0] == 48 then Some(t[1..])
    else AfterDigits(t)
  }

  function AfterFraction(s: bytes): (r: Option<bytes>)
    ensures r.Some? ==> |r.value| <= |s|
  {
    if s != [] && s[0] == DOT then AfterDigits(s[1..]) else Some(s)
  }

  function AfterExponent(s: bytes): (r: Option<bytes>)
    ensures r.Some? ==> |r.value| <= |s|
  {
    if s != [] && (s[0] == 101 || s[0] == 69) then
      AfterDigits(if |s| > 1 && (s[1] == PLUS || s[1] == MINUS) then s[2..] else s[1..])
    else Some(s)
  }

  function AfterNumber(s: bytes): (r: Option<bytes>)
    ensures r.Some? ==> |r.value| < |s|
  {
    match AfterInteger(s)
    case None => None
    case Some(t) =>
      match AfterFraction(t)
      case None => None
      case Some(u) => AfterExponent(u)
  }

  const TRUE_TEXT: bytes := [116, 114, 117, 101]
  const FALSE_TEXT: bytes := [102, 97, 108, 115, 101]
  const NULL_TEXT: bytes := [110, 117, 108, 108]

  function AfterPrimitive(s: bytes): (r: Option<bytes>)
    ensures r.Some? ==> |r.value| < |s|
  {
    if TRUE_TEXT <= s then Some(s[4..])
    else if FALSE_TEXT <= s then Some(s[5..])
    else if NULL_TEXT <= s then Some(s[4..])
    else AfterNumber(s)
  }

  /** The token at the front of `s`, whatever its kind. */
  function AfterToken(s: bytes): (r: Option<bytes>)
    ensures r.Some? ==> |r.value| < |s|
  {
    if s == [] then None
    else if s[0] == QUOTE then AfterString(s[1..])
    else if s[0] == LBRACE || s[0] == LBRACKET then AfterComposite(s[1..], [Closer(s[0])])
    else AfterPrimitive(s)
  }

  /** A token is trusted only where a member value may end; otherwise nothing is left. */
  function MemberRest(t: bytes): (r: bytes)
    ensures |r| <= |t|
  {
    var next := SkipSpace(t);
    if next == [] || next[0] == COMMA || next[0] == RBRACE then t else []
  }

  function SecretValueRest(s: bytes): (r: bytes)
    ensures |r| <= |s|
  {
    match AfterToken(s)
    case None => []
    case Some(t) => MemberRest(t)
  }

  // ---- the offset-based scanners ----

  lemma Shift(s: bytes, i: nat, j: nat)
    requires i <= j <= |s|
    ensures s[i..][j - i..] == s[j..]
  {
  }

  method JsonStringEnd(value: bytes, quote: nat) returns (end: int)
    requires quote < |value|
    ensures end == -1 ==> AfterString(value[quote + 1..]) == None
    ensures end != -1 ==>
      quote < end < |value| && value[end] == QUOTE &&
      AfterString(value[quote + 1..]) == Some(value[end + 1..])
  {
    var index := quote + 1;
    while index < |value|
      invariant quote + 1 <= index <= |value| + 1
      invariant index > |value| ==> AfterString(value[quote + 1..]) == None
      invariant index <= |value| ==> AfterString(value[quote + 1..]) == AfterString(value[index..])
      decreases |value| + 1 - index
    {
      Shift(value, index, index + 1);
      if value[index] == BACKSLASH {
        index := index + 1;
        if index < |value| {
          Shift(value, index - 1, index + 1);
        }
      } else if value[index] == QUOTE {
        return index;
      }
      index := index + 1;
    }
    end := -1;
  }

  /** A start before the text is clamped to it, and one past the text is returned unchanged. */
  method SkipJsonWhitespace(value: bytes, start: int) returns (index: nat)
    ensures start > |value| ==> index == start
    ensures start <= |value| ==>
      var from := if start < 0 then 0 else start;
      from <= index <= |value| && SkipSpace(value[from..]) == value[index..]
  {
    index := if start < 0 then 0 else start;
    ghost var from := index;
    while index < |value| && IsSpace(value[index])
      invariant from <= index && (from <= |value| ==> index <= |value|) && (from > |value| ==> index == from)
      invariant from <= |value| ==> SkipSpace(value[from..]) == SkipSpace(value[index..])
    {
      Shift(value, index, index + 1);
      index := index + 1;
    }
  }

  method JsonObjectValueEnd(value: bytes, tokenEnd: nat) returns (end: nat)
    requires tokenEnd <= |value|
    ensures tokenEnd <= end <= |value|
    ensures MemberRest(value[tokenEnd..]) == value[end..]
  {
    var index := tokenEnd;
    while index < |value|
      invariant tokenEnd <= index <= |value|
      invariant SkipSpace(value[tokenEnd..]) == SkipSpace(value[index..])
    {
      Shift(value, index, index + 1);
      if IsSpace(value[index]) {
        index := index + 1;
      } else {
        if value[index] == COMMA || value[index] == RBRACE {
          return tokenEnd;
        }
        return |value|;
      }
    }
    end := tokenEnd;
  }

  method ScanDigits(value: bytes, start: nat) returns (index: nat)
    requires start <= |value|
    ensures start <= index <= |value|
    ensures SkipDigits(value[start..]) == value[index..]
  {
    index := start;
    while index < |value| && IsDigit(value[index])
      invariant start <= index <= |value|
      invariant SkipDigits(value[start..]) == SkipDigits(value[index..])
    {
      Shift(value, index, index + 1);
      index := index + 1;
    }
  }

  /** Offset past an RFC 8259 number at `start`, or -1. */
  method NumberEnd(value: bytes, start: nat) returns (end: int)
    requires start < |value|
    ensures end == -1 ==> AfterNumber(value[start..]) == None
    ensures end != -1 ==> start <= end <= |value| && AfterNumber(value[start..]) == Some(value[end..])
  {
    var integerEnd := IntegerEnd(value, start);
    if integerEnd == -1 {
      return -1;
    }
    var index: nat := integerEnd;
    if index < |value| && value[index] == DOT {
      index := index + 1;
      var fractionStart := index;
      index := ScanDigits(value, index);
      assert value[integerEnd..][1..] == value[fractionStart..];
      if index == fractionStart {
        return -1;
      }
    }
    var fractionEnd := index;
    assert AfterFraction(value[integerEnd..]) == Some(value[fractionEnd..]);
    end := ExponentEnd(value, fractionEnd);
  }

  method IntegerEnd(value: bytes, start: nat) returns (end: int)
    requires start < |value|
    ensures end == -1 ==> AfterInteger(value[start..]) == None
    ensures end != -1 ==> start <= end <= |value| && AfterInteger(value[start..]) == Some(value[end..])
  {
    var index := start;
    if value[index] == MINUS {
      index := index + 1;
      Shift(value, start, index);
    }
    if index >= |value| {
      return -1;
    }
    if value[index] == 48 {
      Shift(value, index, index + 1);
      return index + 1;
    }
    if 49 <= value[index] <= 57 {
      end := ScanDigits(value, index);
    } else {
      end := -1;
    }
  }

  method ExponentEnd(value: bytes, start: nat) returns (end: int)
    requires start <= |value|
    ensures end == -1 ==> AfterExponent(value[start..]) == None
    ensures end != -1 ==> start <= end <= |value| && AfterExponent(value[start..]) == Some(value[end..])
  {
    var index := start;
    if index < |value| && (value[index] == 101 || value[index] == 69) {
      index := index + 1;
      if index < |value| && (value[index] == PLUS || value[index] == MINUS) {
        index := index + 1;
      }
      var exponentStart := index;
      Shift(value, start, exponentStart);
      index := ScanDigits(value, index);
      if index == exponentStart {
        return -1;
      }
    }
    end := index;
  }

  method JsonPrimitiveValueEnd(value: bytes, start: nat) returns (end: int)
    requires start < |value|
    ensures end == -1 ==> AfterPrimitive(value[start..]) == None
    ensures end != -1 ==>
      start <= end <= |value| && AfterPrimitive(value[start..]).Some? &&
      value[end..] == MemberRest(AfterPrimitive(value[start..]).value)
  {
    var literals := [TRUE_TEXT, FALSE_TEXT, NULL_TEXT];
    for k := 0 to 3
      invariant forall j :: 0 <= j < k ==> !(literals[j] <= value[start..])
    {
      if literals[k] <= value[start..] {
        var index := start + |literals[k]|;
        Shift(value, start, index);
        end := JsonObjectValueEnd(value, index);
        return;
      }
    }
    assert !(literals[0] <= value[start..]) && !(literals[1] <= value[start..]) && !(literals[2] <= value[start..]);
    var numberEnd := NumberEnd(value, start);
    if numberEnd == -1 {
      return -1;
    }
    end := JsonObjectValueEnd(value, numberEnd);
  }

  /** Offset past the string opened just before `start`, or -1 when it is never closed. */
  method EscapedStringEnd(value: bytes, start: nat) returns (end: int)
    requires start <= |value|
    ensures end == -1 ==> AfterString(value[start..]) == None
    ensures end != -1 ==> start < end <= |value| && AfterString(value[start..]) == Some(value[end..])
  {
    var escaped := false;
    var index := start;
    while index < |value|
      invariant start <= index <= |value|
      invariant AfterString(value[start..]) == StringFrom(value, index, escaped)
    {
      StringStep(value, index, escaped);
      if escaped {
        escaped := false;
      } else if value[index] == BACKSLASH {
        escaped := true;
      } else if value[index] == QUOTE {
        return index + 1;
      }
      index := index + 1;
    }
    end := -1;
  }

  /** What a string scan still has to do at `index`. */
  ghost function StringFrom(value: bytes, index: nat, escaped: bool): Option<bytes>
    requires index <= |value|
  {
    if !escaped then AfterString(value[index..])
    else if index == |value| then None
    else AfterString(value[index + 1..])
  }

  lemma StringStep(value: bytes, index: nat, escaped: bool)
    requires index < |value|
    ensures StringFrom(value, index, escaped) ==
      if escaped then StringFrom(value, index + 1, false)
      else if value[index] == BACKSLASH then StringFrom(value, index + 1, true)
      else if value[index] == QUOTE then Some(value[index + 1..])
      else StringFrom(value, index + 1, false)
  {
    Shift(value, index, index + 1);
    if index + 2 <= |value| {
      Shift(value, index, index + 2);
    }
  }

  /** Offset past the bracket that closes `opener`, found with a stack of closers, or -1. */
  method CompositeEnd(value: bytes, start: nat, opener: byte) returns (end: int)
    requires start <= |value|
    ensures end == -1 ==> AfterComposite(value[start..], [Closer(opener)]) == None
    ensures end != -1 ==>
      start < end <= |value| && AfterComposite(value[start..], [Closer(opener)]) == Some(value[end..])
  {
    var stack := [Closer(opener)];
    var inString, escaped := false, false;
    var index := start;
    while index < |value|
      invariant start <= index <= |value|
      invariant stack != []
      invariant escaped ==> inString
      invariant AfterComposite(value[start..], [Closer(opener)]) ==
        CompositeFrom(value, index, stack, inString, escaped)
    {
      var current := value[index];
      Shift(value, index, index + 1);
      StringStep(value, index, escaped);
      if inString {
        if escaped {
          escaped := false;
        } else if current == BACKSLASH {
          escaped := true;
        } else if current == QUOTE {
          inString := false;
        }
      } else if current == QUOTE {
        inString := true;
      } else if current == LBRACE || current == LBRACKET {
        stack := stack + [Closer(current)];
      } else if current == RBRACE || current == RBRACKET {
        if |stack| == 0 || current != stack[|stack| - 1] {
          return -1;
        }
        if |stack| == 1 {
          return index + 1;
        }
        stack := stack[..|stack| - 1];
      }
      index := index + 1;
    }
    end := -1;
  }

  /** What a composite scan still has to do at `index`, in the middle of a string or not. */
  ghost function CompositeFrom(value: bytes, index: nat, stack: bytes, inString: bool, escaped: bool): Option<bytes>
    requires index <= |value|
  {
    if !inString then AfterComposite(value[index..], stack)
    else
      match StringFrom(value, index, escaped)
      case None => None
      case Some(t) => AfterComposite(t, stack)
  }

  /** Offset just past the value of a secret member: everything up to it will be replaced. */
  method JsonSecretValueEnd(value: bytes, start: nat) returns (end: nat)
    ensures end <= |value| && (start >= |value| ==> end == |value|)
    ensures start <= |value| ==> start <= end && SecretValueRest(value[start..]) == value[end..]
  {
    if start >= |value| {
      return |value|;
    }
    Shift(value, start, start + 1);
    var tokenEnd: int;
    if value[start] == QUOTE {
      tokenEnd := EscapedStringEnd(value, start + 1);
    } else if value[start] == LBRACE || value[start] == LBRACKET {
      tokenEnd := CompositeEnd(value, start + 1, value[start]);
    } else {
      var primitive := JsonPrimitiveValueEnd(value, start);
      if primitive >= 0 {
        return primitive;
      }
      return |value|;
    }
    if tokenEnd == -1 {
      return |value|;
    }
    end := JsonObjectValueEnd(value, tokenEnd);
  }
}
