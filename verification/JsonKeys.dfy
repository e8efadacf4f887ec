/**
 * Decoding of a JSON member name. The decoder works on raw bytes; what it should return is stated
 * twice and independently: as an exact grammar of the byte strings it accepts, and as the UTF-8
 * text of a sequence of Unicode scalar values under every spelling section 7 of RFC 8259 allows.
 */
module JsonKeys {
  import opened Wrappers
  import opened Bytes
  import opened Unicode

  const LOWER_U: byte := 117

  // ---- the decoder ----

  function HexQuad(s: bytes): (r: Option<nat>)
    requires |s| == 4
    ensures r.Some? ==> r.value < 0x10000
  {
    if IsHexDigit(s[0]) && IsHexDigit(s[1]) && IsHexDigit(s[2]) && IsHexDigit(s[3]) then
      Some(((HexValue(s[0]) * 16 + HexValue(s[1])) * 16 + HexValue(s[2])) * 16 + HexValue(s[3]))
    else None
  }

  /** `(result << 4) | digit` of the source is a multiplication here: the low nibble is free. */
  method DecodeHexQuad(value: bytes) returns (result: nat, valid: bool)
    ensures valid <==> |value| == 4 && HexQuad(value).Some?
    ensures valid ==> result == HexQuad(value).value
    ensures !valid ==> result == 0
  {
    if |value| != 4 {
      return 0, false;
    }
    var r := 0;
    for index := 0 to |value|
      invariant forall j :: 0 <= j < index ==> IsHexDigit(value[j])
      invariant index == 0 ==> r == 0
      invariant index == 1 ==> r == HexValue(value[0])
      invariant index == 2 ==> r == HexValue(value[0]) * 16 + HexValue(value[1])
      invariant index == 3 ==> r == (HexValue(value[0]) * 16 + HexValue(value[1])) * 16 + HexValue(value[2])
      invariant index == 4 ==> HexQuad(value) == Some(r)
    {
      if !IsHexDigit(value[index]) {
        return 0, false;
      }
      r := r * 16 + HexValue(value[index]);
    }
    return r, true;
  }

  predicate IsHigh(c: nat) { 0xD800 <= c <= 0xDBFF }
  predicate IsLow(c: nat) { 0xDC00 <= c <= 0xDFFF }

  function Combine(high: nat, low: nat): (c: nat)
    requires IsHigh(high) && IsLow(low)
    ensures IsScalar(c) && c >= 0x10000
  {
    0x10000 + (high - 0xD800) * 1024 + (low - 0xDC00)
  }

  predicate IsShortEscape(b: byte) {
    b in [QUOTE, BACKSLASH, SLASH, 98, 102, 110, 114, 116]
  }

  function ShortEscape(b: byte): byte
    requires IsShortEscape(b)
  {
    if b == 98 then 8
    else if b == 102 then FF
    else if b == 110 then LF
    else if b == 114 then CR
    else if b == 116 then TAB
    else b
  }

  /** The escape at the front of `raw`: its text, and how many bytes spell it. */
  function ReadEscape(raw: bytes): (r: Option<(bytes, nat)>)
    requires raw != [] && raw[0] == BACKSLASH
    ensures r.Some? ==> 1 < r.value.1 <= |raw|
  {
    if |raw| < 2 then None
    else if IsShortEscape(raw[1]) then Some(([ShortEscape(raw[1])], 2))
    else if raw[1] != LOWER_U || |raw| < 6 then None
    else
      match HexQuad(raw[2..6])
      case None => None
      case Some(c) =>
        if IsHigh(c) then
          if |raw| < 12 || raw[6] != BACKSLASH || raw[7] != LOWER_U then None
          else
            match HexQuad(raw[8..12])
            case None => None
            case Some(low) => if IsLow(low) then Some((Utf8(Combine(c, low)), 12)) else None
        else if IsLow(c) then None
        else Some((Utf8(c), 6))
  }

  function Prepend(text: bytes, rest: Option<bytes>): Option<bytes> {
    match rest
    case None => None
    case Some(t) => Some(text + t)
  }

  function DecodeKey(raw: bytes): Option<bytes> {
    if raw == [] then Some([])
    else if raw[0] != BACKSLASH then Prepend([raw[0]], DecodeKey(raw[1..]))
    else
      match ReadEscape(raw)
      case None => None
      case Some((text, n)) => Prepend(text, DecodeKey(raw[n..]))
  }

  lemma {:induction false} DecodesPlain(raw: bytes)
    requires BACKSLASH !in raw
    ensures DecodeKey(raw) == Some(raw)
  {
    if raw != [] {
      DecodesPlain(raw[1..]);
      assert [raw[0]] + raw[1..] == raw;
    }
  }

  method DecodeJsonKey(raw: bytes) returns (key: bytes, valid: bool)
    ensures valid <==> DecodeKey(raw).Some?
    ensures valid ==> DecodeKey(raw) == Some(key)
    ensures !valid ==> key == []
  {
    if BACKSLASH !in raw {
      DecodesPlain(raw);
      return raw, true;
    }
    var output: bytes := [];
    var index := 0;
    PrependNothing(DecodeKey(raw));
    assert raw[0..] == raw;
    while index < |raw|
      invariant 0 <= index <= |raw|
      invariant DecodeKey(raw) == Prepend(output, DecodeKey(raw[index..]))
    {
      ghost var left := raw[index..];
      var current := raw[index];
      if current != BACKSLASH {
        assert left[1..] == raw[index + 1..];
        PrependTwice(output, [current], DecodeKey(raw[index + 1..]));
        output := output + [current];
        index := index + 1;
      } else {
        var text, next, ok := DecodeEscapeAt(raw, index);
        if !ok {
          return [], false;
        }
        assert left[next - index..] == raw[next..];
        PrependTwice(output, text, DecodeKey(raw[next..]));
        output := output + text;
        index := next;
      }
    }
    assert raw[index..] == [];
    assert output + [] == output;
    return output, true;
  }

  lemma PrependNothing(rest: Option<bytes>)
    ensures Prepend([], rest) == rest
  {
    if rest.Some? {
      assert [] + rest.value == rest.value;
    }
  }

  lemma PrependTwice(a: bytes, b: bytes, rest: Option<bytes>)
    ensures Prepend(a, Prepend(b, rest)) == Prepend(a + b, rest)
  {
    if rest.Some? {
      assert a + (b + rest.value) == (a + b) + rest.value;
    }
  }

  /** The escape branch of the decoding loop; `next` is where the loop continues. */
  method DecodeEscapeAt(raw: bytes, start: nat) returns (text: bytes, next: nat, ok: bool)
    requires start < |raw| && raw[start] == BACKSLASH
    ensures ok <==> ReadEscape(raw[start..]).Some?
    ensures ok ==> start < next <= |raw| && ReadEscape(raw[start..]) == Some((text, next - start))
  {
    ghost var left := raw[start..];
    if start + 1 >= |raw| {
      return [], start, false;
    }
    var index := start + 1;
    if IsShortEscape(raw[index]) {
      return [ShortEscape(raw[index])], index + 1, true;
    }
    if raw[index] != LOWER_U || index + 4 >= |raw| {
      return [], start, false;
    }
    assert raw[index + 1..index + 5] == left[2..6];
    var codepoint, valid := DecodeHexQuad(raw[index + 1..index + 5]);
    if !valid {
      return [], start, false;
    }
    index := index + 4;
    if 0xD800 <= codepoint <= 0xDBFF {
      if index + 6 >= |raw| || raw[index + 1] != BACKSLASH || raw[index + 2] != LOWER_U {
        return [], start, false;
      }
      assert raw[index + 3..index + 7] == left[8..12];
      var low, lowValid := DecodeHexQuad(raw[index + 3..index + 7]);
      if !lowValid || low < 0xDC00 || low > 0xDFFF {
        return [], start, false;
      }
      return Utf8(Combine(codepoint, low)), index + 7, true;
    }
    if 0xDC00 <= codepoint <= 0xDFFF {
      return [], start, false;
    }
    return Utf8(codepoint), index + 1, true;
  }

  // ---- the grammar of accepted keys ----

  /** One unit of a key: a byte that stands for itself, or an escape. */
  datatype Unit = Plain(b: byte) | Short(letter: byte) | Hex(digits: bytes) | Pair(high: bytes, low: bytes) {

    predicate Valid() {
      match this
      case Plain(b) => b != BACKSLASH
      case Short(letter) => IsShortEscape(letter)
      case Hex(digits) =>
        |digits| == 4 && HexQuad(digits).Some? && IsScalar(HexQuad(digits).value)
      case Pair(high, low) =>
        |high| == 4 && |low| == 4 && HexQuad(high).Some? && HexQuad(low).Some? &&
        IsHigh(HexQuad(high).value) && IsLow(HexQuad(low).value)
    }

    function Spelled(): bytes {
      match this
      case Plain(b) => [b]
      case Short(letter) => [BACKSLASH, letter]
      case Hex(digits) => [BACKSLASH, LOWER_U] + digits
      case Pair(high, low) => [BACKSLASH, LOWER_U] + high + [BACKSLASH, LOWER_U] + low
    }

    function Meaning(): bytes
      requires Valid()
    {
      match this
      case Plain(b) => [b]
      case Short(letter) => [ShortEscape(letter)]
      case Hex(digits) => Utf8(HexQuad(digits).value)
      case Pair(high, low) => Utf8(Combine(HexQuad(high).value, HexQuad(low).value))
    }
  }

  predicate AllValid(units: seq<Unit>) {
    forall u :: u in units ==> u.Valid()
  }

  function Spelled(units: seq<Unit>): bytes {
    if units == [] then [] else units[0].Spelled() + Spelled(units[1..])
  }

  function Meaning(units: seq<Unit>): bytes
    requires AllValid(units)
  {
    if units == [] then [] else units[0].Meaning() + Meaning(units[1..])
  }

  lemma ReadsUnit(u: Unit, rest: bytes)
    requires u.Valid() && !u.Plain?
    ensures ReadEscape(u.Spelled() + rest) == Some((u.Meaning(), |u.Spelled()|))
  {
    var raw := u.Spelled() + rest;
    match u
    case Short(letter) => assert raw[1] == letter;
    case Hex(digits) =>
      assert raw[1] == LOWER_U && raw[2..6] == digits;
    case Pair(high, low) =>
      assert raw[1] == LOWER_U && raw[2..6] == high;
      assert raw[6] == BACKSLASH && raw[7] == LOWER_U && raw[8..12] == low;
  }

  lemma DecodesUnit(u: Unit, rest: bytes)
    requires u.Valid()
    ensures DecodeKey(u.Spelled() + rest) == Prepend(u.Meaning(), DecodeKey(rest))
  {
    hide ReadEscape, HexQuad;
    var raw := u.Spelled() + rest;
    assert raw[|u.Spelled()|..] == rest;
    if !u.Plain? {
      ReadsUnit(u, rest);
    }
  }

  /** A spelled prefix decodes to its meaning and leaves the decision to the rest. */
  lemma {:induction false} DecodesUnits(units: seq<Unit>, rest: bytes)
    requires AllValid(units)
    ensures DecodeKey(Spelled(units) + rest) == Prepend(Meaning(units), DecodeKey(rest))
  {
    if units == [] {
      assert Spelled(units) + rest == rest;
      PrependNothing(DecodeKey(rest));
    } else {
      var tail := Spelled(units[1..]) + rest;
      assert Spelled(units) + rest == units[0].Spelled() + tail;
      DecodesUnit(units[0], tail);
      DecodesUnits(units[1..], rest);
      PrependTwice(units[0].Meaning(), Meaning(units[1..]), DecodeKey(rest));
    }
  }

  /** The unit that spells the front of `raw`. */
  lemma UnitAt(raw: bytes) returns (u: Unit, n: nat)
    requires raw != [] && DecodeKey(raw).Some?
    ensures u.Valid() && 0 < n <= |raw| && u.Spelled() == raw[..n]
    ensures DecodeKey(raw) == Prepend(u.Meaning(), DecodeKey(raw[n..]))
  {
    if raw[0] != BACKSLASH {
      u, n := Plain(raw[0]), 1;
    } else {
      n := ReadEscape(raw).value.1;
      if n == 2 {
        u := Short(raw[1]);
        assert raw[..2] == [raw[0], raw[1]];
      } else if n == 6 {
        u := Hex(raw[2..6]);
        assert raw[..6] == [raw[0], raw[1]] + raw[2..6];
      } else {
        u := Pair(raw[2..6], raw[8..12]);
        assert raw[..12] == [raw[0], raw[1]] + raw[2..6] + [raw[6], raw[7]] + raw[8..12];
      }
    }
  }

  lemma {:induction false} UnitsOf(raw: bytes) returns (units: seq<Unit>)
    requires DecodeKey(raw).Some?
    ensures AllValid(units) && Spelled(units) == raw && Some(Meaning(units)) == DecodeKey(raw)
  {
    hide DecodeKey, ReadEscape;
    if raw == [] {
      units := [];
      DecodesNothing();
    } else {
      var first, n := UnitAt(raw);
      var rest := UnitsOf(raw[n..]);
      units := [first] + rest;
      assert units[1..] == rest;
      assert raw == raw[..n] + raw[n..];
    }
  }

  lemma DecodesNothing()
    ensures DecodeKey([]) == Some([])
  {
  }

  /** Exactly the spelled sequences are accepted, and each decodes to what it spells. */
  lemma DecodeKeyExact(raw: bytes, key: bytes)
    ensures DecodeKey(raw) == Some(key) <==>
      exists units :: AllValid(units) && Spelled(units) == raw && Meaning(units) == key
  {
    if DecodeKey(raw) == Some(key) {
      var units := UnitsOf(raw);
    }
    forall units | AllValid(units) && Spelled(units) == raw && Meaning(units) == key
      ensures DecodeKey(raw) == Some(key)
    {
      DecodesUnits(units, []);
      assert Spelled(units) + [] == raw;
      assert Meaning(units) + [] == key;
    }
  }

  /** The escape of a low surrogate that nothing introduces. */
  lemma StrayLowSurrogateRejected(before: seq<Unit>, low: bytes, rest: bytes)
    requires AllValid(before) && |low| == 4
    requires HexQuad(low).Some? && IsLow(HexQuad(low).value)
    ensures DecodeKey(Spelled(before) + [BACKSLASH, LOWER_U] + low + rest) == None
  {
    var tail := [BACKSLASH, LOWER_U] + low + rest;
    assert Spelled(before) + [BACKSLASH, LOWER_U] + low + rest == Spelled(before) + tail;
    assert DecodeKey(tail) == None by {
      assert tail[0] == BACKSLASH && tail[1] == LOWER_U && tail[2..6] == low;
    }
    hide DecodeKey, HexQuad, ReadEscape;
    DecodesUnits(before, tail);
  }

  /** The escape of a high surrogate is accepted only when the escape of a low one follows. */
  lemma UnpairedHighSurrogateRejected(before: seq<Unit>, high: bytes, rest: bytes)
    requires AllValid(before) && |high| == 4
    requires HexQuad(high).Some? && IsHigh(HexQuad(high).value)
    requires !(|rest| >= 6 && rest[0] == BACKSLASH && rest[1] == LOWER_U &&
               HexQuad(rest[2..6]).Some? && IsLow(HexQuad(rest[2..6]).value))
    ensures DecodeKey(Spelled(before) + [BACKSLASH, LOWER_U] + high + rest) == None
  {
    var tail := [BACKSLASH, LOWER_U] + high + rest;
    assert Spelled(before) + [BACKSLASH, LOWER_U] + high + rest == Spelled(before) + tail;
    assert DecodeKey(tail) == None by {
      assert tail[0] == BACKSLASH && tail[1] == LOWER_U && tail[2..6] == high;
      if |rest| >= 6 {
        assert tail[6] == rest[0] && tail[7] == rest[1] && tail[8..12] == rest[2..6];
      }
      assert ReadEscape(tail) == None;
    }
    hide DecodeKey, HexQuad, ReadEscape;
    DecodesUnits(before, tail);
  }

  // ---- keys as text ----

  /** One scalar value and the way the document spells it: as itself, or by an escape. */
  datatype Letter = AsItself(c: nat) | Escaped(unit: Unit) {

    predicate Valid() {
      match this
      case AsItself(c) => IsScalar(c) && c >= 0x20 && c != QUOTE && c != BACKSLASH
      case Escaped(unit) => !unit.Plain? && unit.Valid()
    }

    /** The scalar value spelled. */
    function Scalar(): (c: nat)
      requires Valid()
      ensures IsScalar(c)
    {
      match this
      case AsItself(c) => c
      case Escaped(Short(letter)) => var e := ShortEscape(letter); assert e < 128; e
      case Escaped(Hex(digits)) => HexQuad(digits).value
      case Escaped(Pair(high, low)) => Combine(HexQuad(high).value, HexQuad(low).value)
    }

    function Spelled(): bytes
      requires Valid()
    {
      match this
      case AsItself(c) => Utf8(c)
      case Escaped(unit) => unit.Spelled()
    }
  }

  predicate AllLetters(text: seq<Letter>) {
    forall l :: l in text ==> l.Valid()
  }

  function Written(text: seq<Letter>): bytes
    requires AllLetters(text)
  {
    if text == [] then [] else text[0].Spelled() + Written(text[1..])
  }

  /** The text as UTF-8, with every spelling forgotten. */
  function AsUtf8(text: seq<Letter>): bytes
    requires AllLetters(text)
  {
    if text == [] then [] else Utf8(text[0].Scalar()) + AsUtf8(text[1..])
  }

  lemma {:induction false} PlainPrefix(plain: bytes, rest: bytes)
    requires BACKSLASH !in plain
    ensures DecodeKey(plain + rest) == Prepend(plain, DecodeKey(rest))
  {
    if plain == [] {
      assert plain + rest == rest;
      PrependNothing(DecodeKey(rest));
    } else {
      PlainPrefix(plain[1..], rest);
      assert (plain + rest)[1..] == plain[1..] + rest;
      PrependTwice([plain[0]], plain[1..], DecodeKey(rest));
      assert [plain[0]] + plain[1..] == plain;
    }
  }

  /** However a text is spelled, the decoder returns its UTF-8 bytes. */
  lemma {:induction false} DecodesEverySpelling(text: seq<Letter>)
    requires AllLetters(text)
    ensures DecodeKey(Written(text)) == Some(AsUtf8(text))
  {
    if text != [] {
      var rest := Written(text[1..]);
      DecodesEverySpelling(text[1..]);
      assert text[0].Valid();
      match text[0]
      case AsItself(c) => PlainPrefix(Utf8(c), rest);
      case Escaped(unit) => DecodesUnit(unit, rest);
    }
  }
}
