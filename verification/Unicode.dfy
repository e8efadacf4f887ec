/** Unicode scalar values and their UTF-8 encoding, sections 3 and 4 of RFC 3629. */
module Unicode {
  import opened Wrappers
  import opened Bytes

  /** Every code point except the surrogates. */
  predicate IsScalar(c: nat) {
    c < 0xD800 || 0xE000 <= c < 0x110000
  }

  function Utf8(c: nat): (r: bytes)
    requires IsScalar(c)
    ensures 1 <= |r| <= 4
  {
    if c < 0x80 then [c]
    else if c < 0x800 then [0xC0 + c / 64, 0x80 + c % 64]
    else if c < 0x10000 then [0xE0 + c / 4096, 0x80 + c / 64 % 64, 0x80 + c % 64]
    else [0xF0 + c / 262144, 0x80 + c / 4096 % 64, 0x80 + c / 64 % 64, 0x80 + c % 64]
  }

  predicate IsContinuation(b: byte) {
    0x80 <= b < 0xC0
  }

  /** Appends the payload of one continuation byte. */
  function Extend(c: nat, b: byte): nat
    requires IsContinuation(b)
  {
    c * 64 + (b - 0x80)
  }

  /** A strict UTF-8 reader: the first scalar value of `s` and the bytes after it. */
  function ReadUtf8(s: bytes): Option<(nat, bytes)> {
    if s == [] then None
    else if s[0] < 0x80 then Some((s[0], s[1..]))
    else if 0xC0 <= s[0] < 0xE0 && |s| >= 2 && IsContinuation(s[1]) then
      Shortest(Extend(s[0] - 0xC0, s[1]), 0x80, s[2..])
    else if 0xE0 <= s[0] < 0xF0 && |s| >= 3 && IsContinuation(s[1]) && IsContinuation(s[2]) then
      Shortest(Extend(Extend(s[0] - 0xE0, s[1]), s[2]), 0x800, s[3..])
    else if 0xF0 <= s[0] < 0xF8 && |s| >= 4 && IsContinuation(s[1]) && IsContinuation(s[2]) && IsContinuation(s[3]) then
      Shortest(Extend(Extend(Extend(s[0] - 0xF0, s[1]), s[2]), s[3]), 0x10000, s[4..])
    else None
  }

  function Shortest(c: nat, least: nat, rest: bytes): Option<(nat, bytes)> {
    if least <= c && IsScalar(c) then Some((c, rest)) else None
  }

  predicate ValidUtf8(s: bytes)
    decreases |s|
  {
    s == [] ||
    match ReadUtf8(s)
    case None => false
    case Some((_, rest)) => |rest| < |s| && ValidUtf8(rest)
  }

  lemma Peel(c: nat)
    ensures c / 64 * 64 + c % 64 == c && c / 64 / 64 == c / 4096 && c / 64 / 64 / 64 == c / 262144
  {
  }

  /** The encoder is inverted by the strict reader, whatever follows. */
  lemma Utf8RoundTrip(c: nat, rest: bytes)
    requires IsScalar(c)
    ensures ReadUtf8(Utf8(c) + rest) == Some((c, rest))
  {
    var s := Utf8(c) + rest;
    assert s[|Utf8(c)|..] == rest;
    Peel(c);
    Peel(c / 64);
    Peel(c / 4096);
    if c < 0x80 {
    } else if c < 0x800 {
      assert Extend(c / 64, s[1]) == c;
    } else if c < 0x10000 {
      assert Extend(c / 4096, s[1]) == c / 64;
      assert Extend(c / 64, s[2]) == c;
    } else {
      assert Extend(c / 262144, s[1]) == c / 4096;
      assert Extend(c / 4096, s[2]) == c / 64;
      assert Extend(c / 64, s[3]) == c;
    }
  }

  // ----- Decoding in pieces --------------------------------------------------------------

  /** The values a second byte may have behind `lead`: no overlong form, no surrogate, nothing too large. */
  predicate SecondByte(lead: byte, b: byte) {
    && IsContinuation(b)
    && (lead == 0xE0 ==> b >= 0xA0) && (lead == 0xED ==> b < 0xA0)
    && (lead == 0xF0 ==> b >= 0x90) && (lead == 0xF4 ==> b < 0x90)
  }

  /** Too short to be a character, but nothing in it is wrong yet. */
  predicate Incomplete(s: bytes) {
    && s != [] && 0xC2 <= s[0] < 0xF5
    && |s| < (if s[0] < 0xE0 then 2 else if s[0] < 0xF0 then 3 else 4)
    && (|s| > 1 ==> SecondByte(s[0], s[1])) && (|s| > 2 ==> IsContinuation(s[2]))
  }

  /** Decodes every complete character; what is left is incomplete, anything else is an error. */
  function DecodePart(s: bytes): Option<bytes>
    decreases |s|
  {
    if s == [] then Some([])
    else
      match ReadUtf8(s)
      case Some((_, rest)) => assert |rest| < |s|; DecodePart(rest)
      case None => if Incomplete(s) then Some(s) else None
  }

  /** A character that can be read stays what it is, and an error stays an error, whatever follows. */
  lemma ReadsFront(s: bytes, more: bytes)
    ensures
      match ReadUtf8(s)
      case Some((c, rest)) => ReadUtf8(s + more) == Some((c, rest + more))
      case None => s != [] && !Incomplete(s) ==> ReadUtf8(s + more).None?
  {
    forall k | 0 <= k <= |s| ensures (s + more)[k..] == s[k..] + more {
    }
    if s != [] && ReadUtf8(s).Some? {
      var n := if s[0] < 0x80 then 1 else if s[0] < 0xE0 then 2 else if s[0] < 0xF0 then 3 else 4;
      assert (s + more)[n..] == s[n..] + more;
    }
  }

  /** An incomplete character is not a character, and some continuation makes it one. */
  lemma IncompleteExact(s: bytes)
    requires s != []
    ensures Incomplete(s) <==> ReadUtf8(s).None? && exists more :: ReadUtf8(s + more).Some?
  {
    if Incomplete(s) {
      var second: byte := if |s| > 1 then s[1] else if s[0] == 0xE0 || s[0] == 0xF0 then 0xA0 else 0x80;
      var more: bytes := [second, 0x80, 0x80][|s| - 1..];
      assert (s + more)[1] == second;
      assert ReadUtf8(s + more).Some?;
    }
    if more :| ReadUtf8(s + more).Some? {
      ReadsFront(s, more);
    }
  }

  /** Decoding in two pieces, carrying over what was incomplete, is decoding the whole. */
  lemma {:induction false} DecodesInPieces(s: bytes, more: bytes)
    ensures DecodePart(s + more) ==
      match DecodePart(s)
      case None => None
      case Some(left) => DecodePart(left + more)
    decreases |s|
  {
    if s == [] {
      assert s + more == more && [] + more == more;
    } else {
      hide Incomplete;
      ReadsFront(s, more);
      var r := ReadUtf8(s);
      hide ReadUtf8;
      if r.Some? {
        assert |r.value.1| < |s|;
        DecodesInPieces(r.value.1, more);
      }
    }
  }

  lemma {:induction false} DecodesAll(s: bytes)
    ensures ValidUtf8(s) <==> DecodePart(s) == Some([])
    decreases |s|
  {
    if s != [] && ReadUtf8(s).Some? {
      DecodesAll(ReadUtf8(s).value.1);
    }
  }

  /** Valid text cut in front of a byte that continues no character is valid. */
  lemma {:induction false} CutsBetween(s: bytes, k: nat)
    requires ValidUtf8(s) && k < |s| && (k == 0 || !IsContinuation(s[k]))
    ensures ValidUtf8(s[..k])
    decreases |s|
  {
    if k > 0 {
      var rest := ReadUtf8(s).value.1;
      var n := |s| - |rest|;
      CharacterCut(s, k);
      if k < |s| && n < k {
        assert rest[k - n] == s[k];
        CutsBetween(rest, k - n);
      }
      assert ReadUtf8(s[..k]).value.1 == rest[..k - n];
    }
  }

  /** The first character lies wholly in front of such a byte. */
  lemma CharacterCut(s: bytes, k: nat)
    requires ReadUtf8(s).Some? && 0 < k < |s| && !IsContinuation(s[k])
    ensures var (c, rest) := ReadUtf8(s).value; var n := |s| - |rest|;
      0 < n <= k && rest == s[n..] && ReadUtf8(s[..k]) == Some((c, rest[..k - n]))
  {
    var n := if s[0] < 0x80 then 1 else if s[0] < 0xE0 then 2 else if s[0] < 0xF0 then 3 else 4;
    assert ReadUtf8(s).value.1 == s[n..];
    assert n <= k by {
      assert forall i :: 1 <= i < n ==> IsContinuation(s[i]);
    }
    assert s[..k][n..] == s[n..][..k - n];
  }
}
