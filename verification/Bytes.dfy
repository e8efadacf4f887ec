/** Bytes as bounded integers, and the few ASCII classes the scanners test. */
module Bytes {

  type byte = b: int | 0 <= b < 256
  type bytes = seq<byte>

  const NUL: byte := 0
  const TAB: byte := 9
  const LF: byte := 10
  const FF: byte := 12
  const CR: byte := 13
  const SPACE: byte := 32
  const QUOTE: byte := 34
  const HASH: byte := 35
  const PERCENT: byte := 37
  const PLUS: byte := 43
  const COMMA: byte := 44
  const MINUS: byte := 45
  const DOT: byte := 46
  const SLASH: byte := 47
  const COLON: byte := 58
  const SEMICOLON: byte := 59
  const LBRACKET: byte := 91
  const BACKSLASH: byte := 92
  const RBRACKET: byte := 93
  const UNDERSCORE: byte := 95
  const LBRACE: byte := 123
  const RBRACE: byte := 125

  predicate IsDigit(b: byte) {
    48 <= b <= 57
  }

  predicate IsLetter(b: byte) {
    65 <= b <= 90 || 97 <= b <= 122
  }

  predicate IsHexDigit(b: byte) {
    IsDigit(b) || 97 <= b <= 102 || 65 <= b <= 70
  }

  /** Value of one hexadecimal digit, in either case. */
  function HexValue(b: byte): (v: nat)
    requires IsHexDigit(b)
    ensures v < 16
  {
    if IsDigit(b) then b - 48 else if b >= 97 then b - 87 else b - 55
  }

  /** True when `word` starts at offset `at` of `s`. */
  predicate OccursAt(s: bytes, at: int, word: bytes) {
    0 <= at && at + |word| <= |s| && s[at..at + |word|] == word
  }

  /** The concatenation of a sequence of chunks. */
  function Concat(chunks: seq<bytes>): bytes {
    if chunks == [] then [] else chunks[0] + Concat(chunks[1..])
  }

  function Sum(s: bytes): (n: nat)
    ensures n <= 255 * |s|
  {
    if s == [] then 0 else s[0] + Sum(s[1..])
  }

  lemma {:induction false} SumConcat(a: bytes, b: bytes)
    ensures Sum(a + b) == Sum(a) + Sum(b)
  {
    if a == [] {
      assert a + b == b;
    } else {
      SumConcat(a[1..], b);
      assert (a + b)[1..] == a[1..] + b;
    }
  }

  predicate AllZero(s: bytes) {
    forall i :: 0 <= i < |s| ==> s[i] == NUL
  }

  function Zeros(n: nat): (s: bytes)
    ensures |s| == n && AllZero(s)
  {
    seq(n, i => NUL)
  }
}
