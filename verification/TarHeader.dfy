/** Header fields and extension records of a raw tar stream, and the names they may carry. */
module TarHeader {
  import opened Wrappers
  import opened Bytes
  import P = PayloadPatterns
  import Unicode

  const BLOCK: nat := 512
  const RECORD: nat := 10240
  const MAX_PAX_BYTES: nat := 8192
  const MAX_NAME_BYTES: nat := 4096

  const REGULAR: byte := 48
  const OLD_REGULAR: byte := 0
  const CONTIGUOUS: byte := 55
  const DIRECTORY: byte := 53
  const SYMLINK: byte := 50
  const HARDLINK: byte := 49
  const PAX: byte := 120
  predicate IsUnsafeExtension(flag: byte) {
    flag == 75 || flag == 76 || flag == 83 || flag == 88 || flag == 103
  }

  predicate IsRegular(flag: byte) {
    flag == REGULAR || flag == OLD_REGULAR || flag == CONTIGUOUS
  }

  predicate IsMember(flag: byte) {
    IsRegular(flag) || flag == DIRECTORY || flag == SYMLINK || flag == HARDLINK
  }

  // ---- octal fields ----

  predicate IsOctal(s: bytes) {
    forall i :: 0 <= i < |s| ==> 48 <= s[i] <= 55
  }

  function OctalValue(s: bytes): nat
    requires IsOctal(s)
  {
    if s == [] then 0 else OctalValue(s[..|s| - 1]) * 8 + (s[|s| - 1] - 48)
  }

  function Octal(n: nat, width: nat): (s: bytes)
    ensures |s| == width && IsOctal(s)
  {
    if width == 0 then [] else Octal(n / 8, width - 1) + [48 + n % 8]
  }

  function Pow8(width: nat): (p: nat)
    ensures p > 0
  {
    if width == 0 then 1 else 8 * Pow8(width - 1)
  }

  lemma {:induction false} OctalRoundTrip(n: nat, width: nat)
    requires n < Pow8(width)
    ensures OctalValue(Octal(n, width)) == n
  {
    if width > 0 {
      OctalRoundTrip(n / 8, width - 1);
      var s := Octal(n, width);
      assert s[..|s| - 1] == Octal(n / 8, width - 1);
    }
  }

  function ParseSize(header: bytes): Option<nat>
    requires |header| == BLOCK
  {
    var field := header[124..136];
    if field[11] != NUL || !IsOctal(field[..11]) then None else Some(OctalValue(field[..11]))
  }

  predicate ChecksumWellFormed(header: bytes)
    requires |header| == BLOCK
  {
    header[154] == NUL && header[155] == SPACE && IsOctal(header[148..154])
  }

  /** The checksum field counts as eight spaces in its own sum. */
  predicate ChecksumMatches(header: bytes)
    requires |header| == BLOCK && ChecksumWellFormed(header)
  {
    OctalValue(header[148..154]) == Sum(header[..148]) + 8 * SPACE as nat + Sum(header[156..])
  }

  // ---- names ----

  function UpToNul(s: bytes): bytes {
    if s == [] || s[0] == NUL then [] else [s[0]] + UpToNul(s[1..])
  }

  predicate EndsBadly(part: bytes) {
    part != [] && (part[|part| - 1] == DOT || part[|part| - 1] == SPACE)
  }

  /** Some slash-separated part of `s`, the first one continuing `part`, ends in a dot or space. */
  predicate HasBadPart(s: bytes, part: bytes)
    decreases |s|
  {
    if s == [] then EndsBadly(part)
    else if s[0] == SLASH then EndsBadly(part) || HasBadPart(s[1..], [])
    else HasBadPart(s[1..], part + [s[0]])
  }

  predicate PolicyAllows(name: bytes, directory: bool) {
    var candidate := if directory && name != [] && name[|name| - 1] == SLASH then name[..|name| - 1] else name;
    && BACKSLASH !in candidate
    && (forall i :: 0 <= i < |candidate| ==> candidate[i] >= 0x20 && candidate[i] != 0x7F)
    && !HasBadPart(candidate, [])
    && !P.HasForbiddenWord(candidate)
    && !(exists at :: 0 <= at <= |candidate| && P.HomePathAt(candidate, at))
  }

  predicate NameAllowed(name: bytes, directory: bool) {
    name != [] && Unicode.ValidUtf8(name) && PolicyAllows(name, directory)
  }

  // ---- the extension record ----

  /** path= */
  function PathKey(): bytes {
    [112, 97, 116, 104, 61]
  }

  predicate IsDecimal(s: bytes) {
    s != [] && forall i :: 0 <= i < |s| ==> IsDigit(s[i])
  }

  function DecimalValue(s: bytes): nat
    requires forall i :: 0 <= i < |s| ==> IsDigit(s[i])
  {
    if s == [] then 0
    else
      assert IsDigit(s[|s| - 1]);
      DecimalValue(s[..|s| - 1]) * 10 + (s[|s| - 1] as int - 48)
  }

  function FindSpace(s: bytes): (at: int)
    ensures at == -1 || (0 <= at < |s| && s[at] == SPACE)
    ensures forall i :: 0 <= i < (if at == -1 then |s| else at) ==> s[i] != SPACE
  {
    if s == [] then -1
    else if s[0] == SPACE then 0
    else
      var rest := FindSpace(s[1..]);
      if rest == -1 then -1
      else
        assert forall i :: 1 <= i < |s| ==> s[i] == s[1..][i - 1];
        rest + 1
  }

  predicate PaxPathAllowed(path: bytes) {
    && path != [] && |path| <= MAX_NAME_BYTES + 1 && NUL !in path && CR !in path
    && Unicode.ValidUtf8(path) && PolicyAllows(path, path[|path| - 1] == SLASH)
  }

  /** One record `length path=value newline`, whose length field counts the whole record. */
  predicate PaxAllowed(payload: bytes) {
    var separator := FindSpace(payload);
    && separator > 0
    && IsDecimal(payload[..separator]) && separator <= 5 && payload[0] != 48
    && DecimalValue(payload[..separator]) == |payload|
    && payload[|payload| - 1] == LF && LF !in payload[..|payload| - 1]
    && separator + 1 + |PathKey()| <= |payload| - 1
    && OccursAt(payload, separator + 1, PathKey())
    && PaxPathAllowed(payload[separator + 1 + |PathKey()|..|payload| - 1])
  }

  // ---- sizes ----

  function Padded(size: nat): (n: nat)
    ensures n >= size && n % BLOCK == 0 && n < size + BLOCK
  {
    (size + BLOCK - 1) / BLOCK * BLOCK
  }

  function CanonicalStreamSize(archiveEnd: nat): (n: nat)
    ensures n >= archiveEnd + 2 * BLOCK && n % RECORD == 0 && n < archiveEnd + 2 * BLOCK + RECORD
  {
    (archiveEnd + 2 * BLOCK + RECORD - 1) / RECORD * RECORD
  }
}
