/**
 * Fixed byte patterns searched for in archive members. Each is a predicate at one start offset,
 * so that what a search over a window can and cannot see is a statement about offsets.
 */
module PayloadPatterns {
  import opened Wrappers
  import opened Bytes

  // ---- forbidden names, in any case ----

  function LowerByte(b: byte): byte {
    if 65 <= b <= 90 then b + 32 else b
  }

  function Lower(s: bytes): (r: bytes)
    ensures |r| == |s| && forall i :: 0 <= i < |s| ==> r[i] == LowerByte(s[i])
  {
    seq(|s|, i requires 0 <= i < |s| => LowerByte(s[i]))
  }

  /** Two application source trees' names, and two package roots with dots or slashes. */
  function ForbiddenWords(): seq<bytes> {
    [
      [84, 77, 101, 115, 115, 97, 103, 101, 115, 80, 114, 111, 106],
      [99, 111, 109, 46, 101, 120, 116, 101, 114, 97, 103, 114, 97, 109],
      [111, 114, 103, 46, 116, 101, 108, 101, 103, 114, 97, 109],
      [99, 111, 109, 47, 101, 120, 116, 101, 114, 97, 103, 114, 97, 109],
      [111, 114, 103, 47, 116, 101, 108, 101, 103, 114, 97, 109]
    ]
  }

  const OVERLAP: nat := 256

  predicate Contains(s: bytes, word: bytes) {
    exists at :: 0 <= at <= |s| - |word| && OccursAt(s, at, word)
  }

  /** One of the forbidden names occurs, whatever its case. */
  predicate HasForbiddenWord(data: bytes) {
    exists i :: 0 <= i < |ForbiddenWords()| && Contains(Lower(data), Lower(ForbiddenWords()[i]))
  }

  // ---- paths of a local host ----

  datatype HomePattern = UnixHome | MacHome | WindowsHome | HostDirectory

  function HomePatterns(): seq<HomePattern> {
    [UnixHome, MacHome, WindowsHome, HostDirectory]
  }

  predicate IsWord(b: byte) {
    IsLetter(b) || IsDigit(b) || b == UNDERSCORE
  }

  /** Nothing, or no word byte, stands just before the start. */
  predicate LeftClear(data: bytes, at: nat)
    requires at <= |data|
  {
    at == 0 || !IsWord(data[at - 1])
  }

  /** The word is followed by a slash, by another non-word byte, or by the end. */
  predicate WholeWordAt(data: bytes, at: nat, word: bytes) {
    OccursAt(data, at, word) && (at + |word| == |data| || !IsWord(data[at + |word|]))
  }

  /** /home/ */
  function HomeWord(): bytes {
    [47, 104, 111, 109, 101, 47]
  }

  /** /root/ */
  function RootWord(): bytes {
    [47, 114, 111, 111, 116, 47]
  }

  /** /Users/ */
  function UsersWord(): bytes {
    [47, 85, 115, 101, 114, 115, 47]
  }

  /** users */
  function UsersName(): bytes {
    [117, 115, 101, 114, 115]
  }

  /** /private/tmp */
  function PrivateTmp(): bytes {
    [47, 112, 114, 105, 118, 97, 116, 101, 47, 116, 109, 112]
  }

  /** /private/var/folders */
  function VarFolders(): bytes {
    [47, 112, 114, 105, 118, 97, 116, 101, 47, 118, 97, 114, 47, 102, 111, 108, 100, 101, 114, 115]
  }

  /** /opt/homebrew */
  function Homebrew(): bytes {
    [47, 111, 112, 116, 47, 104, 111, 109, 101, 98, 114, 101, 119]
  }

  predicate MatchesAt(p: HomePattern, data: bytes, at: nat)
    requires at <= |data|
  {
    LeftClear(data, at) &&
    match p
    case UnixHome => OccursAt(data, at, HomeWord()) || OccursAt(data, at, RootWord())
    case MacHome => OccursAt(data, at, UsersWord())
    case WindowsHome =>
      && at + 9 <= |data| && IsLetter(data[at]) && data[at + 1] == COLON && data[at + 2] == BACKSLASH
      && Lower(data[at + 3..at + 8]) == UsersName() && data[at + 8] == BACKSLASH
    case HostDirectory =>
      WholeWordAt(data, at, PrivateTmp()) || WholeWordAt(data, at, VarFolders()) || WholeWordAt(data, at, Homebrew())
  }

  predicate HomePathAt(data: bytes, at: nat)
    requires at <= |data|
  {
    exists i :: 0 <= i < |HomePatterns()| && MatchesAt(HomePatterns()[i], data, at)
  }

  ghost predicate HasHomePath(data: bytes, from: nat, limit: int) {
    exists at :: from <= at < limit && at <= |data| && HomePathAt(data, at)
  }

  /** The regular-expression search: the leftmost match that starts at or after `position`. */
  method Search(p: HomePattern, data: bytes, position: nat) returns (found: Option<nat>)
    ensures found.None? ==> forall at :: position <= at <= |data| ==> !MatchesAt(p, data, at)
    ensures found.Some? ==>
      position <= found.value <= |data| && MatchesAt(p, data, found.value) &&
      forall at :: position <= at < found.value ==> !MatchesAt(p, data, at)
  {
    var at := position;
    while at <= |data|
      invariant position <= at
      invariant forall k :: position <= k < at && k <= |data| ==> !MatchesAt(p, data, k)
    {
      if MatchesAt(p, data, at) {
        return Some(at);
      }
      at := at + 1;
    }
    return None;
  }

  method ContainsLocalHostPathBefore(data: bytes, startLimit: int, minimumStart: nat) returns (found: bool)
    ensures found <==> HasHomePath(data, minimumStart, startLimit)
  {
    if startLimit <= 0 {
      return false;
    }
    for i := 0 to |HomePatterns()|
      invariant forall k, at :: 0 <= k < i && minimumStart <= at < startLimit && at <= |data| ==>
        !MatchesAt(HomePatterns()[k], data, at)
    {
      var position := 0;
      while position < startLimit
        invariant 0 <= position
        invariant forall at :: minimumStart <= at < position && at < startLimit && at <= |data| ==>
          !MatchesAt(HomePatterns()[i], data, at)
      {
        var m := Search(HomePatterns()[i], data, position);
        if m.None? || m.value >= startLimit {
          break;
        }
        if m.value >= minimumStart {
          assert HomePathAt(data, m.value);
          return true;
        }
        position := m.value + 1;
      }
    }
    return false;
  }

  /**
   * A window shows a match exactly as the whole payload does, when the byte before the start is in
   * the window or does not exist, and OVERLAP bytes after the start are, or the payload ends.
   */
  lemma HomePathLocal(data: bytes, lo: nat, hi: nat, at: nat)
    requires lo <= at <= hi <= |data|
    requires at == lo ==> lo == 0
    requires hi == |data| || at + OVERLAP < hi
    ensures HomePathAt(data, at) <==> HomePathAt(data[lo..hi], at - lo)
  {
    forall i | 0 <= i < |HomePatterns()|
      ensures MatchesAt(HomePatterns()[i], data, at) <==> MatchesAt(HomePatterns()[i], data[lo..hi], at - lo)
    {
      PatternLocal(HomePatterns()[i], data, lo, hi, at);
    }
  }

  lemma SubSlice(s: bytes, lo: nat, hi: nat, i: nat, j: nat)
    requires lo <= hi <= |s| && i <= j <= hi - lo
    ensures s[lo..hi][i..j] == s[lo + i..lo + j]
  {
    var a, b := s[lo..hi][i..j], s[lo + i..lo + j];
    forall k | 0 <= k < |a|
      ensures a[k] == b[k]
    {
      assert a[k] == s[lo..hi][i + k] == s[lo + (i + k)];
    }
  }

  lemma OccursLocal(word: bytes, data: bytes, lo: nat, hi: nat, at: nat)
    requires lo <= at <= hi <= |data|
    requires hi == |data| || at + |word| <= hi
    ensures OccursAt(data, at, word) <==> OccursAt(data[lo..hi], at - lo, word)
  {
    if at + |word| <= hi {
      SubSlice(data, lo, hi, at - lo, at - lo + |word|);
    }
  }

  lemma WholeWordLocal(word: bytes, data: bytes, lo: nat, hi: nat, at: nat)
    requires lo <= at <= hi <= |data|
    requires hi == |data| || at + |word| < hi
    ensures WholeWordAt(data, at, word) <==> WholeWordAt(data[lo..hi], at - lo, word)
  {
    OccursLocal(word, data, lo, hi, at);
  }

  lemma PatternLocal(p: HomePattern, data: bytes, lo: nat, hi: nat, at: nat)
    requires lo <= at <= hi <= |data|
    requires at == lo ==> lo == 0
    requires hi == |data| || at + OVERLAP < hi
    ensures MatchesAt(p, data, at) <==> MatchesAt(p, data[lo..hi], at - lo)
  {
    var window := data[lo..hi];
    match p
    case UnixHome =>
      OccursLocal(HomeWord(), data, lo, hi, at);
      OccursLocal(RootWord(), data, lo, hi, at);
    case MacHome => OccursLocal(UsersWord(), data, lo, hi, at);
    case WindowsHome =>
      if at + 9 <= hi {
        SubSlice(data, lo, hi, at - lo + 3, at - lo + 8);
      }
    case HostDirectory =>
      WholeWordLocal(PrivateTmp(), data, lo, hi, at);
      WholeWordLocal(VarFolders(), data, lo, hi, at);
      WholeWordLocal(Homebrew(), data, lo, hi, at);
  }

  // ---- magic numbers and the outer marks of a PDF ----

  function BinaryMagics(): seq<bytes> {
    [
      [127, 69, 76, 70],
      [77, 90],
      [254, 237, 250, 206],
      [206, 250, 237, 254],
      [254, 237, 250, 207],
      [207, 250, 237, 254],
      [202, 254, 186, 190],
      [190, 186, 254, 202],
      [202, 254, 186, 191],
      [191, 186, 254, 202],
      [33, 60, 97, 114, 99, 104, 62, 10],
      [0, 97, 115, 109],
      [80, 75, 3, 4],
      [80, 75, 5, 6],
      [80, 75, 7, 8],
      [31, 139],
      [66, 90, 104],
      [253, 55, 122, 88, 90, 0],
      [40, 181, 47, 253],
      [55, 122, 188, 175, 39, 28],
      [82, 97, 114, 33, 26, 7, 0],
      [82, 97, 114, 33, 26, 7, 1, 0],
      [100, 101, 120, 10]
    ]
  }

  /** ustar and a NUL */
  function UstarNul(): bytes {
    [117, 115, 116, 97, 114, 0]
  }

  /** ustar and a space */
  function UstarSpace(): bytes {
    [117, 115, 116, 97, 114, 32]
  }

  /** version https://git-lfs.github.com/spec/v1 */
  function LfsHeader(): bytes {
    [118, 101, 114, 115, 105, 111, 110, 32, 104, 116, 116, 112, 115, 58, 47, 47,
     103, 105, 116, 45, 108, 102, 115, 46, 103, 105, 116, 104, 117, 98, 46, 99, 111, 109, 47, 115, 112, 101, 99, 47,
     118, 49]
  }

  predicate HasForbiddenBinaryMagic(data: bytes) {
    || (exists i :: 0 <= i < |BinaryMagics()| && BinaryMagics()[i] <= data)
    || (|data| >= 263 && data[257..263] in [UstarNul(), UstarSpace()])
    || (|data| >= 4 && 0x50 <= data[0] <= 0x5F && data[1..4] == [0x2A, 0x4D, 0x18])
  }

  const HEADER_BYTES: nat := 8
  const HEADER_WINDOW: nat := 1024
  const TRAILER_WINDOW: nat := 1024
  const MAGIC_PROBE: nat := HEADER_WINDOW + HEADER_BYTES - 1

  /** %PDF- */
  function PdfDash(): bytes {
    [37, 80, 68, 70, 45]
  }

  /** %%EOF */
  function EofMark(): bytes {
    [37, 37, 69, 79, 70]
  }

  predicate HeaderAt(s: bytes, at: nat) {
    && at + HEADER_BYTES <= |s| && OccursAt(s, at, PdfDash())
    && IsDigit(s[at + 5]) && s[at + 6] == DOT && IsDigit(s[at + 7])
  }

  /** The leftmost header at or after `from`. */
  function HeaderFrom(s: bytes, from: nat): (h: Option<nat>)
    ensures h.Some? ==> from <= h.value && h.value + HEADER_BYTES <= |s| && HeaderAt(s, h.value)
    ensures h.Some? ==> forall k :: from <= k < h.value ==> !HeaderAt(s, k)
    ensures h.None? ==> forall k :: from <= k ==> !HeaderAt(s, k)
    decreases |s| - from
  {
    if from + HEADER_BYTES > |s| then None
    else if HeaderAt(s, from) then Some(from)
    else HeaderFrom(s, from + 1)
  }

  predicate IsPadding(b: byte) {
    b == NUL || b == TAB || b == FF || b == SPACE
  }

  predicate Padding(s: bytes, i: nat, j: nat) {
    i <= j <= |s| && forall k :: i <= k < j ==> IsPadding(s[k])
  }

  predicate EndsRow(b: byte) {
    b == CR || b == LF || b == FF
  }

  /** An end-of-file mark alone on its line, padding aside. */
  predicate HasEofMark(s: bytes) {
    exists i: nat, j: nat, m: nat ::
      && i <= j <= |s| && j <= m <= |s|
      && (i == 0 || EndsRow(s[i - 1])) && Padding(s, i, j)
      && OccursAt(s, j, EofMark()) && j + |EofMark()| <= m
      && Padding(s, j + |EofMark()|, m) && (m == |s| || EndsRow(s[m]))
  }
}
