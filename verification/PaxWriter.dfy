/** Writing the extended header record of a path, whose length field counts the whole record. */
module PaxWriter {
  import opened Bytes
  import opened TarHeader
  import Unicode

  // ----- Decimal numbers -----------------------------------------------------------------

  function DecimalText(n: nat): (s: bytes)
    ensures IsDecimal(s)
  {
    if n < 10 then [48 + n] else DecimalText(n / 10) + [48 + n % 10]
  }

  lemma {:induction false} DecimalTextReads(n: nat)
    ensures DecimalValue(DecimalText(n)) == n
    ensures n > 0 ==> DecimalText(n)[0] != 48
  {
    if n < 10 {
      assert DecimalText(n)[..0] == [];
    } else {
      DecimalTextReads(n / 10);
      assert DecimalText(n)[..|DecimalText(n)| - 1] == DecimalText(n / 10);
    }
  }

  /** Without a leading zero a number is written in one way. */
  lemma {:induction false} DecimalUnique(digits: bytes)
    requires IsDecimal(digits) && digits[0] != 48
    ensures DecimalText(DecimalValue(digits)) == digits && DecimalValue(digits) > 0
  {
    var front, last := digits[..|digits| - 1], digits[|digits| - 1];
    assert IsDigit(last) && DecimalValue(digits) == DecimalValue(front) * 10 + (last - 48);
    if |digits| == 1 {
      assert front == [] && digits == [last];
    } else {
      DecimalUnique(front);
      assert digits == front + [last];
    }
  }

  lemma {:induction false} DecimalTextGrows(a: nat, b: nat)
    requires a <= b
    ensures |DecimalText(a)| <= |DecimalText(b)| <= 1 + b / 10
  {
    if b >= 10 {
      DecimalTextGrows(if a >= 10 then a / 10 else 0, b / 10);
    }
  }

  lemma FourDigits(n: nat)
    requires n < 10000
    ensures |DecimalText(n)| <= 4
  {
    DecimalTextGrows(n, 9999);
    assert |DecimalText(9)| == 1;
    assert |DecimalText(99)| == 2;
    assert |DecimalText(999)| == 3;
    assert |DecimalText(9999)| == 4;
  }

  // ----- The length field ----------------------------------------------------------------

  /**
   * The length that counts its own digits, found as writers find it: starting from `guess`,
   * take the length with the digits of the last guess until nothing changes.
   */
  function SelfCounting(rest: nat, guess: nat): (n: nat)
    requires rest > 0 && guess <= rest + |DecimalText(guess)| && guess <= 2 * rest + 2
    ensures n == rest + |DecimalText(n)| && n <= 2 * rest + 2
    decreases 2 * rest + 2 - guess
  {
    var next := rest + |DecimalText(guess)|;
    DecimalTextGrows(guess, next);
    DecimalTextGrows(guess, guess);
    if next == guess then guess else SelfCounting(rest, next)
  }

  /** Space, key, path and line feed. */
  function AfterLength(path: bytes): (s: bytes)
    ensures |s| == |path| + 7
  {
    [SPACE] + PathKey() + path + [LF]
  }

  /** A record of the path that counts itself. */
  predicate IsRecordOf(record: bytes, path: bytes) {
    record == DecimalText(|record|) + AfterLength(path)
  }

  function WriteRecord(path: bytes): (record: bytes)
    ensures IsRecordOf(record, path)
  {
    var n := SelfCounting(|path| + 7, 0);
    DecimalText(n) + AfterLength(path)
  }

  // ----- Reading it back -----------------------------------------------------------------

  lemma {:induction false} FindSpaceAfter(digits: bytes, rest: bytes)
    requires SPACE !in digits && rest != [] && rest[0] == SPACE
    ensures FindSpace(digits + rest) == |digits|
  {
    if digits == [] {
      assert digits + rest == rest;
    } else {
      assert (digits + rest)[1..] == digits[1..] + rest;
      FindSpaceAfter(digits[1..], rest);
    }
  }

  lemma LineParts(digits: bytes, key: bytes, path: bytes)
    ensures
      var line, n := digits + ([SPACE] + key + path + [LF]), |digits|;
      && |line| == n + |key| + |path| + 2 && line[..n] == digits && line[n] == SPACE
      && line[n + 1..n + 1 + |key|] == key && line[n + 1 + |key|..|line| - 1] == path
      && line[|line| - 1] == LF && line[..|line| - 1] == digits + [SPACE] + key + path
  {
    var line, n := digits + ([SPACE] + key + path + [LF]), |digits|;
    assert line == digits + [SPACE] + key + path + [LF];
    assert line[n + 1..n + 1 + |key|] == key;
    assert line[n + 1 + |key|..|line| - 1] == path;
  }

  /** Where the parts of a record stand. */
  lemma RecordParts(record: bytes, path: bytes)
    requires IsRecordOf(record, path)
    ensures
      var digits := DecimalText(|record|);
      && FindSpace(record) == |digits| && record[..|digits|] == digits
      && OccursAt(record, |digits| + 1, PathKey()) && record[|record| - 1] == LF
      && record[..|record| - 1] == digits + [SPACE] + PathKey() + path
      && record[|digits| + 1 + |PathKey()|..|record| - 1] == path
  {
    var digits := DecimalText(|record|);
    assert record == digits + AfterLength(path);
    assert AfterLength(path) == [SPACE] + PathKey() + path + [LF];
    hide IsRecordOf, DecimalText, FindSpace, AfterLength, PathKey;
    FindSpaceAfter(digits, AfterLength(path));
    LineParts(digits, PathKey(), path);
  }

  /** The length field of a record is the one the scan wants. */
  lemma LengthField(record: bytes, path: bytes)
    requires IsRecordOf(record, path) && |path| <= MAX_NAME_BYTES + 1
    ensures
      var digits := DecimalText(|record|);
      |digits| <= 4 && digits[0] != 48 && DecimalValue(digits) == |record| <= MAX_PAX_BYTES
  {
    var n := |record|;
    DecimalTextGrows(n, n);
    FourDigits(n);
    DecimalTextReads(n);
  }

  /** A control character in a path is refused, so an allowed path never adds a line feed. */
  lemma NoLineFeed(path: bytes)
    requires path != [] && PolicyAllows(path, path[|path| - 1] == SLASH)
    ensures LF !in path
  {
    assert PolicyAllows(path, path[|path| - 1] == SLASH);
    var candidate := if path[|path| - 1] == SLASH then path[..|path| - 1] else path;
    assert forall i :: 0 <= i < |candidate| ==> candidate[i] >= 0x20;
    forall i | 0 <= i < |path| ensures path[i] != LF {
      assert i < |candidate| ==> path[i] == candidate[i];
    }
  }

  /** A record of a path is accepted exactly when the path is, and it always fits. */
  lemma RecordAllowed(record: bytes, path: bytes)
    requires IsRecordOf(record, path)
    ensures PaxAllowed(record) <==> PaxPathAllowed(path)
    ensures PaxPathAllowed(path) ==> |record| <= MAX_PAX_BYTES
  {
    hide PolicyAllows, Unicode.ValidUtf8, DecimalValue, FindSpace, IsRecordOf, DecimalText;
    var digits := DecimalText(|record|);
    RecordParts(record, path);
    if PaxPathAllowed(path) {
      LengthField(record, path);
      NoLineFeed(path);
      assert record[0] == record[..|digits|][0];
      assert LF !in digits + [SPACE] + PathKey() + path;
    }
  }

  /** What is accepted is exactly the self-counting record of an allowed path. */
  lemma PaxExact(payload: bytes)
    ensures PaxAllowed(payload) <==> exists path :: PaxPathAllowed(path) && IsRecordOf(payload, path)
    ensures PaxAllowed(payload) ==> payload != []
  {
    hide PaxPathAllowed, DecimalValue, FindSpace, DecimalText;
    if PaxAllowed(payload) {
      var at := FindSpace(payload);
      var digits, path := payload[..at], payload[at + 1 + |PathKey()|..|payload| - 1];
      assert digits[0] == payload[0];
      DecimalUnique(digits);
      assert payload[at + 1..at + 1 + |PathKey()|] == PathKey();
      assert payload == digits + AfterLength(path);
      assert IsRecordOf(payload, path);
    }
    if path :| PaxPathAllowed(path) && IsRecordOf(payload, path) {
      RecordAllowed(payload, path);
    }
  }
}
