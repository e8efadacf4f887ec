/** Release tags that carry a wrapper revision in decimal. */
module ReleaseTags {
  import opened Wrappers

  predicate IsDigit(c: char) {
    '0' <= c <= '9'
  }

  function DigitValue(c: char): (v: nat)
    requires IsDigit(c)
    ensures v <= 9
  {
    c as int - '0' as int
  }

  function Digit(v: nat): (c: char)
    requires v <= 9
    ensures IsDigit(c) && DigitValue(c) == v
  {
    ('0' as int + v) as char
  }

  predicate AllDigits(s: string) {
    forall i :: 0 <= i < |s| ==> IsDigit(s[i])
  }

  function Value(s: string): nat
    requires AllDigits(s)
  {
    if s == "" then 0 else Value(s[..|s| - 1]) * 10 + DigitValue(s[|s| - 1])
  }

  function Decimal(n: nat): (s: string)
    ensures AllDigits(s) && s != ""
  {
    if n <= 9 then [Digit(n)] else Decimal(n / 10) + [Digit(n % 10)]
  }

  lemma {:induction false} DecimalReads(n: nat)
    ensures Value(Decimal(n)) == n
    ensures n > 0 ==> Decimal(n)[0] != '0'
  {
    if n <= 9 {
      assert Decimal(n)[..0] == "";
    } else {
      DecimalReads(n / 10);
      assert Decimal(n)[..|Decimal(n)| - 1] == Decimal(n / 10);
    }
  }

  /** A revision tag is the prefix followed by a decimal number without leading zeros. */
  function Revision(prefix: string, tag: string): Option<nat> {
    if prefix <= tag && |tag| > |prefix| && AllDigits(tag[|prefix|..]) && tag[|prefix|] != '0'
    then Some(Value(tag[|prefix|..]))
    else None
  }

  function RevisionTag(prefix: string, revision: nat): string {
    prefix + Decimal(revision)
  }

  /** Reading a written tag gives its revision back, so different revisions never share a tag. */
  lemma TagReads(prefix: string, revision: nat)
    requires revision > 0
    ensures Revision(prefix, RevisionTag(prefix, revision)) == Some(revision)
  {
    DecimalReads(revision);
    assert RevisionTag(prefix, revision)[|prefix|..] == Decimal(revision);
  }

  lemma {:induction false} ValueWrites(s: string)
    requires AllDigits(s) && s != "" && s[0] != '0'
    ensures Value(s) > 0 && Decimal(Value(s)) == s
  {
    var n := |s| - 1;
    if n == 0 {
      assert s == [s[0]];
      assert Value(s[..0]) == 0;
    } else {
      ValueWrites(s[..n]);
      assert s == s[..n] + [s[n]];
    }
  }

  /** Writing a read revision gives the tag back: equal revisions mean equal tags. */
  lemma TagWrites(prefix: string, tag: string)
    requires Revision(prefix, tag).Some?
    ensures Revision(prefix, tag).value > 0
    ensures RevisionTag(prefix, Revision(prefix, tag).value) == tag
  {
    ValueWrites(tag[|prefix|..]);
    assert tag == prefix + tag[|prefix|..];
  }
}
