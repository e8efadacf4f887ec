/** Refusing to publish an upstream version below one that is already public. */
module UpstreamGuard {
  import opened Wrappers
  import opened ReleaseDrafts
  import opened ReleaseTags

  datatype Version = Version(major: nat, minor: nat, patch: nat)

  /** A published tag: its upstream version, and its wrapper revision or 0. */
  datatype Candidate = Candidate(version: Version, wrapper: nat)

  datatype GuardError = InvalidFamily | InvalidTag | MalformedTag | Downgrade

  predicate Below(a: Version, b: Version) {
    || a.major < b.major
    || (a.major == b.major && a.minor < b.minor)
    || (a.major == b.major && a.minor == b.minor && a.patch < b.patch)
  }

  predicate Higher(a: Candidate, b: Candidate) {
    Below(b.version, a.version) || (a.version == b.version && b.wrapper < a.wrapper)
  }

  // ----- Reading tags --------------------------------------------------------------------

  function FamilyPrefix(family: string): Option<string> {
    if family == "sing_box" then Some("sb") else if family == "xray" then Some("xray") else None
  }

  function DigitCount(s: string): (n: nat)
    ensures n <= |s| && AllDigits(s[..n]) && (n < |s| ==> !IsDigit(s[n]))
  {
    if s == "" || !IsDigit(s[0]) then 0
    else
      var n := DigitCount(s[1..]);
      assert s[..n + 1] == [s[0]] + s[1..][..n];
      n + 1
  }

  /** One or more digits. */
  function ReadNumber(s: string): Option<(nat, string)> {
    var n := DigitCount(s);
    if n == 0 then None else Some((Value(s[..n]), s[n..]))
  }

  /** A number behind a dot. */
  function ReadDotted(s: string): Option<(nat, string)> {
    if s != "" && s[0] == '.' then ReadNumber(s[1..]) else None
  }

  function ReadVersion(s: string): Option<(Version, string)> {
    match ReadNumber(s)
    case None => None
    case Some((major, more)) =>
      match ReadDotted(more)
      case None => None
      case Some((minor, last)) =>
        match ReadDotted(last)
        case None => None
        case Some((patch, rest)) => Some((Version(major, minor, patch), rest))
  }

  function ReadTarget(tag: string): Option<Version> {
    if tag == "" || tag[0] != 'v' then None
    else
      match ReadVersion(tag[1..])
      case None => None
      case Some((version, rest)) => if rest == "" then Some(version) else None
  }

  /** The version behind the lead, and a wrapper revision if there is one. */
  function ReadPublished(lead: string, tag: string): Option<Candidate> {
    if !(lead <= tag) then None
    else
      match ReadVersion(tag[|lead|..])
      case None => None
      case Some((version, rest)) =>
        if rest == "" then Some(Candidate(version, 0))
        else
          match Revision("-w", rest)
          case None => None
          case Some(wrapper) => Some(Candidate(version, wrapper))
  }

  // ----- Written tags are read back ------------------------------------------------------

  function VersionText(v: Version): string {
    Decimal(v.major) + "." + Decimal(v.minor) + "." + Decimal(v.patch)
  }

  predicate EndsNumber(rest: string) {
    rest == "" || !IsDigit(rest[0])
  }

  lemma {:induction false} DigitsCounted(digits: string, rest: string)
    requires AllDigits(digits) && EndsNumber(rest)
    ensures DigitCount(digits + rest) == |digits|
  {
    if digits == "" {
      assert digits + rest == rest;
    } else {
      assert (digits + rest)[1..] == digits[1..] + rest;
      DigitsCounted(digits[1..], rest);
    }
  }

  lemma NumberReads(n: nat, rest: string)
    requires EndsNumber(rest)
    ensures ReadNumber(Decimal(n) + rest) == Some((n, rest))
    ensures ReadDotted("." + (Decimal(n) + rest)) == Some((n, rest))
  {
    hide Decimal, Value, DigitCount;
    DigitsCounted(Decimal(n), rest);
    DecimalReads(n);
    assert (Decimal(n) + rest)[..|Decimal(n)|] == Decimal(n);
    assert (Decimal(n) + rest)[|Decimal(n)|..] == rest;
    assert ("." + (Decimal(n) + rest))[1..] == Decimal(n) + rest;
  }

  lemma VersionReads(v: Version, rest: string)
    requires EndsNumber(rest)
    ensures ReadVersion(VersionText(v) + rest) == Some((v, rest))
  {
    hide Decimal, ReadNumber, ReadDotted;
    var last := "." + (Decimal(v.patch) + rest);
    var more := "." + (Decimal(v.minor) + last);
    assert VersionText(v) + rest == Decimal(v.major) + more;
    NumberReads(v.major, more);
    NumberReads(v.minor, last);
    NumberReads(v.patch, rest);
  }

  /** Every version and every revision can be written as a tag that is read as just that. */
  lemma PublishedReads(lead: string, c: Candidate)
    ensures
      var tag := lead + (VersionText(c.version) + if c.wrapper == 0 then "" else RevisionTag("-w", c.wrapper));
      ReadPublished(lead, tag) == Some(c)
    ensures ReadTarget("v" + VersionText(c.version)) == Some(c.version)
  {
    hide VersionText, ReadVersion, Revision, Decimal;
    var rest := if c.wrapper == 0 then "" else RevisionTag("-w", c.wrapper);
    var text := VersionText(c.version);
    VersionReads(c.version, rest);
    VersionReads(c.version, "");
    assert (lead + (text + rest))[|lead|..] == text + rest;
    assert ("v" + text)[1..] == text + "";
    if c.wrapper > 0 {
      TagReads("-w", c.wrapper);
    }
  }

  // ----- The guard -----------------------------------------------------------------------

  predicate Relevant(lead: string, release: Release) {
    release.draft == Some(false) && release.tag.Some? && lead <= release.tag.value
  }

  /** A published tag of the family parses and is not above the target. */
  predicate Bounded(lead: string, release: Release, target: Version) {
    Relevant(lead, release) ==>
      var c := ReadPublished(lead, release.tag.value);
      c.Some? && !Below(target, c.value.version)
  }

  ghost predicate Parses(lead: string, releases: seq<Release>) {
    forall r :: r in releases && Relevant(lead, r) ==> ReadPublished(lead, r.tag.value).Some?
  }

  /** Comparing with the highest candidate only is comparing with every published tag. */
  method EnsureNotDowngrade(releases: seq<Release>, family: string, upstreamTag: string)
    returns (problem: Option<GuardError>)
    ensures problem == Some(InvalidFamily) <==> FamilyPrefix(family).None?
    ensures FamilyPrefix(family).Some? ==>
      var lead, target := FamilyPrefix(family).value + "-v", ReadTarget(upstreamTag);
      && (problem == Some(InvalidTag) <==> target.None?)
      && (problem == Some(MalformedTag) <==> target.Some? && !Parses(lead, releases))
      && (problem == None <==> target.Some? && forall r :: r in releases ==> Bounded(lead, r, target.value))
  {
    hide ReadPublished, ReadTarget;
    var prefix := FamilyPrefix(family);
    if prefix.None? {
      return Some(InvalidFamily);
    }
    var target := ReadTarget(upstreamTag);
    if target.None? {
      return Some(InvalidTag);
    }
    var lead := prefix.value + "-v";
    var highest: Option<Candidate> := None;
    for i := 0 to |releases|
      invariant forall k :: 0 <= k < i && Relevant(lead, releases[k]) ==>
        var c := ReadPublished(lead, releases[k].tag.value);
        c.Some? && highest.Some? && !Below(highest.value.version, c.value.version)
      invariant highest.Some? ==>
        exists k :: 0 <= k < i && Relevant(lead, releases[k]) && ReadPublished(lead, releases[k].tag.value) == highest
    {
      if Relevant(lead, releases[i]) {
        var candidate := ReadPublished(lead, releases[i].tag.value);
        if candidate.None? {
          assert !Bounded(lead, releases[i], target.value);
          return Some(MalformedTag);
        }
        if highest.None? || Higher(candidate.value, highest.value) {
          highest := candidate;
        }
      }
    }
    assert Parses(lead, releases);
    if highest.Some? && Below(target.value, highest.value.version) {
      var k :| 0 <= k < |releases| && Relevant(lead, releases[k]) &&
        ReadPublished(lead, releases[k].tag.value) == highest;
      assert !Bounded(lead, releases[k], target.value);
      return Some(Downgrade);
    }
    return None;
  }
}
