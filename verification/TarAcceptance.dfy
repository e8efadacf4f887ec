/** What the raw scan accepts, said without the scan: a condition on the bytes of the stream. */
module TarAcceptance {
  import opened Wrappers
  import opened Bytes
  import opened TarHeader
  import opened TarStream
  import opened PaxWriter

  // ----- Tiles ---------------------------------------------------------------------------

  /** A block starts with a well-formed header whose size field says where the next one starts. */
  ghost predicate BlockAt(stream: bytes, start: nat, next: nat) {
    && start + BLOCK <= next <= |stream|
    && var header := stream[start..start + BLOCK];
       && !AllZero(header)
       && ChecksumWellFormed(header) && ChecksumMatches(header)
       && ParseSize(header).Some?
       && next == start + BLOCK + Padded(ParseSize(header).value)
  }

  /** Consecutive blocks that fill the stream from `from` to `end`. */
  ghost predicate Tiles(stream: bytes, starts: seq<nat>, from: nat, end: nat) {
    if starts == [] then from == end
    else
      var next := if |starts| == 1 then end else starts[1];
      starts[0] == from && BlockAt(stream, from, next) && Tiles(stream, starts[1..], next, end)
  }

  function FlagAt(stream: bytes, start: nat): byte {
    if start + BLOCK <= |stream| then stream[start + 156] else NUL
  }

  function SizeAt(stream: bytes, start: nat): nat {
    if start + BLOCK > |stream| then 0
    else
      match ParseSize(stream[start..start + BLOCK])
      case None => 0
      case Some(size) => size
  }

  function NameAt(stream: bytes, start: nat): bytes {
    if start + BLOCK <= |stream| then UpToNul(stream[start..start + 100]) else []
  }

  // ----- Which tiles are lawful ----------------------------------------------------------

  /** The bytes from `from` to `to`, and nothing when the stream is shorter. */
  function Slice(stream: bytes, from: nat, to: nat): bytes {
    if from <= to <= |stream| then stream[from..to] else []
  }

  /** An extension block holds the record of one allowed path, and zeros after it. */
  ghost predicate PathTile(stream: bytes, start: nat) {
    var first, size := start + BLOCK, SizeAt(stream, start);
    && size <= MAX_PAX_BYTES
    && (exists path :: PaxPathAllowed(path) && IsRecordOf(Slice(stream, first, first + size), path))
    && AllZero(Slice(stream, first + size, first + Padded(size)))
  }

  /** A member block has a supported type, a bounded payload, and an allowed name unless it was named before. */
  predicate MemberTile(stream: bytes, start: nat, named: bool) {
    && IsMember(FlagAt(stream, start)) && SizeAt(stream, start) <= MAX_MEMBER_BYTES
    && (named || NameAllowed(NameAt(stream, start), IsDirectory(FlagAt(stream, start))))
  }

  /** Every path block stands in front of a member block, and nothing else occurs. */
  ghost predicate Lawful(stream: bytes, starts: seq<nat>, named: bool) {
    if starts == [] then !named
    else if FlagAt(stream, starts[0]) == PAX then
      !named && PathTile(stream, starts[0]) && Lawful(stream, starts[1..], true)
    else MemberTile(stream, starts[0], named) && Lawful(stream, starts[1..], false)
  }

  // ----- Totals --------------------------------------------------------------------------

  function OneIf(test: bool): nat {
    if test then 1 else 0
  }

  /** How many of the blocks have a type that passes the test. */
  function CountFlags(stream: bytes, starts: seq<nat>, test: byte -> bool): nat {
    if starts == [] then 0
    else OneIf(test(FlagAt(stream, starts[0]))) + CountFlags(stream, starts[1..], test)
  }

  /** Payload bytes of all the member blocks. */
  function PayloadBytes(stream: bytes, starts: seq<nat>): nat {
    if starts == [] then 0
    else
      var first := if IsMember(FlagAt(stream, starts[0])) then SizeAt(stream, starts[0]) else 0;
      first + PayloadBytes(stream, starts[1..])
  }

  /** The counts after the blocks, if nothing refuses them. */
  function CountsAfter(stream: bytes, starts: seq<nat>, c: Counts): Counts {
    Counts(
      c.members + CountFlags(stream, starts, IsMember),
      c.files + CountFlags(stream, starts, IsRegular),
      c.directories + CountFlags(stream, starts, IsDirectory),
      c.payload + PayloadBytes(stream, starts),
      false)
  }

  predicate WithinLimits(c: Counts) {
    && c.payload <= MAX_EXPANDED_BYTES && c.members <= MAX_MEMBERS
    && c.files <= MAX_FILES && c.directories <= MAX_DIRECTORIES
  }

  // ----- Acceptance ----------------------------------------------------------------------

  /**
   * The archive from `offset` on: lawful tiles up to `end`, totals within the limits, and zeros to
   * the canonical size.
   */
  ghost predicate ArchiveFrom(stream: bytes, starts: seq<nat>, offset: nat, end: nat, c: Counts) {
    && Tiles(stream, starts, offset, end) && Lawful(stream, starts, c.pendingPax)
    && WithinLimits(CountsAfter(stream, starts, c))
    && end <= |stream| == CanonicalStreamSize(end) && AllZero(stream[end..])
  }

  ghost predicate IsArchive(stream: bytes, starts: seq<nat>, end: nat) {
    ArchiveFrom(stream, starts, 0, end, NO_MEMBERS)
  }

  /** The first block of an archive passes the scan's own tests. */
  predicate Passes(stream: bytes, start: nat, c: Counts) {
    var header := Slice(stream, start, start + BLOCK);
    |header| == BLOCK && start + BLOCK + Padded(SizeAt(stream, start)) <= |stream| &&
    if header[156] == PAX then PaxProblem(stream, start, SizeAt(stream, start), c).None?
    else CountMember(header, header[156], SizeAt(stream, start), c).Ok?
  }

  /** The counts after one block that passes. */
  function CountsNext(stream: bytes, start: nat, c: Counts): Counts {
    var flag := FlagAt(stream, start);
    if flag == PAX then c.(pendingPax := true)
    else
      Counts(
        c.members + OneIf(IsMember(flag)),
        c.files + OneIf(IsRegular(flag)),
        c.directories + OneIf(IsDirectory(flag)),
        c.payload + (if IsMember(flag) then SizeAt(stream, start) else 0),
        false)
  }

  /** Blocks are counted one by one. */
  lemma CountsStep(stream: bytes, starts: seq<nat>, c: Counts)
    requires starts != []
    ensures CountsAfter(stream, starts, c) == CountsAfter(stream, starts[1..], CountsNext(stream, starts[0], c))
  {
    hide FlagAt, SizeAt;
  }

  lemma BlockScans(stream: bytes, start: nat, next: nat, c: Counts)
    requires BlockAt(stream, start, next)
    ensures Scan(stream, start, c).Ok? ==> Passes(stream, start, c)
    ensures Passes(stream, start, c) ==> Scan(stream, start, c) == Scan(stream, next, CountsNext(stream, start, c))
  {
    hide PaxProblem, NameAllowed, UpToNul, AllZero, ChecksumMatches, ChecksumWellFormed, ParseSize, CountFlags,
      PayloadBytes;
    assert stream[start..start + BLOCK][156] == FlagAt(stream, start);
  }

  lemma PathTileExact(stream: bytes, start: nat, c: Counts)
    requires start + BLOCK + Padded(SizeAt(stream, start)) <= |stream|
    ensures PaxProblem(stream, start, SizeAt(stream, start), c).None? <==> !c.pendingPax && PathTile(stream, start)
  {
    hide PaxAllowed, PaxPathAllowed, IsRecordOf, AllZero, SizeAt, Padded;
    var first, size := start + BLOCK, SizeAt(stream, start);
    PaxExact(Slice(stream, first, first + size));
  }

  lemma MemberTileExact(stream: bytes, start: nat, c: Counts)
    requires start + BLOCK <= |stream| && WithinLimits(c) && FlagAt(stream, start) != PAX
    ensures
      var header := stream[start..start + BLOCK];
      CountMember(header, header[156], SizeAt(stream, start), c).Ok? <==>
        MemberTile(stream, start, c.pendingPax) && WithinLimits(CountsNext(stream, start, c))
  {
    hide NameAllowed, UpToNul, SizeAt;
    var header := stream[start..start + BLOCK];
    assert header[156] == FlagAt(stream, start);
    assert header[..100] == stream[start..start + 100];
    assert IsDirectory(header[156]) == (header[156] == DIRECTORY);
  }

  /** A block passes exactly when it is lawful and still fits. */
  lemma PassesExact(stream: bytes, start: nat, next: nat, c: Counts)
    requires BlockAt(stream, start, next) && WithinLimits(c)
    ensures Passes(stream, start, c) <==>
      && WithinLimits(CountsNext(stream, start, c))
      && if FlagAt(stream, start) == PAX then !c.pendingPax && PathTile(stream, start)
         else MemberTile(stream, start, c.pendingPax)
  {
    assert stream[start..start + BLOCK][156] == FlagAt(stream, start);
    hide PaxProblem, CountMember, PathTile, MemberTile, AllZero, ChecksumMatches, ChecksumWellFormed, ParseSize,
      FlagAt;
    if FlagAt(stream, start) == PAX {
      PathTileExact(stream, start, c);
    } else {
      MemberTileExact(stream, start, c);
    }
  }

  /** An archive that is not over starts with a block that passes and goes on behind it. */
  lemma ArchiveStep(stream: bytes, starts: seq<nat>, offset: nat, end: nat, c: Counts)
    requires starts != [] && starts[0] == offset && WithinLimits(c)
    requires BlockAt(stream, offset, if |starts| == 1 then end else starts[1])
    ensures
      var next := if |starts| == 1 then end else starts[1];
      ArchiveFrom(stream, starts, offset, end, c) <==>
        && Passes(stream, offset, c) && WithinLimits(CountsNext(stream, offset, c))
        && ArchiveFrom(stream, starts[1..], next, end, CountsNext(stream, offset, c))
  {
    hide Passes, PathTile, MemberTile, BlockAt, AllZero, CountFlags, PayloadBytes, FlagAt;
    PassesExact(stream, offset, if |starts| == 1 then end else starts[1], c);
    CountsStep(stream, starts, c);
  }

  lemma ScanEnds(stream: bytes, end: nat, c: Counts)
    requires |stream| == CanonicalStreamSize(end) && AllZero(stream[end..]) && !c.pendingPax
    ensures Scan(stream, end, c) == Ok(Layout(end, c.members, c.files, c.directories))
  {
    hide CanonicalStreamSize, NameAllowed, PaxAllowed;
    assert AllZero(stream[end..end + BLOCK]) by {
      assert forall i :: 0 <= i < BLOCK ==> stream[end..end + BLOCK][i] == stream[end..][i];
    }
  }

  lemma FirstTile(stream: bytes, starts: seq<nat>, offset: nat, end: nat, c: Counts)
    requires ArchiveFrom(stream, starts, offset, end, c)
    ensures starts == [] ==>
      offset == end && !c.pendingPax && |stream| == CanonicalStreamSize(end) && AllZero(stream[end..])
    ensures starts != [] ==> starts[0] == offset && BlockAt(stream, offset, if |starts| == 1 then end else starts[1])
  {
    hide BlockAt, AllZero, PathTile, MemberTile;
  }

  /** The scan of an archive returns its end and its counts. */
  lemma {:induction false} ArchiveScans(stream: bytes, starts: seq<nat>, offset: nat, end: nat, c: Counts)
    requires ArchiveFrom(stream, starts, offset, end, c) && WithinLimits(c)
    ensures
      var d := CountsAfter(stream, starts, c);
      Scan(stream, offset, c) == Ok(Layout(end, d.members, d.files, d.directories))
    decreases |starts|
  {
    hide Scan, Passes, ArchiveFrom, BlockAt, FlagAt, CanonicalStreamSize, AllZero;
    FirstTile(stream, starts, offset, end, c);
    if starts == [] {
      ScanEnds(stream, end, c);
    } else {
      hide CountFlags, PayloadBytes, WithinLimits;
      var next := if |starts| == 1 then end else starts[1];
      ArchiveStep(stream, starts, offset, end, c);
      BlockScans(stream, offset, next, c);
      CountsStep(stream, starts, c);
      ArchiveScans(stream, starts[1..], next, end, CountsNext(stream, offset, c));
    }
  }

  /** A scan that goes well has met the end of the archive or a block. */
  lemma ScanStarts(stream: bytes, offset: nat, c: Counts) returns (next: nat)
    requires Scan(stream, offset, c).Ok? && WithinLimits(c)
    ensures offset <= next <= |stream|
    ensures next == offset ==> ArchiveFrom(stream, [], offset, offset, c)
    ensures next > offset ==> BlockAt(stream, offset, next)
  {
    hide PaxProblem, CountMember, AllZero, ChecksumMatches, ChecksumWellFormed, ParseSize;
    var header := stream[offset..offset + BLOCK];
    next := if AllZero(header) then offset else offset + BLOCK + Padded(ParseSize(header).value);
  }

  /** The tiles of an accepted stream, read off the scan. */
  lemma {:induction false} AcceptedFrom(stream: bytes, offset: nat, c: Counts) returns (starts: seq<nat>, end: nat)
    requires Scan(stream, offset, c).Ok? && WithinLimits(c)
    ensures ArchiveFrom(stream, starts, offset, end, c)
    decreases |stream| - offset
  {
    hide Scan, Passes, ArchiveFrom, BlockAt, FlagAt, CountsAfter;
    var next := ScanStarts(stream, offset, c);
    if next == offset {
      return [], offset;
    }
    BlockScans(stream, offset, next, c);
    PassesExact(stream, offset, next, c);
    var d := CountsNext(stream, offset, c);
    hide WithinLimits;
    var rest, last := AcceptedFrom(stream, next, d);
    FirstTile(stream, rest, next, last, d);
    starts, end := [offset] + rest, last;
    assert starts[1..] == rest;
    ArchiveStep(stream, starts, offset, end, c);
  }

  /**
   * A stream is accepted if and only if it is an archive: checksummed headers and padded payloads
   * tile it, every tile is lawful, the totals over the tiles are within the limits, and zeros fill
   * it to the canonical size.
   */
  lemma AcceptedExact(stream: bytes)
    ensures Scan(stream, 0, NO_MEMBERS).Ok? <==> exists starts, end :: IsArchive(stream, starts, end)
  {
    hide Scan, ArchiveFrom;
    if Scan(stream, 0, NO_MEMBERS).Ok? {
      var starts, end := AcceptedFrom(stream, 0, NO_MEMBERS);
      assert IsArchive(stream, starts, end);
    }
    if starts: seq<nat>, end: nat :| IsArchive(stream, starts, end) {
      ArchiveScans(stream, starts, 0, end, NO_MEMBERS);
    }
  }

  /** The layout is the end and the counts of the archive, so a stream is an archive in one way only. */
  lemma AcceptedLayout(stream: bytes, starts: seq<nat>, end: nat)
    requires IsArchive(stream, starts, end)
    ensures Scan(stream, 0, NO_MEMBERS) == Ok(Layout(
      end,
      CountFlags(stream, starts, IsMember),
      CountFlags(stream, starts, IsRegular),
      CountFlags(stream, starts, IsDirectory)))
  {
    hide Scan, ArchiveFrom;
    ArchiveScans(stream, starts, 0, end, NO_MEMBERS);
  }
}
