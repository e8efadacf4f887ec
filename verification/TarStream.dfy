/** The raw scan of a decompressed tar stream, block by block. */
module TarStream {
  import opened Wrappers
  import opened Bytes
  import opened TarHeader

  const MAX_MEMBER_BYTES: nat := 64 * 1024 * 1024
  const MAX_EXPANDED_BYTES: nat := 512 * 1024 * 1024
  const MAX_FILES: nat := 50_000
  const MAX_DIRECTORIES: nat := 50_000
  const MAX_MEMBERS: nat := MAX_FILES + MAX_DIRECTORIES
  const READ_BYTES: nat := 64 * 1024

  datatype TarError =
    | TruncatedStream | OrphanedPax | NoncanonicalLength | MissingEndMarkers | NonzeroTail
    | ChecksumField | Checksum | SizeField | TruncatedMember
    | StackedPax | PaxTooLarge | PaxRecord | PaxPadding
    | UnsafeExtension | UnsupportedType | NameRefused | OversizedMember | OversizedTotal
    | TooManyMembers | TooManyDirectories | TooManyFiles

  datatype Layout = Layout(archiveEnd: nat, members: nat, files: nat, directories: nat)

  datatype Counts = Counts(members: nat, files: nat, directories: nat, payload: nat, pendingPax: bool)

  const NO_MEMBERS := Counts(0, 0, 0, 0, false)

  // ---- reading ----

  function ReadExact(stream: bytes, size: nat, offset: nat): Result<bytes, TarError> {
    if size == 0 then Ok([])
    else if offset + size <= |stream| then Ok(stream[offset..offset + size])
    else Err(TruncatedStream)
  }

  /** Bounded reads until the request is filled; a read at the end of the stream raises. */
  method ReadExactAt(stream: bytes, size: nat, offset: nat) returns (r: Result<bytes, TarError>)
    ensures r == ReadExact(stream, size, offset)
  {
    var data: bytes := [];
    var remaining, at := size, offset;
    while remaining > 0
      invariant at == offset + |data| && remaining + |data| == size && remaining >= 0
      invariant |data| > 0 ==> at <= |stream| && data == stream[offset..at]
    {
      var request := if remaining < READ_BYTES then remaining else READ_BYTES;
      var end := if at + request <= |stream| then at + request else |stream|;
      if end <= at {
        return Err(TruncatedStream);
      }
      var chunk := stream[at..end];
      assert stream[offset..end] == stream[offset..at] + chunk;
      data := data + chunk;
      at := at + |chunk|;
      remaining := remaining - |chunk|;
    }
    return Ok(data);
  }

  /** Checks the rest of the stream in bounded chunks. */
  method ValidateZeroRange(stream: bytes, start: nat) returns (zero: bool)
    requires start <= |stream|
    ensures zero <==> AllZero(stream[start..])
  {
    var offset, remaining := start, |stream| - start;
    while remaining > 0
      invariant start <= offset && offset + remaining == |stream| && remaining >= 0
      invariant AllZero(stream[start..offset])
    {
      var size := if remaining < READ_BYTES then remaining else READ_BYTES;
      var chunk := ReadExactAt(stream, size, offset);
      if !AllZero(chunk.value) {
        var k :| 0 <= k < |chunk.value| && chunk.value[k] != NUL;
        assert stream[start..][offset - start + k] != NUL;
        return false;
      }
      assert stream[start..offset + size] == stream[start..offset] + chunk.value;
      offset := offset + size;
      remaining := remaining - size;
    }
    assert stream[start..offset] == stream[start..];
    return true;
  }

  // ---- the scan ----

  predicate IsDirectory(flag: byte) {
    flag == DIRECTORY
  }

  function EndOfArchive(stream: bytes, offset: nat, c: Counts): Result<Layout, TarError>
    requires offset <= |stream|
  {
    if c.pendingPax then Err(OrphanedPax)
    else if |stream| != CanonicalStreamSize(offset) then Err(NoncanonicalLength)
    else if |stream| - offset < 2 * BLOCK then Err(MissingEndMarkers)
    else if !AllZero(stream[offset..]) then Err(NonzeroTail)
    else Ok(Layout(offset, c.members, c.files, c.directories))
  }

  /** The extension header at `offset`; nothing is returned but the refusal. */
  function PaxProblem(stream: bytes, offset: nat, size: nat, c: Counts): Option<TarError>
    requires offset + BLOCK + Padded(size) <= |stream|
  {
    var start := offset + BLOCK;
    if c.pendingPax then Some(StackedPax)
    else if size == 0 || size > MAX_PAX_BYTES then Some(PaxTooLarge)
    else if !PaxAllowed(stream[start..start + size]) then Some(PaxRecord)
    else if !AllZero(stream[start + size..start + Padded(size)]) then Some(PaxPadding)
    else None
  }

  /** The member header of type `flag` with a payload of `size` bytes: the new counts. */
  function CountMember(header: bytes, flag: byte, size: nat, c: Counts): Result<Counts, TarError>
    requires |header| == BLOCK
  {
    if IsUnsafeExtension(flag) then Err(UnsafeExtension)
    else if !IsMember(flag) then Err(UnsupportedType)
    else if !c.pendingPax && !NameAllowed(UpToNul(header[..100]), flag == DIRECTORY) then Err(NameRefused)
    else if size > MAX_MEMBER_BYTES then Err(OversizedMember)
    else if c.payload + size > MAX_EXPANDED_BYTES then Err(OversizedTotal)
    else if c.members + 1 > MAX_MEMBERS then Err(TooManyMembers)
    else if flag == DIRECTORY && c.directories + 1 > MAX_DIRECTORIES then Err(TooManyDirectories)
    else if IsRegular(flag) && c.files + 1 > MAX_FILES then Err(TooManyFiles)
    else Ok(Counts(
      c.members + 1,
      if IsRegular(flag) then c.files + 1 else c.files,
      if flag == DIRECTORY then c.directories + 1 else c.directories,
      c.payload + size,
      false))
  }

  function Scan(stream: bytes, offset: nat, c: Counts): Result<Layout, TarError>
    decreases |stream| - offset
  {
    if offset + BLOCK > |stream| then Err(TruncatedStream)
    else
      var header := stream[offset..offset + BLOCK];
      if AllZero(header) then EndOfArchive(stream, offset, c)
      else if !ChecksumWellFormed(header) then Err(ChecksumField)
      else if !ChecksumMatches(header) then Err(Checksum)
      else
        match ParseSize(header)
        case None => Err(SizeField)
        case Some(size) =>
          var next := offset + BLOCK + Padded(size);
          if next > |stream| then Err(TruncatedMember)
          else if header[156] == PAX then
            match PaxProblem(stream, offset, size, c)
            case Some(e) => Err(e)
            case None => Scan(stream, next, c.(pendingPax := true))
          else
            match CountMember(header, header[156], size, c)
            case Err(e) => Err(e)
            case Ok(d) => Scan(stream, next, d)
  }

  method ScanRawTarStream(stream: bytes) returns (r: Result<Layout, TarError>)
    ensures r == Scan(stream, 0, NO_MEMBERS)
  {
    hide PaxAllowed, NameAllowed, CountMember, ChecksumMatches;
    var offset, memberCount, fileCount, directoryCount, payloadTotal := 0, 0, 0, 0, 0;
    var pendingPax := false;
    while true
      invariant offset <= |stream|
      invariant Scan(stream, 0, NO_MEMBERS) ==
        Scan(stream, offset, Counts(memberCount, fileCount, directoryCount, payloadTotal, pendingPax))
      decreases |stream| - offset
    {
      ghost var c := Counts(memberCount, fileCount, directoryCount, payloadTotal, pendingPax);
      var read := ReadExactAt(stream, BLOCK, offset);
      if read.Err? {
        return Err(read.error);
      }
      var header := read.value;
      if AllZero(header) {
        if pendingPax {
          return Err(OrphanedPax);
        }
        if |stream| != CanonicalStreamSize(offset) {
          return Err(NoncanonicalLength);
        }
        if |stream| - offset < 2 * BLOCK {
          return Err(MissingEndMarkers);
        }
        var zero := ValidateZeroRange(stream, offset);
        if !zero {
          return Err(NonzeroTail);
        }
        return Ok(Layout(offset, memberCount, fileCount, directoryCount));
      }
      if !ChecksumWellFormed(header) {
        return Err(ChecksumField);
      }
      if !ChecksumMatches(header) {
        return Err(Checksum);
      }
      var parsed := ParseSize(header);
      if parsed.None? {
        return Err(SizeField);
      }
      var size := parsed.value;
      var typeflag := header[156];
      var nextOffset := offset + BLOCK + Padded(size);
      if nextOffset > |stream| {
        return Err(TruncatedMember);
      }
      if typeflag == PAX {
        var problem := ValidatePax(stream, offset, size, c, pendingPax);
        if problem.Some? {
          return Err(problem.value);
        }
        pendingPax := true;
        offset := nextOffset;
        continue;
      }
      var counted := CountRawMember(
        header, typeflag, size, memberCount, fileCount, directoryCount, payloadTotal, pendingPax);
      if counted.Err? {
        return Err(counted.error);
      }
      memberCount, fileCount, directoryCount := counted.value.members, counted.value.files, counted.value.directories;
      payloadTotal, pendingPax := counted.value.payload, false;
      CountedClears(header, typeflag, size, c);
      offset := nextOffset;
    }
  }

  lemma CountedClears(header: bytes, flag: byte, size: nat, c: Counts)
    requires |header| == BLOCK
    ensures CountMember(header, flag, size, c).Ok? ==> !CountMember(header, flag, size, c).value.pendingPax
  {
  }

  method ValidatePax(stream: bytes, offset: nat, size: nat, ghost c: Counts, pendingPax: bool)
    returns (problem: Option<TarError>)
    requires offset + BLOCK + Padded(size) <= |stream| && c.pendingPax == pendingPax
    ensures problem == PaxProblem(stream, offset, size, c)
  {
    hide PaxAllowed;
    if pendingPax {
      return Some(StackedPax);
    }
    if size == 0 || size > MAX_PAX_BYTES {
      return Some(PaxTooLarge);
    }
    var payloadOffset := offset + BLOCK;
    var payload := ReadExactAt(stream, size, payloadOffset);
    if !PaxAllowed(payload.value) {
      return Some(PaxRecord);
    }
    var padding := ReadExactAt(stream, Padded(size) - size, payloadOffset + size);
    if !AllZero(padding.value) {
      return Some(PaxPadding);
    }
    return None;
  }

  method CountRawMember(header: bytes, typeflag: byte, size: nat, memberCount: nat, fileCount: nat, directoryCount: nat,
                        payloadTotal: nat, pendingPax: bool)
    returns (r: Result<Counts, TarError>)
    requires |header| == BLOCK
    ensures r == CountMember(header, typeflag, size,
      Counts(memberCount, fileCount, directoryCount, payloadTotal, pendingPax))
  {
    hide NameAllowed, UpToNul;
    if IsUnsafeExtension(typeflag) {
      return Err(UnsafeExtension);
    }
    if !IsMember(typeflag) {
      return Err(UnsupportedType);
    }
    if !pendingPax {
      if !NameAllowed(UpToNul(header[..100]), typeflag == DIRECTORY) {
        return Err(NameRefused);
      }
    }
    if size > MAX_MEMBER_BYTES {
      return Err(OversizedMember);
    }
    var total := payloadTotal + size;
    if total > MAX_EXPANDED_BYTES {
      return Err(OversizedTotal);
    }
    var members := memberCount + 1;
    if members > MAX_MEMBERS {
      return Err(TooManyMembers);
    }
    var files, directories := fileCount, directoryCount;
    if typeflag == DIRECTORY {
      directories := directories + 1;
      if directories > MAX_DIRECTORIES {
        return Err(TooManyDirectories);
      }
    } else if IsRegular(typeflag) {
      files := files + 1;
      if files > MAX_FILES {
        return Err(TooManyFiles);
      }
    }
    return Ok(Counts(members, files, directories, total, false));
  }

  /** The refusal for missing end markers can never be reached: the length check comes first. */
  lemma {:induction false} EndMarkersNeverMissing(stream: bytes, offset: nat, c: Counts)
    ensures Scan(stream, offset, c) != Err(MissingEndMarkers)
    decreases |stream| - offset
  {
    hide PaxAllowed, NameAllowed, ChecksumMatches;
    if offset + BLOCK <= |stream| {
      var header := stream[offset..offset + BLOCK];
      if !AllZero(header) && ChecksumWellFormed(header) && ChecksumMatches(header) && ParseSize(header).Some? {
        var size := ParseSize(header).value;
        var next := offset + BLOCK + Padded(size);
        if next <= |stream| {
          EndMarkersNeverMissing(stream, next, c.(pendingPax := true));
          if CountMember(header, header[156], size, c).Ok? {
            EndMarkersNeverMissing(stream, next, CountMember(header, header[156], size, c).value);
          }
        }
      }
    }
  }
}
