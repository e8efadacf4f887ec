/** Serialized archives, and the scan that reads them back. */
module TarWriter {
  import opened Wrappers
  import opened Bytes
  import opened TarHeader
  import opened TarStream
  import opened PaxWriter
  import opened TarAcceptance

  /** The header fields the scan does not interpret, at their widths. */
  datatype Fields = Fields(name: bytes, meta: bytes, mtime: bytes, tail: bytes) {
    predicate Valid() {
      |name| == 100 && |meta| == 24 && |mtime| == 12 && |tail| == 355
    }
  }

  /** A header of its own that gives the next member's path. */
  datatype PaxHeader = PaxHeader(fields: Fields, path: bytes)

  datatype TarMember = TarMember(pax: Option<PaxHeader>, fields: Fields, flag: byte, payload: bytes)

  // ---- headers ----

  function Front(f: Fields, size: nat): bytes {
    f.name + f.meta + Octal(size, 11) + [NUL] + f.mtime
  }

  function Back(f: Fields, flag: byte): bytes {
    [flag] + f.tail
  }

  function Header(f: Fields, size: nat, flag: byte): bytes {
    var sum := Sum(Front(f, size)) + 8 * SPACE as nat + Sum(Back(f, flag));
    Front(f, size) + (Octal(sum, 6) + [NUL, SPACE]) + Back(f, flag)
  }

  lemma FrontParts(f: Fields, size: nat)
    requires f.Valid()
    ensures var front := Front(f, size);
      |front| == 148 && front[..100] == f.name && front[124..135] == Octal(size, 11) && front[135] == NUL
  {
  }

  lemma ThreeParts(a: bytes, b: bytes, c: bytes)
    ensures var s := a + b + c;
      && |s| == |a| + |b| + |c| && s[..|a|] == a && s[|a|..|a| + |b|] == b && s[|a| + |b|..] == c
  {
  }

  lemma HeaderParts(f: Fields, size: nat, flag: byte)
    requires f.Valid()
    ensures var h, sum := Header(f, size, flag), Sum(Front(f, size)) + 8 * SPACE as nat + Sum(Back(f, flag));
      && |h| == BLOCK && h[..148] == Front(f, size) && h[156..] == Back(f, flag)
      && h[148..154] == Octal(sum, 6) && h[154] == NUL && h[155] == SPACE && h[156] == flag
  {
    FrontParts(f, size);
    assert |Back(f, flag)| == 356 && Back(f, flag)[0] == flag;
    hide Front, Back, Sum, Octal;
    var front, back := Front(f, size), Back(f, flag);
    var digits := Octal(Sum(front) + 8 * SPACE as nat + Sum(back), 6);
    var h := Header(f, size, flag);
    ThreeParts(front, digits + [NUL, SPACE], back);
    assert h[148..156] == digits + [NUL, SPACE];
    assert h[148..154] == h[148..156][..6] && h[154] == h[148..156][6] && h[155] == h[148..156][7];
    assert h[156] == h[156..][0];
  }

  /** The checksum always fits its six octal digits. */
  lemma ChecksumFits(f: Fields, size: nat, flag: byte)
    requires f.Valid()
    ensures Sum(Front(f, size)) + 8 * SPACE as nat + Sum(Back(f, flag)) < Pow8(6)
  {
    FrontParts(f, size);
    assert Pow8(2) == 64;
    assert Pow8(4) == 4096;
    assert Pow8(6) == 262144;
  }

  lemma HeaderReads(f: Fields, size: nat, flag: byte)
    requires f.Valid() && size < Pow8(11)
    ensures var h := Header(f, size, flag);
      && |h| == BLOCK && !AllZero(h) && ChecksumWellFormed(h) && ChecksumMatches(h)
      && ParseSize(h) == Some(size) && h[156] == flag && h[..100] == f.name
  {
    var h := Header(f, size, flag);
    FrontParts(f, size);
    HeaderParts(f, size, flag);
    ChecksumFits(f, size, flag);
    OctalRoundTrip(size, 11);
    OctalRoundTrip(Sum(Front(f, size)) + 8 * SPACE as nat + Sum(Back(f, flag)), 6);
    hide Header, Front, Back, Sum, Octal, OctalValue, Pow8;
    assert h[124..136][..11] == h[..148][124..135];
    assert h[124..136][11] == h[..148][135];
    assert h[..100] == h[..148][..100];
  }

  // ---- members ----

  function Chunk(f: Fields, flag: byte, payload: bytes): bytes {
    Header(f, |payload|, flag) + payload + Zeros(Padded(|payload|) - |payload|)
  }

  function MemberBytes(m: TarMember): bytes {
    (match m.pax
     case None => []
     case Some(p) => Chunk(p.fields, PAX, WriteRecord(p.path))) + Chunk(m.fields, m.flag, m.payload)
  }

  function Body(ms: seq<TarMember>): bytes {
    if ms == [] then [] else MemberBytes(ms[0]) + Body(ms[1..])
  }

  function Archive(ms: seq<TarMember>): bytes {
    var body := Body(ms);
    body + Zeros(CanonicalStreamSize(|body|) - |body|)
  }

  /** What a writer can put into a header at all. */
  predicate Shaped(m: TarMember) {
    && m.fields.Valid() && IsMember(m.flag) && |m.payload| <= MAX_MEMBER_BYTES
    && (m.pax.Some? ==> m.pax.value.fields.Valid() && |m.pax.value.path| <= MAX_NAME_BYTES + 1)
  }

  /** The name in the extended header, or else the one in the member's own header, is allowed. */
  predicate NameLawful(m: TarMember) {
    match m.pax
    case None => NameAllowed(UpToNul(m.fields.name), m.flag == DIRECTORY)
    case Some(p) => PaxPathAllowed(p.path)
  }

  predicate ValidMember(m: TarMember) {
    Shaped(m) && NameLawful(m)
  }

  function Payload(ms: seq<TarMember>): nat {
    if ms == [] then 0 else |ms[0].payload| + Payload(ms[1..])
  }

  function Members(ms: seq<TarMember>, test: byte -> bool): nat {
    if ms == [] then 0 else (if test(ms[0].flag) then 1 else 0) + Members(ms[1..], test)
  }

  /** The totals of `ms` on top of `c` are within the limits. */
  ghost predicate HasRoom(ms: seq<TarMember>, c: Counts) {
    && !c.pendingPax
    && (forall m :: m in ms ==> Shaped(m))
    && c.payload + Payload(ms) <= MAX_EXPANDED_BYTES
    && c.members + |ms| <= MAX_MEMBERS
    && c.files + Members(ms, IsRegular) <= MAX_FILES
    && c.directories + Members(ms, IsDirectory) <= MAX_DIRECTORIES
  }

  ghost predicate Fits(ms: seq<TarMember>, c: Counts) {
    HasRoom(ms, c) && forall m :: m in ms ==> NameLawful(m)
  }

  function Counted(ms: seq<TarMember>, c: Counts): Counts {
    Counts(
      c.members + |ms|,
      c.files + Members(ms, IsRegular),
      c.directories + Members(ms, IsDirectory),
      c.payload + Payload(ms),
      false)
  }

  function CountOne(m: TarMember, c: Counts): Counts {
    Counts(
      c.members + 1,
      if IsRegular(m.flag) then c.files + 1 else c.files,
      if IsDirectory(m.flag) then c.directories + 1 else c.directories,
      c.payload + |m.payload|,
      false)
  }

  predicate FitsOne(m: TarMember, c: Counts) {
    && ValidMember(m)
    && c.payload + |m.payload| <= MAX_EXPANDED_BYTES && c.members + 1 <= MAX_MEMBERS
    && (IsRegular(m.flag) ==> c.files + 1 <= MAX_FILES)
    && (IsDirectory(m.flag) ==> c.directories + 1 <= MAX_DIRECTORIES)
  }

  // ---- reading back ----

  /** `text` stands in the stream at `offset`. */
  ghost predicate StandsAt(stream: bytes, offset: nat, text: bytes) {
    offset + |text| <= |stream| && stream[offset..offset + |text|] == text
  }

  lemma StandsSplit(stream: bytes, offset: nat, a: bytes, b: bytes)
    requires StandsAt(stream, offset, a + b)
    ensures StandsAt(stream, offset, a) && StandsAt(stream, offset + |a|, b)
  {
    var whole := stream[offset..offset + |a + b|];
    assert whole[..|a|] == a && whole[|a|..] == b;
    assert stream[offset..offset + |a|] == whole[..|a|];
    assert stream[offset + |a|..offset + |a| + |b|] == whole[|a|..];
  }

  lemma SizesFit()
    ensures MAX_MEMBER_BYTES < Pow8(11) && MAX_PAX_BYTES < Pow8(11)
  {
    assert Pow8(2) == 64;
    assert Pow8(4) == 4096;
    assert Pow8(6) == 262144;
    assert Pow8(8) == 16777216;
    assert Pow8(10) == 1073741824;
    assert Pow8(11) == 8589934592;
  }

  lemma ChunkStands(stream: bytes, offset: nat, f: Fields, flag: byte, payload: bytes)
    requires f.Valid() && |payload| < Pow8(11) && StandsAt(stream, offset, Chunk(f, flag, payload))
    ensures var header := Header(f, |payload|, flag);
      && |header| == BLOCK && stream[offset..offset + BLOCK] == header
      && offset + BLOCK + Padded(|payload|) <= |stream|
      && |Chunk(f, flag, payload)| == BLOCK + Padded(|payload|)
      && stream[offset + BLOCK..offset + BLOCK + |payload|] == payload
      && AllZero(stream[offset + BLOCK + |payload|..offset + BLOCK + Padded(|payload|)])
  {
    var header := Header(f, |payload|, flag);
    HeaderParts(f, |payload|, flag);
    hide Header;
    var pad := Zeros(Padded(|payload|) - |payload|);
    StandsSplit(stream, offset, header + payload, pad);
    StandsSplit(stream, offset, header, payload);
  }

  /** One step of the scan, given what its header reads as. */
  lemma ScanStep(stream: bytes, offset: nat, size: nat, c: Counts, d: Counts)
    requires offset + BLOCK + Padded(size) <= |stream|
    requires var h := stream[offset..offset + BLOCK];
      && !AllZero(h) && ChecksumWellFormed(h) && ChecksumMatches(h) && ParseSize(h) == Some(size)
      && (if h[156] == PAX then PaxProblem(stream, offset, size, c) == None && d == c.(pendingPax := true)
          else CountMember(h, h[156], size, c) == Ok(d))
    ensures Scan(stream, offset, c) == Scan(stream, offset + BLOCK + Padded(size), d)
  {
    hide AllZero, ChecksumWellFormed, ChecksumMatches, ParseSize, PaxProblem, CountMember, Padded;
  }

  lemma PaxAccepted(stream: bytes, offset: nat, record: bytes, c: Counts)
    requires |record| <= MAX_PAX_BYTES && PaxAllowed(record) && !c.pendingPax
    requires offset + BLOCK + Padded(|record|) <= |stream|
    requires stream[offset + BLOCK..offset + BLOCK + |record|] == record
    requires AllZero(stream[offset + BLOCK + |record|..offset + BLOCK + Padded(|record|)])
    ensures PaxProblem(stream, offset, |record|, c) == None
  {
    assert record != [];
    hide PaxAllowed, AllZero;
  }

  lemma PaxChunkScans(stream: bytes, offset: nat, p: PaxHeader, c: Counts)
    requires p.fields.Valid() && PaxPathAllowed(p.path) && !c.pendingPax
    requires StandsAt(stream, offset, Chunk(p.fields, PAX, WriteRecord(p.path)))
    ensures Scan(stream, offset, c)
         == Scan(stream, offset + |Chunk(p.fields, PAX, WriteRecord(p.path))|, c.(pendingPax := true))
  {
    hide *;
    var record := WriteRecord(p.path);
    RecordAllowed(record, p.path);
    SizesFit();
    assert |record| < Pow8(11);
    ChunkStands(stream, offset, p.fields, PAX, record);
    HeaderReads(p.fields, |record|, PAX);
    PaxAccepted(stream, offset, record, c);
    ScanStep(stream, offset, |record|, c, c.(pendingPax := true));
  }

  lemma MemberChunkScans(stream: bytes, offset: nat, m: TarMember, c: Counts)
    requires FitsOne(m, c) && StandsAt(stream, offset, Chunk(m.fields, m.flag, m.payload))
    requires c.pendingPax <==> m.pax.Some?
    ensures Scan(stream, offset, c) == Scan(stream, offset + |Chunk(m.fields, m.flag, m.payload)|, CountOne(m, c))
  {
    hide *;
    SizesFit();
    MemberShape(m, c);
    ChunkStands(stream, offset, m.fields, m.flag, m.payload);
    HeaderReads(m.fields, |m.payload|, m.flag);
    MemberCounts(Header(m.fields, |m.payload|, m.flag), m, c);
    ScanStep(stream, offset, |m.payload|, c, CountOne(m, c));
  }

  lemma MemberShape(m: TarMember, c: Counts)
    requires FitsOne(m, c)
    ensures m.flag != PAX && m.fields.Valid() && |m.payload| <= MAX_MEMBER_BYTES
    ensures m.pax.Some? ==> m.pax.value.fields.Valid() && PaxPathAllowed(m.pax.value.path)
  {
  }

  lemma MemberCounts(header: bytes, m: TarMember, c: Counts)
    requires |header| == BLOCK && header[..100] == m.fields.name && FitsOne(m, c)
    requires c.pendingPax <==> m.pax.Some?
    ensures CountMember(header, m.flag, |m.payload|, c) == Ok(CountOne(m, c))
  {
    hide NameAllowed, PaxAllowed, UpToNul;
    assert !IsUnsafeExtension(m.flag);
  }

  /** Limits that hold for a whole list hold member by member, and the counts add up. */
  lemma FitsCons(ms: seq<TarMember>, c: Counts)
    requires Fits(ms, c) && ms != []
    ensures var d := CountOne(ms[0], c);
      && FitsOne(ms[0], c) && Fits(ms[1..], d) && Counted(ms[1..], d) == Counted(ms, c)
  {
    hide Shaped, NameLawful;
    assert ms[0] in ms && forall x :: x in ms[1..] ==> x in ms;
  }

  lemma {:induction false} BodyScans(stream: bytes, offset: nat, ms: seq<TarMember>, c: Counts)
    requires Fits(ms, c) && StandsAt(stream, offset, Body(ms))
    ensures Scan(stream, offset, c) == Scan(stream, offset + |Body(ms)|, Counted(ms, c))
    decreases |ms|
  {
    hide *;
    BodyParts(ms, c);
    if ms != [] {
      FitsCons(ms, c);
      StandsSplit(stream, offset, MemberBytes(ms[0]), Body(ms[1..]));
      MemberScans(stream, offset, ms[0], c);
      BodyScans(stream, offset + |MemberBytes(ms[0])|, ms[1..], CountOne(ms[0], c));
    }
  }

  lemma BodyParts(ms: seq<TarMember>, c: Counts)
    requires Fits(ms, c)
    ensures ms == [] ==> Body(ms) == [] && Counted(ms, c) == c
    ensures ms != [] ==> Body(ms) == MemberBytes(ms[0]) + Body(ms[1..]) && !c.pendingPax
  {
    hide MemberBytes, Shaped, NameLawful;
  }

  lemma MemberScans(stream: bytes, offset: nat, m: TarMember, c: Counts)
    requires FitsOne(m, c) && !c.pendingPax && StandsAt(stream, offset, MemberBytes(m))
    ensures Scan(stream, offset, c) == Scan(stream, offset + |MemberBytes(m)|, CountOne(m, c))
  {
    hide *;
    MemberShape(m, c);
    PaxFits(m, c);
    MemberParts(m);
    var chunk := Chunk(m.fields, m.flag, m.payload);
    if m.pax.Some? {
      var p := m.pax.value;
      var extended := Chunk(p.fields, PAX, WriteRecord(p.path));
      StandsSplit(stream, offset, extended, chunk);
      PaxChunkScans(stream, offset, p, c);
      MemberChunkScans(stream, offset + |extended|, m, c.(pendingPax := true));
    } else {
      MemberChunkScans(stream, offset, m, c);
    }
  }

  lemma PaxFits(m: TarMember, c: Counts)
    requires FitsOne(m, c)
    ensures FitsOne(m, c.(pendingPax := true)) && CountOne(m, c.(pendingPax := true)) == CountOne(m, c)
  {
    hide ValidMember;
  }

  lemma MemberParts(m: TarMember)
    ensures MemberBytes(m) ==
      match m.pax
      case None => Chunk(m.fields, m.flag, m.payload)
      case Some(p) => Chunk(p.fields, PAX, WriteRecord(p.path)) + Chunk(m.fields, m.flag, m.payload)
  {
    hide Chunk;
  }

  /** Every archive within the limits is accepted, with its exact end and counts. */
  lemma WrittenArchiveScans(ms: seq<TarMember>)
    requires Fits(ms, NO_MEMBERS)
    ensures Scan(Archive(ms), 0, NO_MEMBERS) ==
      Ok(Layout(|Body(ms)|, |ms|, Members(ms, IsRegular), Members(ms, IsDirectory)))
  {
    hide *;
    ArchiveParts(ms);
    NothingCounted(ms);
    BodyScans(Archive(ms), 0, ms, NO_MEMBERS);
    ScanEnds(Archive(ms), |Body(ms)|, Counted(ms, NO_MEMBERS));
  }

  // ---- archives with a name that is refused ----

  /** One step of the scan that refuses. */
  lemma ScanRefuses(stream: bytes, offset: nat, size: nat, c: Counts)
    requires offset + BLOCK + Padded(size) <= |stream|
    requires var h := stream[offset..offset + BLOCK];
      && !AllZero(h) && ChecksumWellFormed(h) && ChecksumMatches(h) && ParseSize(h) == Some(size)
      && (if h[156] == PAX then PaxProblem(stream, offset, size, c).Some? else CountMember(h, h[156], size, c).Err?)
    ensures Scan(stream, offset, c).Err?
  {
    hide AllZero, ChecksumWellFormed, ChecksumMatches, ParseSize, PaxProblem, CountMember, Padded;
  }

  lemma RecordRefused(stream: bytes, offset: nat, record: bytes, c: Counts)
    requires !PaxAllowed(record) && offset + BLOCK + Padded(|record|) <= |stream|
    requires stream[offset + BLOCK..offset + BLOCK + |record|] == record
    ensures PaxProblem(stream, offset, |record|, c).Some?
  {
    hide PaxAllowed, AllZero;
  }

  lemma NameRefusedHere(header: bytes, m: TarMember, c: Counts)
    requires |header| == BLOCK && header[..100] == m.fields.name && m.pax.None? && !NameLawful(m) && !c.pendingPax
    ensures CountMember(header, m.flag, |m.payload|, c).Err?
  {
    hide NameAllowed, UpToNul;
  }

  lemma MemberRefused(stream: bytes, offset: nat, m: TarMember, c: Counts)
    requires Shaped(m) && !NameLawful(m) && !c.pendingPax && StandsAt(stream, offset, MemberBytes(m))
    ensures Scan(stream, offset, c).Err?
  {
    hide *;
    MemberParts(m);
    SizesFit();
    ShapedParts(m);
    var chunk := Chunk(m.fields, m.flag, m.payload);
    if m.pax.Some? {
      var p := m.pax.value;
      var record := WriteRecord(p.path);
      LengthField(record, p.path);
      RecordAllowed(record, p.path);
      StandsSplit(stream, offset, Chunk(p.fields, PAX, record), chunk);
      ChunkStands(stream, offset, p.fields, PAX, record);
      HeaderReads(p.fields, |record|, PAX);
      RecordRefused(stream, offset, record, c);
      ScanRefuses(stream, offset, |record|, c);
    } else {
      ChunkStands(stream, offset, m.fields, m.flag, m.payload);
      HeaderReads(m.fields, |m.payload|, m.flag);
      NameRefusedHere(Header(m.fields, |m.payload|, m.flag), m, c);
      ScanRefuses(stream, offset, |m.payload|, c);
    }
  }

  lemma ShapedParts(m: TarMember)
    requires Shaped(m)
    ensures m.flag != PAX && m.fields.Valid() && |m.payload| <= MAX_MEMBER_BYTES
    ensures m.pax.Some? ==> m.pax.value.fields.Valid() && |m.pax.value.path| <= MAX_NAME_BYTES + 1
    ensures m.pax.Some? ==> (NameLawful(m) <==> PaxPathAllowed(m.pax.value.path))
  {
  }

  lemma RoomStep(ms: seq<TarMember>, c: Counts)
    requires HasRoom(ms, c) && ms != []
    ensures Shaped(ms[0]) && !c.pendingPax && (NameLawful(ms[0]) ==> FitsOne(ms[0], c))
    ensures HasRoom(ms[1..], CountOne(ms[0], c))
    ensures Body(ms) == MemberBytes(ms[0]) + Body(ms[1..])
  {
    hide Shaped, NameLawful, MemberBytes;
    assert ms[0] in ms && forall x :: x in ms[1..] ==> x in ms;
  }

  lemma {:induction false} BodyRefused(stream: bytes, offset: nat, ms: seq<TarMember>, k: nat, c: Counts)
    requires HasRoom(ms, c) && StandsAt(stream, offset, Body(ms))
    requires k < |ms| && !NameLawful(ms[k])
    ensures Scan(stream, offset, c).Err?
    decreases |ms|
  {
    hide *;
    RoomStep(ms, c);
    StandsSplit(stream, offset, MemberBytes(ms[0]), Body(ms[1..]));
    if NameLawful(ms[0]) {
      MemberScans(stream, offset, ms[0], c);
      BodyRefused(stream, offset + |MemberBytes(ms[0])|, ms[1..], k - 1, CountOne(ms[0], c));
    } else {
      MemberRefused(stream, offset, ms[0], c);
    }
  }

  /** A written archive within the limits is accepted exactly when every name in it is allowed. */
  lemma WrittenArchiveExact(ms: seq<TarMember>)
    requires HasRoom(ms, NO_MEMBERS)
    ensures
      var r := Scan(Archive(ms), 0, NO_MEMBERS);
      && (r.Ok? <==> forall m :: m in ms ==> NameLawful(m))
      && (r.Ok? ==> r.value == Layout(|Body(ms)|, |ms|, Members(ms, IsRegular), Members(ms, IsDirectory)))
  {
    hide Scan, Archive, NameLawful, HasRoom, Body, Members;
    if m :| m in ms && !NameLawful(m) {
      var k :| 0 <= k < |ms| && ms[k] == m;
      ArchiveParts(ms);
      BodyRefused(Archive(ms), 0, ms, k, NO_MEMBERS);
    } else {
      WrittenArchiveScans(ms);
    }
  }

  lemma NothingCounted(ms: seq<TarMember>)
    ensures var d := Counted(ms, NO_MEMBERS);
      && d.members == |ms| && !d.pendingPax
      && d.files == Members(ms, IsRegular) && d.directories == Members(ms, IsDirectory)
  {
  }

  lemma ArchiveParts(ms: seq<TarMember>)
    ensures var stream, end := Archive(ms), |Body(ms)|;
      && StandsAt(stream, 0, Body(ms)) && |stream| == CanonicalStreamSize(end) && |stream| >= end + 2 * BLOCK
      && AllZero(stream[end..])
  {
    hide Body;
    var stream, end := Archive(ms), |Body(ms)|;
    assert stream[0..end] == Body(ms);
    assert stream[end..] == Zeros(CanonicalStreamSize(end) - end);
  }
}
