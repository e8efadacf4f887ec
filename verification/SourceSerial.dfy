/** The archive a finished build leaves on disk, read by the raw scan. */
module SourceSerial {
  import opened Wrappers
  import opened Bytes
  import opened FiniteSums
  import opened Ordering
  import opened SourceArchive
  import opened SourceBudget
  import opened BuilderAudit
  import opened BuiltMembers
  import opened SourceTree
  import H = TarHeader
  import S = TarStream
  import T = Topology
  import Tar = TarWriter
  import Unicode

  // ----- Names as bytes ------------------------------------------------------------------

  function EncodeText(s: string): bytes {
    if s == "" then [] else Unicode.Utf8(s[0] as int) + EncodeText(s[1..])
  }

  /** The name in the archive: parts joined with slashes, and one more behind a directory. */
  function NameText(m: Member): bytes {
    EncodeText(JoinPath(m.path)) + if m.kind == T.Directory then [SLASH] else []
  }

  /** What fits into the header itself; any other name goes into an extended header. */
  predicate FitsHeader(name: bytes) {
    |name| <= 100 && forall b :: b in name ==> b < 128
  }

  predicate LawfulName(m: Member) {
    var name := NameText(m);
    if FitsHeader(name) then H.NameAllowed(H.UpToNul(name), m.kind == T.Directory) else H.PaxPathAllowed(name)
  }

  lemma {:induction false} EncodedAppends(a: string, b: string)
    ensures EncodeText(a + b) == EncodeText(a) + EncodeText(b)
  {
    if a == "" {
      assert a + b == b;
    } else {
      assert (a + b)[1..] == a[1..] + b;
      EncodedAppends(a[1..], b);
    }
  }

  lemma {:induction false} EncodedName(name: Name)
    ensures |EncodeText(name)| == NameBytes(name)
  {
    if name != "" {
      EncodedName(name[1..]);
    }
  }

  /** The builder's byte count of a path is the length of its text. */
  lemma {:induction false} EncodedPath(path: Path)
    ensures |EncodeText(JoinPath(path))| == PathBytes(path)
  {
    if path != [] {
      EncodedName(path[0]);
      if |path| > 1 {
        EncodedPath(path[1..]);
        EncodedAppends(path[0] + "/", JoinPath(path[1..]));
        EncodedAppends(path[0], "/");
        EncodedName("/");
        SlashByte();
        assert JoinPath(path) == path[0] + "/" + JoinPath(path[1..]);
      }
    }
  }

  lemma SlashByte()
    ensures NameBytes("/") == 1
  {
    assert NameBytes("/"[1..]) == 0;
  }

  // ----- Writing members -----------------------------------------------------------------

  /** One member as a tar writer puts it down: header fields it does not interpret are free. */
  ghost predicate Writes(t: Tar.TarMember, m: Member, ctx: Context) {
    var name := NameText(m);
    && t.fields.Valid() && t.flag == (if m.kind == T.Directory then H.DIRECTORY else H.REGULAR)
    && |t.payload| == PayloadSize(ctx)(m)
    && match t.pax
       case None => FitsHeader(name) && t.fields.name == name + Zeros(100 - |name|)
       case Some(p) => !FitsHeader(name) && p.fields.Valid() && p.path == name
  }

  /** A directory has no payload, a file what the manifest says. */
  ghost function PayloadSize(ctx: Context): Member -> nat {
    (m: Member) =>
      if m.kind == T.RegularFile && ctx.prefix <= m.path && m.path[|ctx.prefix|..] in ctx.manifest
      then ctx.manifest[m.path[|ctx.prefix|..]].size else 0
  }

  ghost predicate WritesAll(ts: seq<Tar.TarMember>, ms: seq<Member>, ctx: Context) {
    |ts| == |ms| && forall i :: 0 <= i < |ts| ==> Writes(ts[i], ms[i], ctx)
  }

  /** Every list of members can be written so. */
  lemma {:induction false} Writable(ms: seq<Member>, ctx: Context) returns (ts: seq<Tar.TarMember>)
    ensures WritesAll(ts, ms, ctx)
  {
    if ms == [] {
      ts := [];
    } else {
      hide NameText, PayloadSize, FitsHeader;
      var rest := Writable(ms[1..], ctx);
      var name, flag := NameText(ms[0]), if ms[0].kind == T.Directory then H.DIRECTORY else H.REGULAR;
      var fits := FitsHeader(name);
      var blank := Tar.Fields(Zeros(100), Zeros(24), Zeros(12), Zeros(355));
      FittingName(name);
      var fields := if fits then blank.(name := name + Zeros(100 - |name|)) else blank;
      var pax := if fits then None else Some(Tar.PaxHeader(blank, name));
      ts := [Tar.TarMember(pax, fields, flag, Zeros(PayloadSize(ctx)(ms[0])))] + rest;
    }
  }

  lemma FittingName(name: bytes)
    ensures FitsHeader(name) ==> |name| <= 100
  {
  }

  function IsKind(kind: T.Kind): Member -> nat {
    (m: Member) => if m.kind == kind then 1 else 0
  }

  lemma {:induction false} ZerosEndName(name: bytes, n: nat)
    ensures H.UpToNul(name + Zeros(n)) == H.UpToNul(name)
  {
    if name == [] {
      assert name + Zeros(n) == Zeros(n);
    } else if name[0] != NUL {
      assert (name + Zeros(n))[1..] == name[1..] + Zeros(n);
      ZerosEndName(name[1..], n);
    }
  }

  lemma WrittenName(t: Tar.TarMember, m: Member, ctx: Context)
    requires Writes(t, m, ctx)
    ensures Tar.NameLawful(t) <==> LawfulName(m)
  {
    hide H.NameAllowed, H.PaxPathAllowed, NameText, FitsHeader, PayloadSize;
    if t.pax.None? {
      ZerosEndName(NameText(m), 100 - |NameText(m)|);
    }
  }

  /** The member of a finished build is a file or a directory below the prefix, within the limits. */
  lemma MemberShape(entries: seq<Named>, ctx: Context, p: Progress, m: Member)
    requires Built(entries, ctx, p) && Checked(ctx) && m in p.members
    ensures m.kind == T.RegularFile || m.kind == T.Directory
    ensures |NameText(m)| <= H.MAX_NAME_BYTES + 1 && PayloadSize(ctx)(m) <= S.MAX_MEMBER_BYTES
  {
    hide Built, WalkDirectory, PathBytes, EncodeText, JoinPath, ValidRecord;
    MembersExact(entries, ctx, p);
    assert m in FileMembers(ctx) + DirectoryMembers(ctx);
    var relative := m.path[|ctx.prefix|..];
    assert m == Member(ctx.prefix + relative, m.kind);
    PathIsSafe(ctx, relative);
    EncodedPath(m.path);
    if relative in ctx.manifest {
      RecordFits(relative, ctx);
    }
  }

  lemma WrittenShape(t: Tar.TarMember, m: Member, ctx: Context)
    requires Writes(t, m, ctx) && (m.kind == T.RegularFile || m.kind == T.Directory)
    requires |NameText(m)| <= H.MAX_NAME_BYTES + 1 && PayloadSize(ctx)(m) <= S.MAX_MEMBER_BYTES
    ensures Tar.Shaped(t)
    ensures H.IsRegular(t.flag) <==> m.kind == T.RegularFile
    ensures S.IsDirectory(t.flag) <==> m.kind == T.Directory
  {
    hide NameText, FitsHeader, PayloadSize;
  }

  // ----- Totals --------------------------------------------------------------------------

  ghost predicate AllShaped(ts: seq<Tar.TarMember>, ms: seq<Member>, ctx: Context) {
    WritesAll(ts, ms, ctx) && forall m :: m in ms ==>
      && (m.kind == T.RegularFile || m.kind == T.Directory)
      && |NameText(m)| <= H.MAX_NAME_BYTES + 1 && PayloadSize(ctx)(m) <= S.MAX_MEMBER_BYTES
  }

  lemma {:induction false} WrittenTotals(ts: seq<Tar.TarMember>, ms: seq<Member>, ctx: Context)
    requires AllShaped(ts, ms, ctx)
    ensures Tar.Payload(ts) == Total(ms, PayloadSize(ctx))
    ensures Tar.Members(ts, H.IsRegular) == Total(ms, IsKind(T.RegularFile))
    ensures Tar.Members(ts, S.IsDirectory) == Total(ms, IsKind(T.Directory))
    ensures forall t :: t in ts ==> Tar.Shaped(t)
    ensures (forall t :: t in ts ==> Tar.NameLawful(t)) <==> forall m :: m in ms ==> LawfulName(m)
  {
    hide NameText, FitsHeader, PayloadSize, LawfulName, Tar.Shaped, Tar.NameLawful, Writes, H.IsRegular, S.IsDirectory;
    if ts != [] {
      assert ms[0] in ms && Writes(ts[0], ms[0], ctx);
      WrittenShape(ts[0], ms[0], ctx);
      WrittenName(ts[0], ms[0], ctx);
      WrittenPayload(ts[0], ms[0], ctx);
      assert forall m :: m in ms[1..] ==> m in ms;
      WrittenTotals(ts[1..], ms[1..], ctx);
      assert forall t :: t in ts <==> t == ts[0] || t in ts[1..];
      assert forall m :: m in ms <==> m == ms[0] || m in ms[1..];
    }
  }

  lemma WrittenPayload(t: Tar.TarMember, m: Member, ctx: Context)
    requires Writes(t, m, ctx)
    ensures |t.payload| == PayloadSize(ctx)(m)
  {
  }

  ghost function One(path: Path): nat {
    1
  }

  ghost function Nothing(path: Path): nat {
    0
  }

  /** Members, files, directories and payload of a finished build are those of its manifest. */
  lemma BuiltTotals(entries: seq<Named>, ctx: Context, p: Progress)
    requires Built(entries, ctx, p)
    ensures |p.members| == |ctx.manifest| + |ctx.directories|
    ensures Total(p.members, IsKind(T.RegularFile)) == |ctx.manifest|
    ensures Total(p.members, IsKind(T.Directory)) == |ctx.directories|
    ensures Total(p.members, PayloadSize(ctx)) == PayloadBytes(ctx.manifest)
  {
    hide *;
    var files, directories := ctx.manifest.Keys, ctx.directories;
    forall path ensures
      && IsKind(T.RegularFile)(FileMember(ctx)(path)) == One(path)
      && IsKind(T.RegularFile)(DirectoryMember(ctx)(path)) == Nothing(path)
      && IsKind(T.Directory)(FileMember(ctx)(path)) == Nothing(path)
      && IsKind(T.Directory)(DirectoryMember(ctx)(path)) == One(path)
      && PayloadSize(ctx)(FileMember(ctx)(path)) == SizeIn(ctx.manifest)(path)
      && PayloadSize(ctx)(DirectoryMember(ctx)(path)) == Nothing(path)
    {
      KindsOfMembers(ctx, path);
    }
    MemberTotal(entries, ctx, p, IsKind(T.RegularFile), One, Nothing);
    MemberTotal(entries, ctx, p, IsKind(T.Directory), Nothing, One);
    MemberTotal(entries, ctx, p, PayloadSize(ctx), SizeIn(ctx.manifest), Nothing);
    CountsOf(files);
    CountsOf(directories);
    PayloadIs(ctx.manifest);
    assert |files| == |ctx.manifest|;
  }

  lemma KindsOfMembers(ctx: Context, path: Path)
    ensures IsKind(T.RegularFile)(FileMember(ctx)(path)) == One(path)
    ensures IsKind(T.RegularFile)(DirectoryMember(ctx)(path)) == Nothing(path)
    ensures IsKind(T.Directory)(FileMember(ctx)(path)) == Nothing(path)
    ensures IsKind(T.Directory)(DirectoryMember(ctx)(path)) == One(path)
    ensures PayloadSize(ctx)(FileMember(ctx)(path)) == SizeIn(ctx.manifest)(path)
    ensures PayloadSize(ctx)(DirectoryMember(ctx)(path)) == Nothing(path)
  {
    assert (ctx.prefix + path)[|ctx.prefix|..] == path;
  }

  lemma CountsOf(s: set<Path>)
    ensures SumOver(s, One) == |s| && SumOver(s, Nothing) == 0
  {
    SumConstant(s, One, 1);
    SumConstant(s, Nothing, 0);
  }

  lemma PayloadIs(manifest: Manifest)
    ensures PayloadBytes(manifest) == SumOver(manifest.Keys, SizeIn(manifest))
  {
  }

  // ----- The whole way -------------------------------------------------------------------

  lemma LimitsMatch()
    ensures MAX_TREE_BYTES == S.MAX_EXPANDED_BYTES && MAX_ARCHIVE_FILES == S.MAX_FILES
    ensures MAX_ARCHIVE_DIRECTORIES == S.MAX_DIRECTORIES && S.MAX_MEMBERS == S.MAX_FILES + S.MAX_DIRECTORIES
  {
  }

  lemma HasRoomIs(ts: seq<Tar.TarMember>)
    ensures Tar.HasRoom(ts, S.NO_MEMBERS) <==>
      && (forall t :: t in ts ==> Tar.Shaped(t)) && Tar.Payload(ts) <= S.MAX_EXPANDED_BYTES && |ts| <= S.MAX_MEMBERS
      && Tar.Members(ts, H.IsRegular) <= S.MAX_FILES && Tar.Members(ts, S.IsDirectory) <= S.MAX_DIRECTORIES
  {
    hide Tar.Shaped;
  }

  /**
   * From the tree to the raw scan: what the builder writes for a checked manifest is accepted by the
   * auditor's scan exactly when every member name is allowed, and then with the build's own counts.
   * None of the scan's limits can refuse it.
   */
  lemma BuiltArchiveScans(entries: seq<Named>, ctx: Context, p: Progress, ts: seq<Tar.TarMember>)
    requires Built(entries, ctx, p) && Checked(ctx) && WritesAll(ts, p.members, ctx)
    ensures
      var r := S.Scan(Tar.Archive(ts), 0, S.NO_MEMBERS);
      && (r.Ok? <==> forall m :: m in p.members ==> LawfulName(m))
      && (r.Ok? ==> r.value == S.Layout(|Tar.Body(ts)|, |p.members|, |ctx.manifest|, |ctx.directories|))
  {
    hide *;
    forall m | m in p.members ensures
      && (m.kind == T.RegularFile || m.kind == T.Directory)
      && |NameText(m)| <= H.MAX_NAME_BYTES + 1 && PayloadSize(ctx)(m) <= S.MAX_MEMBER_BYTES
    {
      MemberShape(entries, ctx, p, m);
    }
    AllShapedIs(ts, p.members, ctx);
    WrittenTotals(ts, p.members, ctx);
    BuiltTotals(entries, ctx, p);
    CheckedTotals(ctx);
    LimitsMatch();
    HasRoomIs(ts);
    assert |ctx.manifest.Keys| == |ctx.manifest|;
    Tar.WrittenArchiveExact(ts);
  }

  lemma AllShapedIs(ts: seq<Tar.TarMember>, ms: seq<Member>, ctx: Context)
    requires WritesAll(ts, ms, ctx)
    requires forall m :: m in ms ==>
      && (m.kind == T.RegularFile || m.kind == T.Directory)
      && |NameText(m)| <= H.MAX_NAME_BYTES + 1 && PayloadSize(ctx)(m) <= S.MAX_MEMBER_BYTES
    ensures AllShaped(ts, ms, ctx) && |ts| == |ms|
  {
    hide Writes, NameText, PayloadSize;
  }
}
