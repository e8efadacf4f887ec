/** Adding a tree to the archive: prefix, manifest, walk, and the comparison at the end. */
module SourceBuild {
  import opened Wrappers
  import opened Ordering
  import opened SourceArchive
  import opened SourceBudget
  import opened BuilderAudit
  import opened SourceTree

  datatype TreeError =
    | UnsafePrefix | NotNormalized | LongPrefix
    | BadManifest(ManifestError) | BadTree(WalkError) | MissingFile

  // ----- The prefix ----------------------------------------------------------------------

  /** All parts between slashes, empty ones and dots too. */
  function SplitSlash(text: string, part: Name): (parts: seq<Name>)
    ensures parts != []
  {
    if text == "" then [part]
    else if text[0] == '/' then [part] + SplitSlash(text[1..], "")
    else SplitSlash(text[1..], part + [text[0]])
  }

  lemma {:induction false} SplitJoins(text: string, part: Name)
    requires '/' !in part
    ensures JoinPath(SplitSlash(text, part)) == part + text
    ensures forall p :: p in SplitSlash(text, part) ==> '/' !in p
  {
    if text == "" {
      assert part + text == part;
    } else if text[0] == '/' {
      SplitJoins(text[1..], "");
      var rest := SplitSlash(text[1..], "");
      assert ([part] + rest)[1..] == rest;
      assert part + "/" + ("" + text[1..]) == part + text;
    } else {
      SplitJoins(text[1..], part + [text[0]]);
      assert part + [text[0]] + text[1..] == part + text;
    }
  }

  /** Without empty parts and dots, a pure path has exactly the parts between slashes. */
  lemma {:induction false} ParsesSplit(text: string, part: Name)
    requires forall p :: p in SplitSlash(text, part) ==> p != "" && p != "."
    ensures ParsePath(text, part) == SplitSlash(text, part)
  {
    if text == "" {
      assert part in SplitSlash(text, part);
    } else if text[0] == '/' {
      var rest := SplitSlash(text[1..], "");
      assert SplitSlash(text, part) == [part] + rest;
      assert part in [part] + rest && forall p :: p in rest ==> p in [part] + rest;
      ParsesSplit(text[1..], "");
    } else {
      assert SplitSlash(text, part) == SplitSlash(text[1..], part + [text[0]]);
      ParsesSplit(text[1..], part + [text[0]]);
    }
  }

  lemma {:induction false} SplitsPart(name: Name, rest: string, part: Name)
    requires '/' !in name
    ensures SplitSlash(name + rest, part) == SplitSlash(rest, part + name)
  {
    if name == "" {
      assert name + rest == rest && part + name == part;
    } else {
      assert (name + rest)[1..] == name[1..] + rest;
      SplitsPart(name[1..], rest, part + [name[0]]);
      assert part + [name[0]] + name[1..] == part + name;
    }
  }

  /** Splitting a joined path gives its parts. */
  lemma {:induction false} SplitsJoined(path: Path)
    requires path != [] && forall i :: 0 <= i < |path| ==> '/' !in path[i]
    ensures SplitSlash(JoinPath(path), "") == path
  {
    var rest := if |path| == 1 then "" else "/" + JoinPath(path[1..]);
    assert JoinPath(path) == path[0] + rest;
    SplitsPart(path[0], rest, "");
    assert "" + path[0] == path[0];
    if |path| > 1 {
      SplitsJoined(path[1..]);
      assert rest[1..] == JoinPath(path[1..]);
      assert [path[0]] + path[1..] == path;
    }
  }

  /** The parts of a prefix. */
  function Parts(prefix: string): Path {
    ParsePath(prefix, "")
  }

  /** A prefix is the text of a nonempty path of safe names, and not too long. */
  predicate SafePrefix(prefix: string) {
    var path := Parts(prefix);
    && path != [] && (forall i :: 0 <= i < |path| ==> SafeName(path[i]))
    && prefix == JoinPath(path) && NameBytes(prefix) <= MAX_PATH_BYTES
  }

  /** The three tests on the prefix; the test for a normal form can no longer fail. */
  method CheckPrefix(prefix: string) returns (problem: Option<TreeError>)
    ensures problem.None? <==> SafePrefix(prefix)
    ensures problem.None? || problem == Some(UnsafePrefix) || problem == Some(LongPrefix)
  {
    hide SplitSlash, ParsePath, JoinPath, NameBytes;
    var parts := SplitSlash(prefix, "");
    PrefixExact(prefix);
    if prefix == "" || prefix[0] == '/' || "" in parts || "." in parts || ".." in parts {
      return Some(UnsafePrefix);
    }
    if JoinPath(Parts(prefix)) != prefix {
      return Some(NotNormalized);
    }
    if NameBytes(prefix) > MAX_PATH_BYTES {
      return Some(LongPrefix);
    }
    return None;
  }

  lemma PrefixExact(prefix: string)
    ensures
      var parts := SplitSlash(prefix, "");
      && (prefix == "" || prefix[0] == '/' ==> "" in parts)
      && ("" !in parts && "." !in parts && ".." !in parts ==>
            Parts(prefix) == parts && JoinPath(parts) == prefix && forall p :: p in parts ==> SafeName(p))
      && (SafePrefix(prefix) ==> "" !in parts && "." !in parts && ".." !in parts)
  {
    SplitJoins(prefix, "");
    assert "" + prefix == prefix;
    var parts := SplitSlash(prefix, "");
    if "" !in parts && "." !in parts {
      ParsesSplit(prefix, "");
    }
    if SafePrefix(prefix) {
      SplitsJoined(Parts(prefix));
    }
  }

  // ----- The tree ------------------------------------------------------------------------

  /**
   * Succeeds exactly when the prefix is safe, the manifest is valid and within the limits, and the
   * tree holds exactly the files of the manifest and no folder without one. Then the archive is a
   * finished build, and the auditor's topology check is content exactly when the prefix is one name
   * or there was nothing to add.
   */
  method AddTree(entries: seq<Named>, prefix: string, manifest: Manifest, order: seq<Path>)
    returns (r: Result<Progress, TreeError>)
    requires DistinctEntries(entries) && Enumerates(order, manifest.Keys)
    ensures r.Ok? <==>
      && SafePrefix(prefix) && ValidEntries(manifest, Parts(prefix)) && WithinArchive(manifest)
      && Describes(manifest, Directory(entries))
    ensures r.Ok? ==> Built(entries, Context(Parts(prefix), manifest, Directories(manifest.Keys)), r.value)
    ensures r.Ok? ==> (AuditReport(r.value.members) == [] <==> |Parts(prefix)| == 1 || manifest == map[])
  {
    hide ValidEntries, WithinArchive, Describes, Directories, DistinctEntries, Enumerates, WalkDirectory,
      AuditReport, ParsePath;
    var unsafePrefix := CheckPrefix(prefix);
    if unsafePrefix.Some? {
      return Err(unsafePrefix.value);
    }
    var path := Parts(prefix);
    var directories := ValidateArchiveManifest(manifest, order, path);
    if directories.Err? {
      return Err(BadManifest(directories.error));
    }
    var ctx := Context(path, manifest, directories.value);
    TreeExact(entries, ctx);
    var archive := new TarBuilder();
    var error := archive.ArchiveDirectory(entries, [], 0, ctx);
    if error.Some? {
      return Err(BadTree(error.value));
    }
    if archive.seen != manifest.Keys {
      return Err(MissingFile);
    }
    r := Ok(archive.State());
    DirectoriesImplied(manifest);
    BuiltArchiveAccepted(entries, ctx, r.value);
    NothingToAdd(entries, ctx, r.value);
  }

  lemma NothingToAdd(entries: seq<Named>, ctx: Context, p: Progress)
    requires Built(entries, ctx, p)
    ensures p.members == [] <==> ctx.manifest == map[]
  {
    hide WalkDirectory, DistinctEntries, InOrder, ParentsWithin, Under;
    BuiltBlock(entries, ctx, p);
    if p.members != [] {
      assert Expected(p.members[0], ctx);
    }
  }
}
