/** Publishing the source archive: stage, keep a rollback link, replace, verify, clean up. */
module SourcePublish {
  import opened Wrappers
  import opened Bytes
  import opened ArchiveWriter
  import opened OutputDirectory
  import opened PublishLayout

  const MAX_SOURCE_ARCHIVE_BYTES: nat := 536_870_912
  const COPY_BUFFER_BYTES: nat := 1_048_576
  const ATTEMPTS := 128

  type Files = map<nat, File>

  /** The regular file that has the output name, if there is one. */
  function Archive(links: Links, files: Files): Option<nat> {
    if Output in links && links[Output] in files && files[links[Output]].regular then Some(links[Output]) else None
  }

  /** The names the run found reach known files, and the archive is what Output named. */
  predicate StartsFrom(original: Links, archive: Option<nat>, files: Files) {
    (forall n :: n in original ==> original[n] in files) && archive == Archive(original, files)
  }

  lemma StillStartsFrom(original: Links, archive: Option<nat>, before: Files, now: Files)
    requires StartsFrom(original, archive, before)
    requires forall i :: i in before ==> i in now && now[i].regular == before[i].regular
    ensures StartsFrom(original, archive, now)
  {
  }

  /** Files that were there before are untouched. */
  predicate Untouched(before: Files, now: Files) {
    forall i :: i in before ==> i in now && now[i] == before[i]
  }

  lemma StagedLinkCount(dir: Directory, held: Held, name: Name)
    requires dir.Valid() && held.Describes(dir.links)
    requires if held.current then name == Output else held.stagedName == Some(name)
    requires held.staged in dir.files && dir.files[held.staged].regular && dir.files[held.staged].elsewhere == 0
    ensures dir.SoleName(name, held.staged)
  {
    held.StagedIsSole(name);
    assert LinkedNames(dir.links, held.staged) == {name};
  }

  lemma KeptLonger(before: seq<Links>, middle: seq<Links>, now: seq<Links>, links: Links, archive: Option<nat>)
    requires KeptSince(before, middle, archive) && Preserved(links, archive)
    requires now == middle || now == middle + [links]
    ensures KeptSince(before, now, archive)
  {
  }

  /** The local state of one publishing run. */
  class Publication {
    const dir: Directory
    var stagedName: Option<Name>
    var staged: nat
    var backupName: Option<Name>
    var backup: nat
    var replaced: bool
    var published: bool
    /** What the run holds, and the states the directory went through before the run. */
    ghost var held: Held
    ghost const since: seq<Links>
    /** The rename to the output name raised although it had taken effect. */
    ghost var lost: bool
    /** A create or link raised although it had taken effect: nobody knows the new name. */
    ghost var orphaned: bool
    /** A clean-up call failed and left a name of this run. */
    ghost var leftBehind: bool
    /** System calls that failed while the run was cleaning up after itself. */
    ghost var cleanupFaults: nat
    ghost var publishedAt: nat

    /** The fields mean what the directory shows. */
    ghost predicate Linked()
      reads this, dir
    {
      && dir.Valid() && held.Describes(dir.links)
      && held.stagedName == (if replaced || lost then None else stagedName)
      && (held.backupName.Some? ==> held.backupName == backupName)
      && (backupName.Some? ==>
            held.archive == Some(backup) && (held.backupName.None? ==> backupName.value !in dir.links))
      && (held.current ==> replaced || lost) && (replaced ==> stagedName.Some?)
      && (lost ==> held.current && !replaced && !published && (stagedName.Some? ==> stagedName.value !in dir.links))
      && (stagedName.Some? ==>
            && held.staged == staged && staged in dir.files
            && dir.files[staged].regular && dir.files[staged].elsewhere == 0)
      && StartsFrom(held.original, held.archive, dir.files)
      && (held.stray == map[] <==> !orphaned && !leftBehind)
      && (cleanupFaults == 0 ==> !leftBehind)
    }

    /** Not published: the earlier archive has had a name in every state so far. */
    ghost predicate Pending()
      reads this, dir
    {
      && Linked() && !published
      && (held.current && held.archive.Some? ==> held.backupName.Some?)
      && KeptSince(since, dir.trace, held.archive)
    }

    /** Published: the earlier archive had a name in every state up to that moment. */
    ghost predicate AtPublication()
      reads this, dir
    {
      && published && held.current
      && publishedAt <= |dir.trace| && KeptSince(since, dir.trace[..publishedAt], held.archive)
    }

    constructor (dir: Directory)
      requires dir.Valid()
      ensures Pending() && this.dir == dir && since == dir.trace && cleanupFaults == 0
      ensures Fresh()
      ensures held == Held(dir.links, Archive(dir.links, dir.files), None, 0, None, false, map[])
    {
      this.dir := dir;
      stagedName := None;
      staged := 0;
      backupName := None;
      backup := 0;
      replaced := false;
      published := false;
      held := Held(dir.links, Archive(dir.links, dir.files), None, 0, None, false, map[]);
      since := dir.trace;
      lost, orphaned, leftBehind := false, false, false;
      cleanupFaults := 0;
      publishedAt := 0;
    }

    /** Nothing done yet. */
    ghost predicate Fresh()
      reads this
    {
      && stagedName.None? && backupName.None? && !replaced && !lost && !orphaned && !leftBehind
      && cleanupFaults == 0
    }

    method Token() returns (token: nat)
    {
      var n: int := *;
      token := if n < 0 then 0 else n;
    }

    /** A create that raises after taking effect leaves a name nobody will remove. */
    method CreateStaged(name: Name) returns (r: Result<nat, Errno>)
      requires Pending() && stagedName.None? && backupName.None? && !replaced && !lost && name.Temp?
      modifies this`stagedName, this`staged, this`held, this`orphaned, dir
      ensures Pending() && Untouched(old(dir.files), dir.files)
      ensures held == old(held).(stagedName := stagedName, staged := held.staged, stray := held.stray)
      ensures if r.Ok? then
          && stagedName.Some? && staged !in old(dir.files) && orphaned == old(orphaned)
          && dir.files[staged] == File(true, [], 0)
        else stagedName.None? && (r != Err(Fault) ==> orphaned == old(orphaned))
      ensures old(orphaned) ==> orphaned
    {
      hide StartsFrom, Held.Ok, Held.Table, Held.Describes, KeptSince, Preserved;
      ghost var links, trace := dir.links, dir.trace;
      ghost var took;
      r, took := dir.Create(name);
      StillStartsFrom(held.original, held.archive, old(dir.files), dir.files);
      if took {
        held.AddStaged(links, name, dir.links[name]);
        held := held.(stagedName := Some(name), staged := dir.links[name]);
        held.PreservedExact(dir.links);
        KeptLonger(since, trace, dir.trace, dir.links, held.archive);
      }
      if r.Ok? {
        stagedName, staged := Some(name), r.value;
      } else if took {
        held.RemoveStaged(dir.links);
        held := held.(stagedName := None, stray := held.stray[name := dir.links[name]]);
        orphaned := true;
      }
    }

    /** Creates a staging file under a fresh name, or takes it back when it cannot be inspected. */
    method OpenUniqueStagedOutput() returns (raised: bool)
      requires Pending() && stagedName.None? && backupName.None? && !replaced && !lost
      modifies this`stagedName, this`staged, this`held, this`orphaned, this`leftBehind, this`cleanupFaults, dir
      ensures Pending() && held == old(held).(stagedName := stagedName, staged := held.staged, stray := held.stray)
      ensures raised <==> stagedName.None?
      ensures cleanupFaults >= old(cleanupFaults) && (old(leftBehind) ==> leftBehind) && (old(orphaned) ==> orphaned)
      ensures !raised ==>
        && staged !in old(dir.files) && dir.files[staged].content == []
        && cleanupFaults == old(cleanupFaults) && orphaned == old(orphaned) && leftBehind == old(leftBehind)
      ensures Untouched(old(dir.files), dir.files)
    {
      hide StartsFrom, Held.Ok, Held.Table, Held.Describes, KeptSince, Preserved, Archive, LinkedNames;
      for i := 0 to ATTEMPTS
        invariant Pending() && stagedName.None? && Untouched(old(dir.files), dir.files)
        invariant held == old(held).(staged := held.staged, stray := held.stray)
        invariant cleanupFaults == old(cleanupFaults) && orphaned == old(orphaned) && leftBehind == old(leftBehind)
      {
        var token := Token();
        var created := CreateStaged(Temp(token));
        if created == Err(Fault) {
          return true;
        }
        if created.Ok? {
          var failed := dir.Fails();
          if failed {
            DropStaged();
          }
          return failed;
        }
      }
      raised := true;
    }

    /**
     * Unlinks the staging name if it is still ours alone; a name that survives is left
     * behind. After a lost rename there is no such name any more.
     */
    method DropStaged()
      requires Pending() && stagedName.Some? && !replaced
      modifies this`stagedName, this`held, this`leftBehind, this`cleanupFaults, dir`links, dir`trace, dir`faults
      ensures Pending() && stagedName.None? && cleanupFaults >= old(cleanupFaults)
      ensures if lost then held == old(held) && leftBehind == old(leftBehind)
              else held == old(held).(stagedName := None, stray := held.stray) && (old(leftBehind) ==> leftBehind)
    {
      hide StartsFrom, Held.Ok, Held.Table, Held.Describes, KeptSince, Preserved, Archive, LinkedNames, Spare,
        Directory.Valid;
      ghost var links, trace, before := dir.links, dir.trace, dir.faults;
      var name := stagedName.value;
      if !lost {
        StagedLinkCount(dir, held, name);
        held.RemoveStaged(links);
      }
      var _, took := dir.UnlinkStagedIfOwned(name, staged);
      cleanupFaults := cleanupFaults + (dir.faults - before);
      if !lost {
        leftBehind := leftBehind || !took;
        held := if took then held.(stagedName := None)
                else held.(stagedName := None, stray := held.stray[name := staged]);
        held.PreservedExact(dir.links);
        KeptLonger(since, trace, dir.trace, dir.links, held.archive);
      }
      stagedName := None;
    }

    /** A link that raises after taking effect leaves a name nobody will remove. */
    method LinkBackup(name: Name, inode: nat) returns (r: Result<(), Errno>)
      requires Pending() && stagedName.Some? && backupName.None? && !replaced && !lost && name.Old?
      requires held.archive == Some(inode)
      modifies this`backupName, this`backup, this`held, this`orphaned, dir`links, dir`trace, dir`faults
      ensures Pending() && held == old(held).(backupName := backupName, stray := held.stray)
      ensures if r.Ok? then backupName == Some(name) && backup == inode && orphaned == old(orphaned)
              else backupName.None? && (r != Err(Fault) ==> held == old(held) && orphaned == old(orphaned))
      ensures old(orphaned) ==> orphaned
    {
      hide StartsFrom, Held.Ok, Held.Table, Held.Describes, KeptSince, Preserved, Archive, LinkedNames, Spare,
        Directory.Valid;
      ghost var links, trace := dir.links, dir.trace;
      ghost var took;
      r, took := dir.Link(Output, name);
      if took {
        held.AddBackup(links, name);
        held := held.(backupName := Some(name));
        held.PreservedExact(dir.links);
        KeptLonger(since, trace, dir.trace, dir.links, held.archive);
      }
      if r.Ok? {
        backupName, backup := Some(name), inode;
      } else if took {
        held.RemoveBackup(dir.links);
        held := held.(backupName := None, stray := held.stray[name := inode]);
        orphaned := true;
      }
    }

    /** Makes a rollback name for a regular output and checks that both names reach one file. */
    method CreateExistingOutputBackup() returns (raised: bool)
      requires Pending() && stagedName.Some? && backupName.None? && !replaced && !lost
      modifies this`backupName, this`backup, this`held, this`orphaned, this`leftBehind, this`cleanupFaults,
               dir`links, dir`trace, dir`faults
      ensures Pending() && cleanupFaults >= old(cleanupFaults)
      ensures (old(leftBehind) ==> leftBehind) && (old(orphaned) ==> orphaned)
      ensures held == old(held).(backupName := held.backupName, stray := held.stray)
      ensures raised ==> backupName.None?
      ensures !raised ==>
        && held.backupName == backupName && (backupName.Some? <==> held.archive.Some?)
        && cleanupFaults == old(cleanupFaults) && orphaned == old(orphaned) && leftBehind == old(leftBehind)
    {
      hide Held.Ok, Held.Table, Held.Describes, KeptSince, Preserved;
      held.OutputLink(dir.links);
      var output := dir.Stat(Output);
      if output.Err? {
        return output.error == Fault;
      }
      if !dir.files[output.value].regular {
        return false;
      }
      for i := 0 to ATTEMPTS
        invariant Pending() && backupName.None? && held == old(held) && cleanupFaults == old(cleanupFaults)
        invariant orphaned == old(orphaned) && leftBehind == old(leftBehind)
        invariant held.archive == Some(output.value)
      {
        var token := Token();
        var linked := LinkBackup(Old(token), output.value);
        if linked.Err? && linked.error != Exists {
          return true;
        }
        if linked.Ok? {
          raised := CheckBackup();
          return;
        }
      }
      raised := true;
    }

    /** Opens the new rollback name and compares identities; on any doubt the name is given up. */
    method CheckBackup() returns (raised: bool)
      requires Pending() && held.backupName.Some? && !replaced && !lost
      modifies this`backupName, this`held, this`leftBehind, this`cleanupFaults, dir`links, dir`trace, dir`faults
      ensures Pending() && cleanupFaults >= old(cleanupFaults) && (old(leftBehind) ==> leftBehind)
      ensures held == old(held).(backupName := held.backupName, stray := held.stray)
      ensures raised ==> backupName.None?
      ensures !raised ==>
        && held == old(held) && backupName == old(backupName)
        && cleanupFaults == old(cleanupFaults) && leftBehind == old(leftBehind)
    {
      hide StartsFrom, Held.Ok, Held.Table, Held.Describes, KeptSince, Preserved, Archive, LinkedNames;
      var unopened := dir.Fails();
      if unopened {
        GiveUpBackup(true);
        return true;
      }
      var outputMatches := dir.IdentityMatches(Output, backup);
      var backupMatches := false;
      if outputMatches {
        backupMatches := dir.IdentityMatches(backupName.value, backup);
      }
      if !backupMatches {
        GiveUpBackup(false);
      }
      raised := !backupMatches;
    }

    lemma BackupIsSame()
      requires Linked() && held.backupName.Some?
      ensures dir.SameFile(backupName.value, backup)
    {
      held.RemoveBackup(dir.links);
    }

    /**
     * Unlinks the rollback name: by name alone when it was never opened, otherwise only if
     * it still reaches the backed-up file. An unlink that raises keeps the name in the run's
     * books, whether or not the directory still has it.
     */
    method DropBackup(byName: bool) returns (raised: bool, ghost took: bool)
      requires Linked() && backupName.Some? && (byName ==> held.backupName.Some?)
      requires published || lost || (Pending() && !replaced)
      modifies this`backupName, this`held, this`leftBehind, this`cleanupFaults, dir`links, dir`trace, dir`faults
      ensures Linked() && cleanupFaults >= old(cleanupFaults) && (old(leftBehind) ==> leftBehind)
      ensures held == old(held).(backupName := held.backupName, stray := held.stray)
      ensures held.backupName.Some? ==> raised && held == old(held) && cleanupFaults > 0
      ensures !raised ==> backupName.None?
      ensures took ==>
        && dir.trace == old(dir.trace) + [dir.links] && held == old(held).(backupName := None)
        && leftBehind == old(leftBehind)
      ensures !took ==>
        && dir.links == old(dir.links) && dir.trace == old(dir.trace) && (leftBehind || held == old(held))
    {
      hide StartsFrom, Held.Ok, Held.Table, Held.Describes, KeptSince, Preserved, LinkedNames, Archive,
        Directory.SameFile, Directory.Valid, Spare;
      BackupFacts();
      raised, took := UnlinkBackup(byName);
      if took {
        held := held.(backupName := None);
      } else if held.backupName.Some? && !raised {
        held := held.(backupName := None, stray := held.stray[backupName.value := backup]);
        leftBehind := true;
      }
      if !raised {
        backupName := None;
      }
    }

    method UnlinkBackup(byName: bool) returns (raised: bool, ghost took: bool)
      requires Linked() && backupName.Some? && (byName ==> held.backupName.Some?)
      modifies this`cleanupFaults, dir`links, dir`trace, dir`faults
      ensures dir.Valid() && cleanupFaults >= old(cleanupFaults)
      ensures took ==>
        && held.backupName.Some? && dir.links == old(dir.links) - {backupName.value}
        && dir.trace == old(dir.trace) + [dir.links]
      ensures !took ==>
        && dir.links == old(dir.links) && dir.trace == old(dir.trace)
        && (held.backupName.Some? || raised ==> cleanupFaults > 0)
    {
      hide StartsFrom, Held.Ok, Held.Table, Held.Describes, KeptSince, Preserved, LinkedNames, Archive,
        Directory.SameFile, Directory.Valid;
      ghost var before := dir.faults;
      BackupFacts();
      if byName {
        var done;
        done, took := dir.Unlink(backupName.value);
        raised := !done;
      } else {
        raised, took := dir.UnlinkBackupIfOwned(backupName.value, backup);
      }
      cleanupFaults := cleanupFaults + (dir.faults - before);
    }

    /** What the books say about the rollback name: it reaches the archive, or it is gone. */
    lemma BackupFacts()
      requires Linked() && backupName.Some?
      ensures held.backupName.Some? ==>
        && dir.SameFile(backupName.value, backup) && backupName.value in dir.links
        && held.(backupName := None).Describes(dir.links - {backupName.value})
        && held.(backupName := None, stray := held.stray[backupName.value := backup]).Describes(dir.links)
        && held.stray[backupName.value := backup] != map[]
      ensures held.backupName.None? ==> backupName.value !in dir.links && !dir.SameFile(backupName.value, backup)
    {
      if held.backupName.Some? {
        held.RemoveBackup(dir.links);
        BackupIsSame();
      }
    }

    /** The caller never learns the name, so whatever cannot be unlinked is left behind. */
    method GiveUpBackup(byName: bool)
      requires Pending() && held.backupName.Some? && !replaced && !lost
      modifies this`backupName, this`held, this`leftBehind, this`cleanupFaults, dir`links, dir`trace, dir`faults
      ensures Pending() && backupName.None? && cleanupFaults >= old(cleanupFaults) && (old(leftBehind) ==> leftBehind)
      ensures held == old(held).(backupName := None, stray := held.stray)
    {
      hide StartsFrom, Held.Ok, Held.Table, Held.Describes, KeptSince, Preserved, LinkedNames, Spare, Directory.Valid;
      ghost var trace := dir.trace;
      var _, _ := DropBackup(byName);
      StillPending(trace);
      if held.backupName.Some? {
        held.RemoveBackup(dir.links);
        held := held.(backupName := None, stray := held.stray[backupName.value := backup]);
        leftBehind := true;
      }
      backupName := None;
    }

    /** While the output name is the archive's, unlinking other names changes nothing for it. */
    lemma StillPending(trace: seq<Links>)
      requires Linked() && !published && !held.current && KeptSince(since, trace, held.archive)
      requires dir.trace == trace || dir.trace == trace + [dir.links]
      ensures Pending()
    {
      hide StartsFrom, Held.Ok, Held.Table, Held.Describes, KeptSince, Preserved, LinkedNames, Spare, Directory.Valid;
      held.PreservedExact(dir.links);
      KeptLonger(since, trace, dir.trace, dir.links, held.archive);
    }

    /** Exactly the staged descriptor, private and within the limit. */
    method VerifyCompressedArchiveSize() returns (ok: bool)
      requires Linked() && stagedName.Some?
      modifies dir`faults
      ensures ok ==> |dir.files[staged].content| <= MAX_SOURCE_ARCHIVE_BYTES
    {
      var failed := dir.Fails();
      if failed {
        return false;
      }
      var file := dir.files[staged];
      ok := file.regular && dir.LinkCount(staged) == 1 && |file.content| <= MAX_SOURCE_ARCHIVE_BYTES;
    }

    /** Reads the staged file back in pieces of any size and compares length and digest. */
    method VerifyDescriptorPayload(expected: bytes) returns (ok: bool)
      requires Linked() && stagedName.Some?
      modifies dir`faults
      ensures ok ==> dir.files[staged].content == expected
    {
      if |expected| > MAX_SOURCE_ARCHIVE_BYTES {
        return false;
      }
      var content := dir.files[staged].content;
      var total := 0;
      var more := true;
      while more && total <= |expected|
        invariant 0 <= total <= |content|
        invariant !more ==> total == |content|
        decreases more, |expected| + 1 - total
      {
        var failed := dir.Fails();
        if failed {
          return false;
        }
        var chunk: int := *;
        var limit := if |expected| + 1 - total < COPY_BUFFER_BYTES then |expected| + 1 - total else COPY_BUFFER_BYTES;
        if !(0 < chunk <= limit && chunk <= |content| - total) {
          chunk := if total == |content| then 0 else 1;
        }
        if chunk == 0 {
          more := false;
        } else {
          total := total + chunk;
        }
      }
      ok := total == |expected| && content[..total] == expected;
    }

    /** Writes the compressed stream to the staged file and checks what arrived. */
    method WriteStaged(chunks: seq<bytes>) returns (ok: bool)
      requires Pending() && stagedName.Some? && !replaced && !lost && dir.files[staged].content == []
      modifies dir`files, dir`faults
      ensures Pending()
      ensures dir.files == old(dir.files)[staged := dir.files[staged]]
      ensures ok ==> dir.files[staged].content == Concat(chunks)
    {
      hide StartsFrom, Held.Ok, Held.Table, Held.Describes, KeptSince, Preserved, LinkedNames, Archive;
      var raw := new DescriptorWriter(dir, staged, MAX_SOURCE_ARCHIVE_BYTES);
      ok := raw.WriteAll(chunks);
      StillStartsFrom(held.original, held.archive, old(dir.files), dir.files);
      if ok {
        ok := VerifyCompressedArchiveSize();
      }
      ok := ok && |dir.files[staged].content| == raw.bytesWritten;
    }

    /** Stages the compressed stream; on success the staged file holds it and nothing else. */
    method StageArchive(chunks: seq<bytes>) returns (raised: bool)
      requires Pending() && Fresh()
      modifies this`stagedName, this`staged, this`held, this`orphaned, this`leftBehind, this`cleanupFaults, dir
      ensures Pending() && held == old(held).(stagedName := stagedName, staged := held.staged, stray := held.stray)
      ensures Untouched(old(dir.files), dir.files) && (stagedName.Some? ==> staged !in old(dir.files))
      ensures !raised ==>
        && stagedName.Some? && cleanupFaults == 0 && !orphaned && !leftBehind
        && dir.files[staged].content == Concat(chunks)
    {
      hide StartsFrom, Held.Ok, Held.Table, Held.Describes, KeptSince, Preserved, LinkedNames, Archive;
      raised := OpenUniqueStagedOutput();
      if raised {
        return;
      }
      var ok := WriteStaged(chunks);
      if !ok {
        return true;
      }
      var failed := dir.Fails();
      if failed {
        return true;
      }
      var matches := dir.MatchesName(stagedName.value, staged);
      if !matches {
        return true;
      }
      ok := VerifyCompressedArchiveSize();
      raised := !ok;
    }

    /**
     * Replaces the output name by the staged file; the rollback name, if any, is made first.
     * A rename that raises after taking effect is lost: the run does not know that it replaced.
     */
    method ReplaceOutput() returns (raised: bool)
      requires Pending() && stagedName.Some? && backupName.None? && !replaced && !lost
      requires cleanupFaults == 0 && !orphaned && !leftBehind
      modifies this`backupName, this`backup, this`replaced, this`lost, this`held, this`orphaned, this`leftBehind,
               this`cleanupFaults, dir`links, dir`trace, dir`faults
      ensures Pending() && held.current == (replaced || lost)
      ensures held == old(held).(stagedName := held.stagedName, backupName := held.backupName,
                                 current := held.current, stray := held.stray)
      ensures !raised ==> replaced
      ensures replaced || lost ==> cleanupFaults == 0 && !orphaned && !leftBehind && held.backupName == backupName
    {
      hide StartsFrom, Held.Ok, Held.Table, Held.Describes, KeptSince, Preserved, LinkedNames, Archive;
      raised := CreateExistingOutputBackup();
      if raised {
        return;
      }
      if backupName.Some? {
        var failed := dir.Fails();
        if failed {
          return true;
        }
        var matches := dir.IdentityMatches(Output, backup);
        if !matches {
          return true;
        }
      }
      raised := RenameOverOutput();
    }

    method RenameOverOutput() returns (raised: bool)
      requires Pending() && stagedName.Some? && !replaced && !lost && !held.current
      requires held.backupName == backupName && (backupName.Some? <==> held.archive.Some?)
      modifies this`replaced, this`lost, this`held, dir`links, dir`trace, dir`faults
      ensures Pending() && held.current == (replaced || lost) && (raised <==> !replaced)
      ensures held == old(held).(stagedName := held.stagedName, current := held.current)
    {
      hide StartsFrom, Held.Ok, Held.Table, Held.Describes, KeptSince, Preserved, LinkedNames, Archive,
        Directory.Valid;
      ghost var links, trace := dir.links, dir.trace;
      held.ReplaceOutput(links);
      var done, took := dir.Replace(stagedName.value, Output);
      if took {
        held := held.(stagedName := None, current := true);
        held.PreservedExact(dir.links);
        KeptLonger(since, trace, dir.trace, dir.links, held.archive);
        lost := !done;
      }
      if done {
        replaced := true;
      }
      raised := !done;
    }

    method VerifyPublished(expected: bytes) returns (ok: bool)
      requires Pending() && replaced
      modifies dir`faults
      ensures Pending()
      ensures ok ==> dir.files[staged].content == expected
    {
      hide StartsFrom, Held.Ok, Held.Table, Held.Describes, KeptSince, Preserved, LinkedNames, Archive;
      ok := dir.MatchesName(Output, staged);
      if ok {
        ok := VerifyCompressedArchiveSize();
      }
      if ok {
        ok := VerifyDescriptorPayload(expected);
      }
      if ok {
        var failed := dir.Fails();
        ok := !failed;
      }
    }

    /** Checks the published file, then lets the rollback name go. */
    method Publish(expected: bytes) returns (raised: bool)
      requires Pending() && replaced && held.current && held.backupName == backupName
      modifies this`backupName, this`published, this`publishedAt, this`held, this`leftBehind, this`cleanupFaults,
               dir`links, dir`trace, dir`faults
      ensures Linked() && held == old(held).(backupName := held.backupName, stray := held.stray)
      ensures published ==> AtPublication() && dir.files[staged].content == expected
      ensures !published ==>
        && Pending() && cleanupFaults == old(cleanupFaults) && held == old(held) && backupName == old(backupName)
        && leftBehind == old(leftBehind)
      ensures held.backupName.Some? && published ==> cleanupFaults > 0
      ensures !raised ==> published && backupName.None?
    {
      hide StartsFrom, Held.Ok, Held.Table, Held.Describes, KeptSince, Preserved, LinkedNames, Archive;
      var ok := VerifyPublished(expected);
      if !ok {
        return true;
      }
      published := true;
      publishedAt := |dir.trace|;
      ghost var trace := dir.trace;
      assert trace[..publishedAt] == trace;
      raised := false;
      if backupName.Some? {
        ghost var took;
        raised, took := DropBackup(false);
      }
      assert dir.trace[..publishedAt] == trace;
    }

    /** The guarded part of the run, up to the first failure. */
    method Attempt(chunks: seq<bytes>) returns (raised: bool)
      requires Pending() && Fresh()
      modifies this, dir
      ensures Linked() && held.current == (replaced || lost) && (if published then AtPublication() else Pending())
      ensures held.original == old(held).original && held.archive == old(held).archive
      ensures Untouched(old(dir.files), dir.files)
      ensures replaced || lost ==>
        && held.staged == staged && staged !in old(dir.files) && staged in dir.files
        && dir.files[staged].content == Concat(chunks)
      ensures (published ==> replaced) && (lost ==> raised && !replaced && Alone())
      ensures !published && (replaced || lost) ==> held.backupName == backupName
      ensures !raised ==> published
    {
      hide StartsFrom, Held.Ok, Held.Table, Held.Describes, KeptSince, Preserved, LinkedNames, Archive, Concat;
      raised := StageArchive(chunks);
      if !raised {
        raised := ReplaceOutput();
      }
      if !raised {
        raised := Publish(Concat(chunks));
      }
    }

    /** No name of this run has gone astray. */
    ghost predicate Alone()
      reads this
    {
      !orphaned && !leftBehind && held.stray == map[]
    }

    /** The rollback rename: one atomic step from the staged file back to the earlier archive. */
    method RestoreBackup() returns (done: bool)
      requires Pending() && replaced && !lost && held.current && held.backupName.Some?
      modifies this`backupName, this`held, dir`links, dir`trace, dir`faults
      ensures Pending()
      ensures held == old(held).(backupName := None, current := false) || held == old(held)
      ensures if done then held.backupName.None? && dir.faults == old(dir.faults) else dir.faults > old(dir.faults)
    {
      hide StartsFrom, Held.Ok, Held.Table, Held.Describes, KeptSince, Preserved, LinkedNames, Archive,
        Directory.Valid, Directory.SoleName;
      ghost var links, trace := dir.links, dir.trace;
      held.RollBack(links);
      ghost var took;
      done, took := dir.Replace(backupName.value, Output);
      if took {
        held := held.(backupName := None, current := false);
        held.PreservedExact(dir.links);
        KeptLonger(since, trace, dir.trace, dir.links, held.archive);
      }
      if done {
        backupName := None;
      }
    }

    /** Gives the earlier archive its name back when the output is still the staged file. */
    method Rollback()
      requires Pending() && held.current == (replaced || lost) && (replaced ==> held.backupName == backupName)
      modifies this`backupName, this`held, this`cleanupFaults, dir`links, dir`trace, dir`faults
      ensures Pending() && cleanupFaults >= old(cleanupFaults)
      ensures held == old(held).(backupName := held.backupName, current := held.current)
      ensures replaced && held.current && held.archive.Some? ==> cleanupFaults > 0
      ensures replaced && !held.current ==> held.backupName.None?
      ensures !replaced || held.archive.None? ==> held == old(held)
    {
      hide StartsFrom, Held.Ok, Held.Table, Held.Describes, KeptSince, Preserved, LinkedNames, Archive,
        Directory.Valid, Directory.SoleName;
      if replaced && backupName.Some? {
        ghost var before := dir.faults;
        StagedLinkCount(dir, held, Output);
        var matches := dir.MatchesName(Output, staged);
        var done := false;
        if matches {
          done := RestoreBackup();
        }
        if done {
          var _ := dir.IdentityMatches(Output, backup);
        }
        cleanupFaults := cleanupFaults + (dir.faults - before);
      }
    }

    /** Whether the archive's last name was taken by the clean-up after a lost rename. */
    ghost predicate ArchiveGone()
      reads this
    {
      lost && held.archive.Some? && !leftBehind && !Spare(held.original, held.archive.value)
    }

    /**
     * Unlinks the rollback name once it is not needed. After a lost rename the run takes it
     * for unneeded although it is the archive's last name.
     */
    method DropUnneededBackup()
      requires Linked() && held.stagedName.None? && (if published then AtPublication() else Pending())
      requires lost ==> Alone()
      requires !published && replaced && held.backupName.Some? ==> cleanupFaults > 0
      modifies this`backupName, this`held, this`leftBehind, this`cleanupFaults, dir`links, dir`trace, dir`faults
      ensures cleanupFaults >= old(cleanupFaults) && dir.Valid() && held.Describes(dir.links)
      ensures held == old(held).(backupName := None, stray := held.stray)
      ensures held.stray == map[] <==> !orphaned && !leftBehind
      ensures cleanupFaults == 0 ==> !leftBehind
      ensures if published then AtPublication()
              else KeptSince(since, dir.trace, held.archive) <==> !ArchiveGone()
    {
      hide StartsFrom, Held.Ok, Held.Table, Held.Describes, KeptSince, Preserved, LinkedNames, Archive,
        Directory.Valid, Spare;
      ghost var trace := dir.trace;
      if backupName.Some? && (published || !replaced) {
        var _, took := DropBackup(false);
        if lost && took {
          GoneAfterLost(trace);
        } else if !published && !lost {
          StillPending(trace);
        }
      }
      if published {
        assert dir.trace[..publishedAt] == trace[..publishedAt];
      }
      if held.backupName.Some? {
        held.RemoveBackup(dir.links);
        held := held.(backupName := None, stray := held.stray[backupName.value := backup]);
        leftBehind := true;
      }
    }

    /** After a lost rename, the clean-up's unlink is the moment the archive loses its name. */
    lemma GoneAfterLost(trace: seq<Links>)
      requires Linked() && lost && Alone() && held.backupName.None? && held.archive.Some?
      requires KeptSince(since, trace, held.archive) && dir.trace == trace + [dir.links]
      ensures KeptSince(since, dir.trace, held.archive) <==> Spare(held.original, held.archive.value)
    {
      held.PreservedExact(dir.links);
      assert dir.trace[|trace|] == dir.links;
      if Preserved(dir.links, held.archive) {
        KeptLonger(since, trace, dir.trace, dir.links, held.archive);
      }
    }

    /** The final clean-up: own staging name while unpublished, then the rollback name. */
    method CleanUp()
      requires Linked() && (if published then AtPublication() else Pending())
      requires lost ==> Alone()
      requires !published && replaced && held.backupName.Some? ==> cleanupFaults > 0
      modifies this`stagedName, this`backupName, this`held, this`leftBehind, this`cleanupFaults,
               dir`links, dir`trace, dir`faults
      ensures cleanupFaults >= old(cleanupFaults) && dir.Valid() && held.Describes(dir.links)
      ensures held == old(held).(stagedName := None, backupName := None, stray := held.stray)
      ensures held.stray == map[] <==> !orphaned && !leftBehind
      ensures cleanupFaults == 0 ==> !leftBehind
      ensures if published then AtPublication()
              else KeptSince(since, dir.trace, held.archive) <==> !ArchiveGone()
    {
      hide StartsFrom, Held.Ok, Held.Table, Held.Describes, KeptSince, Preserved, LinkedNames, Archive,
        Directory.Valid, Spare;
      if stagedName.Some? && !published && !replaced {
        DropStaged();
      }
      DropUnneededBackup();
    }

    /** The output name has to end up with the staged file: nothing can be put back. */
    ghost predicate KeepsNew()
      reads this
    {
      lost || (replaced && (published || held.archive.None?))
    }

    /** The handler and the final clause of the run: roll back if need be, then clean up. */
    method Finish(raised: bool)
      requires Linked() && held.current == (replaced || lost) && (if published then AtPublication() else Pending())
      requires (lost ==> raised && Alone()) && (!raised ==> published)
      requires !published && (replaced || lost) ==> held.backupName == backupName
      modifies this`stagedName, this`backupName, this`held, this`leftBehind, this`cleanupFaults,
               dir`links, dir`trace, dir`faults
      ensures dir.Valid() && held.Describes(dir.links)
      ensures held == old(held).(stagedName := None, backupName := None, current := held.current, stray := held.stray)
      ensures held.stray == map[] <==> !orphaned && !leftBehind
      ensures cleanupFaults == 0 ==> !leftBehind
      ensures KeepsNew() ==> held.current
      ensures held.current && !KeepsNew() ==> cleanupFaults > 0
      ensures if published then AtPublication()
              else KeptSince(since, dir.trace, held.archive) <==> !ArchiveGone()
    {
      hide StartsFrom, Held.Ok, Held.Table, Held.Describes, KeptSince, Preserved, LinkedNames, Spare, Directory.Valid;
      if raised && !published {
        Rollback();
      }
      CleanUp();
    }
  }

  lemma FinalTable(held: Held, links: Links)
    requires held.Describes(links) && held.stagedName.None? && held.backupName.None?
    ensures held.current ==> Output in links && links[Output] == held.staged
    ensures links == (if held.current then held.original[Output := held.staged] else held.original) + held.stray
    ensures held.stray == map[] <==> forall n :: n in links ==> n in held.original || n == Output
  {
    if held.stray != map[] {
      var n :| n in held.stray;
      assert n in links && n !in held.original && n != Output;
    }
  }

  /**
   * The whole run, with every call free to fail before or after it took effect. Up to
   * publication the earlier archive is reachable in every state exactly when no rename to the
   * output name raised after taking effect, or its consequence was averted: the unlink of the
   * rollback name failed, or another rollback name was there from the start.
   * A name of this run is left exactly when a create or link raised after taking effect or a
   * clean-up call failed. Otherwise a failed run leaves the directory as it was, unless there
   * was no earlier archive to put back. A successful run leaves exactly the compressed stream
   * at the output name.
   */
  method WriteSourceArchive(dir: Directory, chunks: seq<bytes>)
    returns (ok: bool, replaced: bool, published: bool, ghost outcome: Outcome)
    requires dir.Valid()
    modifies dir
    ensures dir.Valid() && Untouched(old(dir.files), dir.files)
    ensures ok ==> published
    ensures published ==> replaced && outcome.publishedAt <= |dir.trace|
    ensures outcome.lostRename ==> !ok && !replaced
    ensures
      var archive := old(Archive(dir.links, dir.files));
      KeptSince(old(dir.trace), if published then dir.trace[..outcome.publishedAt] else dir.trace, archive)
      <==> !(outcome.lostRename && archive.Some? && !outcome.leftBehind && !Spare(old(dir.links), archive.value))
    ensures outcome.cleanupFaults == 0 ==> !outcome.leftBehind
    ensures (forall n :: n in dir.links ==> n in old(dir.links) || n == Output) <==>
      !outcome.orphaned && !outcome.leftBehind
    ensures NewOutput(old(Archive(dir.links, dir.files)), replaced, published, outcome) ==>
      && Output in dir.links && dir.links[Output] !in old(dir.files) && dir.links[Output] in dir.files
      && dir.files[dir.links[Output]].content == Concat(chunks)
    ensures outcome.cleanupFaults == 0 && !outcome.orphaned ==>
      dir.links == if NewOutput(old(Archive(dir.links, dir.files)), replaced, published, outcome)
                   then old(dir.links)[Output := dir.links[Output]]
                   else old(dir.links)
  {
    hide Publication.Linked, Publication.Pending, StartsFrom, Held.Ok, Held.Table, Held.Describes, KeptSince,
      Preserved, LinkedNames, Archive, Concat, Spare;
    var run := new Publication(dir);
    var raised := run.Attempt(chunks);
    run.Finish(raised);
    ok, replaced, published := !raised, run.replaced, run.published;
    outcome := Outcome(run.lost, run.orphaned, run.leftBehind, run.cleanupFaults, run.publishedAt);
    FinalTable(run.held, dir.links);
  }

  /** What happened on the way, as only an observer of the directory can tell. */
  datatype Outcome = Outcome(lostRename: bool, orphaned: bool, leftBehind: bool, cleanupFaults: nat, publishedAt: nat)

  /** The output name is left with the new archive. */
  predicate NewOutput(archive: Option<nat>, replaced: bool, published: bool, outcome: Outcome) {
    outcome.lostRename || (replaced && (published || archive.None?))
  }
}
