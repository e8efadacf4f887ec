/**
 * Name tables met while a source archive is published: what the run holds, and how each
 * rename, link and unlink changes it.
 */
module PublishLayout {
  import opened Wrappers
  import opened OutputDirectory

  /**
   * The names a run holds. `current` says that the output name is the staged file;
   * `stray` are names left behind by a clean-up call that failed.
   */
  datatype Held = Held(original: Links, archive: Option<nat>, stagedName: Option<Name>, staged: nat,
                       backupName: Option<Name>, current: bool, stray: Links)
  {
    ghost predicate Ok() {
      && (archive.Some? ==> Output in original && original[Output] == archive.value)
      && (stagedName.Some? ==>
            stagedName.value.Temp? && stagedName.value !in original && stagedName.value !in stray && !current)
      && (stagedName.Some? || current ==>
            && (forall n :: n in original ==> original[n] != staged)
            && (forall n :: n in stray ==> stray[n] != staged))
      && (backupName.Some? ==>
            backupName.value.Old? && backupName.value !in original && backupName.value !in stray && archive.Some?)
      && (forall n :: n in stray ==> n !in original && (n.Temp? || n.Old?))
    }

    /** The directory with those names and nothing else changed. */
    function Table(): Links {
      var output := if current then original[Output := staged] else original;
      var named := if stagedName.Some? then output[stagedName.value := staged] else output;
      var backed := if backupName.Some? && archive.Some? then named[backupName.value := archive.value] else named;
      backed + stray
    }

    ghost predicate Describes(links: Links) {
      Ok() && links == Table()
    }

    /**
     * The earlier archive has a name unless the staged file took it: then it needs the run's
     * rollback name, or one that an earlier run left, or one that this run lost track of.
     */
    lemma PreservedExact(links: Links)
      requires Describes(links)
      ensures Preserved(links, archive) <==>
        archive.None? || !current || backupName.Some? || Spare(original, archive.value) || Spare(stray, archive.value)
    {
      if archive.Some? {
        if !current {
          assert Output in links && links[Output] == archive.value;
        } else if backupName.Some? {
          assert backupName.value in links && links[backupName.value] == archive.value;
        } else {
          OnlySpare(links);
        }
      }
    }

    lemma OnlySpare(links: Links)
      requires Describes(links) && current && archive.Some? && backupName.None?
      ensures Preserved(links, archive) <==> Spare(original, archive.value) || Spare(stray, archive.value)
    {
      if Spare(original, archive.value) {
        var n: Name :| n in original && n.Old? && original[n] == archive.value;
        assert n in links && links[n] == archive.value;
      }
      if Spare(stray, archive.value) {
        var n: Name :| n in stray && n.Old? && stray[n] == archive.value;
        assert n in links && links[n] == archive.value;
      }
      if Preserved(links, archive) {
        var n :| n in links && links[n] == archive.value && (n == Output || n.Old?);
        assert (n in stray && stray[n] == archive.value) || (n in original && original[n] == archive.value);
      }
    }

    lemma StagedIsSole(name: Name)
      requires Ok() && (if current then name == Output else stagedName == Some(name))
      ensures name in Table() && Table()[name] == staged
      ensures forall n :: n in Table() && n != name ==> Table()[n] != staged
    {
    }

    lemma OutputLink(links: Links)
      requires Describes(links) && !current
      ensures forall n :: n in original ==> n in links && links[n] == original[n]
      ensures Output in links <==> Output in original
    {
    }

    lemma AddStaged(links: Links, name: Name, inode: nat)
      requires Describes(links) && stagedName.None? && !current
      requires name.Temp? && name !in links && (forall n :: n in links ==> links[n] != inode)
      ensures this.(stagedName := Some(name), staged := inode).Describes(links[name := inode])
    {
      OutputLink(links);
      var next := this.(stagedName := Some(name), staged := inode);
      assert next.Ok() by {
        forall n | n in stray ensures stray[n] != inode {
          assert n in links;
        }
      }
      assert next.Table() == links[name := inode];
    }

    lemma RemoveStaged(links: Links)
      requires Describes(links) && stagedName.Some?
      ensures stagedName.value in links && links[stagedName.value] == staged
      ensures this.(stagedName := None).Describes(links - {stagedName.value})
      ensures this.(stagedName := None, stray := stray[stagedName.value := staged]).Describes(links)
      ensures stray[stagedName.value := staged] != map[]
    {
      assert stagedName.value in stray[stagedName.value := staged];
      assert this.(stagedName := None).Table() == links - {stagedName.value};
      assert this.(stagedName := None, stray := stray[stagedName.value := staged]).Table() == links;
    }

    lemma AddBackup(links: Links, name: Name)
      requires Describes(links) && backupName.None? && !current && archive.Some?
      requires name.Old? && name !in links
      ensures Output in links && this.(backupName := Some(name)).Describes(links[name := links[Output]])
    {
      OutputLink(links);
      assert this.(backupName := Some(name)).Table() == links[name := links[Output]];
    }

    lemma RemoveBackup(links: Links)
      requires Describes(links) && backupName.Some?
      ensures backupName.value in links && links[backupName.value] == archive.value
      ensures this.(backupName := None).Describes(links - {backupName.value})
      ensures this.(backupName := None, stray := stray[backupName.value := archive.value]).Describes(links)
      ensures stray[backupName.value := archive.value] != map[]
    {
      assert backupName.value in stray[backupName.value := archive.value];
      assert this.(backupName := None).Table() == links - {backupName.value};
      assert this.(backupName := None, stray := stray[backupName.value := archive.value]).Table() == links;
    }

    lemma ReplaceOutput(links: Links)
      requires Describes(links) && stagedName.Some?
      ensures stagedName.value != Output && stagedName.value in links && links[stagedName.value] == staged
      ensures this.(stagedName := None, current := true).Describes((links - {stagedName.value})[Output := staged])
    {
      assert this.(stagedName := None, current := true).Table() == (links - {stagedName.value})[Output := staged];
    }

    lemma RollBack(links: Links)
      requires Describes(links) && current && backupName.Some?
      ensures backupName.value != Output && backupName.value in links
      ensures this.(backupName := None, current := false)
        .Describes((links - {backupName.value})[Output := links[backupName.value]])
    {
      assert this.(backupName := None, current := false).Table()
          == (links - {backupName.value})[Output := links[backupName.value]];
    }
  }

  /**
   * The losing run, step by step: stage, link, rename, and the clean-up after the rename
   * raised although it had taken effect. It takes the last name from the archive.
   */
  lemma LosingRun(archive: nat, staged: nat, t: nat, o: nat)
    requires archive != staged
    ensures
      var start: Links := map[Output := archive];
      var created := start[Temp(t) := staged];
      var linked := created[Old(o) := created[Output]];
      var renamed := (linked - {Temp(t)})[Output := linked[Temp(t)]];
      var cleaned := renamed - {Old(o)};
      && Preserved(start, Some(archive)) && Preserved(created, Some(archive))
      && Preserved(linked, Some(archive)) && Preserved(renamed, Some(archive))
      && cleaned == Held(start, Some(archive), None, staged, None, true, map[]).Table()
      && !Preserved(cleaned, Some(archive))
  {
    var start: Links := map[Output := archive];
    var created := start[Temp(t) := staged];
    var linked := created[Old(o) := created[Output]];
    var renamed := (linked - {Temp(t)})[Output := linked[Temp(t)]];
    var cleaned := renamed - {Old(o)};
    var held := Held(start, Some(archive), None, staged, None, true, map[]);
    assert cleaned == held.Table();
    assert Output in start && Output in created && Output in linked && Old(o) in renamed;
    held.PreservedExact(cleaned);
  }
}
