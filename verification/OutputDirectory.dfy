/**
 * The directory the source archive is published in: a name table and an inode table,
 * changed by system calls that may fail, before or after they took effect. Nobody else
 * writes to it.
 */
module OutputDirectory {
  import opened Wrappers
  import opened Bytes

  datatype Name = Output | Temp(token: nat) | Old(token: nat) | Other(id: nat)

  /** `elsewhere` counts hard links to the inode from outside this directory. */
  datatype File = File(regular: bool, content: bytes, elsewhere: nat)

  datatype Errno = Exists | Missing | Fault

  type Links = map<Name, nat>

  /** The earlier archive can still be reached, by its own name or by a rollback name. */
  predicate Preserved(links: Links, archive: Option<nat>) {
    archive.None? || exists n :: n in links && links[n] == archive.value && (n == Output || n.Old?)
  }

  /** Even without its own name the archive has another rollback name, left by an earlier run. */
  predicate Spare(links: Links, archive: nat) {
    exists n: Name :: n in links && n.Old? && links[n] == archive
  }

  /** Every state entered between two moments preserved the earlier archive. */
  predicate KeptSince(before: seq<Links>, now: seq<Links>, archive: Option<nat>) {
    before <= now && forall i :: |before| <= i < |now| ==> Preserved(now[i], archive)
  }

  function LinkedNames(links: Links, inode: nat): set<Name> {
    set n | n in links && links[n] == inode
  }

  class Directory {
    var links: Links
    var files: map<nat, File>
    var nextInode: nat
    /** Every name table there has been. */
    ghost var trace: seq<Links>
    /** Calls that failed for no reason visible in the tables. */
    ghost var faults: nat

    ghost predicate Valid()
      reads this
    {
      && (forall n :: n in links ==> links[n] in files)
      && (forall i :: i in files ==> i < nextInode)
      && trace != [] && trace[|trace| - 1] == links
    }

    function LinkCount(inode: nat): nat
      requires inode in files
      reads this
    {
      |LinkedNames(links, inode)| + files[inode].elsewhere
    }

    /** Same regular inode behind the name and the descriptor. */
    predicate SameFile(name: Name, inode: nat)
      reads this
    {
      name in links && links[name] == inode && inode in files && files[inode].regular
    }

    /** Same regular inode, and no other name for it anywhere. */
    predicate SoleName(name: Name, inode: nat)
      reads this
    {
      SameFile(name, inode) && LinkCount(inode) == 1
    }

    method Fails() returns (failed: bool)
      modifies this`faults
      ensures faults == old(faults) + if failed then 1 else 0
    {
      failed := *;
      if failed {
        faults := faults + 1;
      }
    }

    /** A failing call may still have taken effect: the caller only sees that it raised. */
    method Outcome() returns (raised: bool, took: bool)
      modifies this`faults
      ensures faults == old(faults) + if raised then 1 else 0
      ensures !raised ==> took
    {
      raised := Fails();
      took := *;
      took := took || !raised;
    }

    method Create(name: Name) returns (r: Result<nat, Errno>, ghost took: bool)
      requires Valid()
      modifies this
      ensures Valid()
      ensures r.Ok? ==> took && r.value == old(nextInode)
      ensures if took then
          && name !in old(links) && old(nextInode) !in old(files)
          && links == old(links)[name := old(nextInode)]
          && files == old(files)[old(nextInode) := File(true, [], 0)]
          && trace == old(trace) + [links]
        else links == old(links) && files == old(files) && trace == old(trace)
      ensures r.Err? ==> r.error == if name in old(links) then Exists else Fault
      ensures faults == old(faults) + if r == Err(Fault) then 1 else 0
    {
      if name in links {
        return Err(Exists), false;
      }
      var raised, effect := Outcome();
      if effect {
        files := files[nextInode := File(true, [], 0)];
        links := links[name := nextInode];
        nextInode := nextInode + 1;
        trace := trace + [links];
      }
      r, took := if raised then Err(Fault) else Ok(nextInode - 1), effect;
    }

    method Link(source: Name, target: Name) returns (r: Result<(), Errno>, ghost took: bool)
      requires Valid()
      modifies this`links, this`trace, this`faults
      ensures Valid()
      ensures r.Ok? ==> took
      ensures if took then
          && source in old(links) && target !in old(links)
          && links == old(links)[target := old(links)[source]] && trace == old(trace) + [links]
        else links == old(links) && trace == old(trace)
      ensures r == Err(Exists) <==> target in old(links)
      ensures took && r.Err? ==> r == Err(Fault)
      ensures faults == old(faults) + if r == Err(Fault) then 1 else 0
    {
      if target in links {
        return Err(Exists), false;
      }
      if source !in links {
        return Err(Missing), false;
      }
      var raised, effect := Outcome();
      if effect {
        links := links[target := links[source]];
        trace := trace + [links];
      }
      r, took := if raised then Err(Fault) else Ok(()), effect;
    }

    method Unlink(name: Name) returns (done: bool, ghost took: bool)
      requires Valid()
      modifies this`links, this`trace, this`faults
      ensures Valid()
      ensures done ==> took
      ensures if took then name in old(links) && links == old(links) - {name} && trace == old(trace) + [links]
              else links == old(links) && trace == old(trace)
      ensures faults == old(faults) + if !done && name in old(links) then 1 else 0
    {
      if name !in links {
        return false, false;
      }
      var raised, effect := Outcome();
      if effect {
        links := links - {name};
        trace := trace + [links];
      }
      done, took := !raised, effect;
    }

    /** Atomically gives `source`'s inode the name `target`, whatever that named before. */
    method Replace(source: Name, target: Name) returns (done: bool, ghost took: bool)
      requires Valid() && source in links && source != target
      modifies this`links, this`trace, this`faults
      ensures Valid()
      ensures done ==> took
      ensures if took
              then links == (old(links) - {source})[target := old(links)[source]] && trace == old(trace) + [links]
              else links == old(links) && trace == old(trace)
      ensures faults == old(faults) + if done then 0 else 1
    {
      var raised, effect := Outcome();
      if effect {
        links := (links - {source})[target := links[source]];
        trace := trace + [links];
      }
      done, took := !raised, effect;
    }

    method Stat(name: Name) returns (r: Result<nat, Errno>)
      modifies this`faults
      ensures r.Ok? ==> name in links && r.value == links[name]
      ensures r.Err? ==> r.error == if name in links then Fault else Missing
      ensures faults == old(faults) + if r == Err(Fault) then 1 else 0
    {
      if name !in links {
        return Err(Missing);
      }
      var failed := Fails();
      r := if failed then Err(Fault) else Ok(links[name]);
    }

    /** A failing stat reads as "does not match". */
    method IdentityMatches(name: Name, inode: nat) returns (matches: bool)
      requires Valid()
      modifies this`faults
      ensures Valid()
      ensures matches ==> SameFile(name, inode)
      ensures faults == old(faults) + if !matches && SameFile(name, inode) then 1 else 0
    {
      if !(name in links && links[name] == inode && files[inode].regular) {
        return false;
      }
      var failed := Fails();
      matches := !failed;
    }

    method MatchesName(name: Name, inode: nat) returns (matches: bool)
      requires Valid()
      modifies this`faults
      ensures Valid()
      ensures matches ==> SoleName(name, inode)
      ensures faults == old(faults) + if !matches && SoleName(name, inode) then 1 else 0
    {
      if !(name in links && links[name] == inode && files[inode].regular && LinkCount(inode) == 1) {
        return false;
      }
      var failed := Fails();
      matches := !failed;
    }

    /** One write call: it may take only part of the data, or none, whether or not it raises. */
    method Write(inode: nat, data: bytes) returns (r: Result<nat, Errno>, ghost taken: nat)
      requires Valid() && inode in files
      modifies this`files, this`faults
      ensures Valid()
      ensures taken <= |data| && (r.Ok? ==> r.value == taken)
      ensures files == old(files)[inode := old(files)[inode].(content := old(files)[inode].content + data[..taken])]
    {
      var written: int := *;
      if !(0 <= written <= |data|) {
        written := |data|;
      }
      files := files[inode := files[inode].(content := files[inode].content + data[..written])];
      taken := written;
      var failed := Fails();
      r := if failed then Err(Fault) else Ok(written);
    }

    method UnlinkStagedIfOwned(name: Name, inode: nat) returns (raised: bool, ghost took: bool)
      requires Valid()
      modifies this`links, this`trace, this`faults
      ensures Valid() && faults >= old(faults)
      ensures if took then old(SoleName(name, inode)) && links == old(links) - {name} && trace == old(trace) + [links]
              else links == old(links) && trace == old(trace)
      ensures old(SoleName(name, inode)) && faults == old(faults) ==> took
    {
      var matches := MatchesName(name, inode);
      if matches {
        var done;
        done, took := Unlink(name);
        raised := !done;
      } else {
        raised, took := false, false;
      }
    }

    method UnlinkBackupIfOwned(name: Name, inode: nat) returns (raised: bool, ghost took: bool)
      requires Valid()
      modifies this`links, this`trace, this`faults
      ensures Valid() && faults >= old(faults)
      ensures if took then old(SameFile(name, inode)) && links == old(links) - {name} && trace == old(trace) + [links]
              else links == old(links) && trace == old(trace)
      ensures old(SameFile(name, inode)) && faults == old(faults) ==> took
      ensures raised ==> faults > old(faults)
    {
      var matches := IdentityMatches(name, inode);
      if matches {
        var done;
        done, took := Unlink(name);
        raised := !done;
      } else {
        raised, took := false, false;
      }
    }
  }
}
