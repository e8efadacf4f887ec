/** The file object the compressor writes the source archive through. */
module ArchiveWriter {
  import opened Wrappers
  import opened Bytes
  import opened OutputDirectory

  /** Counts and digests what the compressor writes; the digest is the digested bytes. */
  class DescriptorWriter {
    const dir: Directory
    const descriptor: nat
    const maxBytes: nat
    var bytesWritten: nat
    var digested: bytes

    /** Everything counted and digested is in the file, which may hold more after a raised write. */
    ghost predicate Behind()
      reads this, dir
    {
      && dir.Valid() && descriptor in dir.files
      && digested <= dir.files[descriptor].content
      && bytesWritten == |digested| <= maxBytes
    }

    ghost predicate Valid()
      reads this, dir
    {
      Behind() && dir.files[descriptor].content == digested
    }

    /** Only the content of the descriptor's file differs. */
    twostate predicate OnlyContentChanged()
      requires old(descriptor in dir.files)
      reads this, dir
    {
      descriptor in dir.files
      && dir.files
      == old(dir.files)[descriptor := old(dir.files[descriptor]).(content := dir.files[descriptor].content)]
    }

    constructor (dir: Directory, descriptor: nat, maxBytes: nat)
      requires dir.Valid() && descriptor in dir.files && dir.files[descriptor].content == []
      ensures this.dir == dir && this.descriptor == descriptor && this.maxBytes == maxBytes
      ensures Valid() && digested == []
    {
      this.dir := dir;
      this.descriptor := descriptor;
      this.maxBytes := maxBytes;
      bytesWritten := 0;
      digested := [];
    }

    /**
     * A payload over the limit is refused before a byte of it is written. Success means that
     * count, digest and file all gained the whole payload; after a failure the file holds at
     * least what was digested, and at most the payload more than before.
     */
    method Write(payload: bytes) returns (ok: bool)
      requires Valid()
      modifies this, dir`files, dir`faults
      ensures Behind() && OnlyContentChanged()
      ensures ok ==> Valid() && digested == old(digested) + payload
      ensures old(digested) <= digested && dir.files[descriptor].content <= old(digested) + payload
      ensures |payload| > maxBytes - old(bytesWritten) ==> !ok && Valid() && digested == old(digested)
    {
      if |payload| > maxBytes - bytesWritten {
        return false;
      }
      var done := 0;
      while done < |payload|
        invariant 0 <= done <= |payload|
        invariant Valid() && OnlyContentChanged()
        invariant digested == old(digested) + payload[..done]
        invariant dir.links == old(dir.links) && dir.trace == old(dir.trace) && dir.nextInode == old(dir.nextInode)
      {
        var view := payload[done..];
        var written, taken := dir.Write(descriptor, view);
        assert payload[..done + taken] == payload[..done] + view[..taken];
        if written.Err? || written.value == 0 {
          return false;
        }
        digested := digested + view[..written.value];
        bytesWritten := bytesWritten + written.value;
        done := done + written.value;
      }
      assert payload[..done] == payload;
      return true;
    }

    /** The compressor's calls, in order; it may itself fail between any two of them. */
    method WriteAll(chunks: seq<bytes>) returns (ok: bool)
      requires Valid()
      modifies this, dir`files, dir`faults
      ensures Behind() && OnlyContentChanged()
      ensures ok ==> Valid() && digested == old(digested) + Concat(chunks)
    {
      for i := 0 to |chunks|
        invariant Valid() && OnlyContentChanged()
        invariant digested == old(digested) + Concat(chunks[..i])
        invariant dir.links == old(dir.links) && dir.trace == old(dir.trace) && dir.nextInode == old(dir.nextInode)
      {
        ConcatSnoc(chunks[..i], chunks[i]);
        assert chunks[..i + 1] == chunks[..i] + [chunks[i]];
        var failed := dir.Fails();
        if failed {
          return false;
        }
        ok := Write(chunks[i]);
        if !ok {
          return;
        }
      }
      assert chunks[..|chunks|] == chunks;
      ok := true;
    }
  }

  lemma {:induction false} ConcatSnoc(chunks: seq<bytes>, last: bytes)
    ensures Concat(chunks + [last]) == Concat(chunks) + last
  {
    if chunks == [] {
      assert Concat([last]) == last + Concat([]);
    } else {
      ConcatSnoc(chunks[1..], last);
      assert (chunks + [last])[1..] == chunks[1..] + [last];
    }
  }
}
