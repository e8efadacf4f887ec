/** Lookup of one export through DT_GNU_HASH, against the lookup a dynamic loader performs. */
module ElfGnuLookup {
  import opened Wrappers
  import opened Bytes
  import opened BitWords
  import opened ElfGnuHash

  // ----- The verifier's lookup -----------------------------------------------------------

  predicate BloomPasses(table: Table, hash: nat)
    requires table.WellFormed()
  {
    var word := table.bloom[(hash / table.wordBits) % |table.bloom|];
    var mask := BitOr(Pow2(hash % table.wordBits), Pow2(ShiftRight(hash, table.bloomShift) % table.wordBits));
    BitAnd(word, mask) == mask
  }

  function WalkChain(table: Table, hash: nat, target: nat, index: nat): (r: Result<bool, Error>)
    requires table.WellFormed() && index >= table.symbolOffset
    ensures r == Ok(true) ==> index <= target
    decreases table.symbolCount - index
  {
    if index >= table.symbolCount then Err(LookupEscapes)
    else
      var chain := table.chains[index - table.symbolOffset];
      if BitOr(chain, 1) == BitOr(hash, 1) && index == target then Ok(true)
      else if BitAnd(chain, 1) != 0 then Ok(false)
      else WalkChain(table, hash, target, index + 1)
  }

  function Reaches(table: Table, name: bytes, target: nat): Result<bool, Error>
    requires table.WellFormed()
  {
    var hash := GnuHash(name);
    var bucket := table.buckets[hash % |table.buckets|];
    if target < table.symbolOffset || !BloomPasses(table, hash) || bucket < table.symbolOffset then Ok(false)
    else WalkChain(table, hash, target, bucket)
  }

  method GnuHashReaches(table: Table, name: bytes, target: nat) returns (r: Result<bool, Error>)
    requires table.WellFormed()
    ensures r == Reaches(table, name, target)
  {
    if target < table.symbolOffset {
      return Ok(false);
    }
    var hash := ComputeGnuHash(name);
    if !BloomPasses(table, hash) {
      return Ok(false);
    }
    var index := table.buckets[hash % |table.buckets|];
    if index < table.symbolOffset {
      return Ok(false);
    }
    while index < table.symbolCount
      invariant index >= table.symbolOffset
      invariant WalkChain(table, hash, target, index) == Reaches(table, name, target)
    {
      var chain := table.chains[index - table.symbolOffset];
      if BitOr(chain, 1) == BitOr(hash, 1) && index == target {
        return Ok(true);
      }
      if BitAnd(chain, 1) != 0 {
        return Ok(false);
      }
      index := index + 1;
    }
    r := Err(LookupEscapes);
  }

  // ----- The loader's lookup -------------------------------------------------------------

  /** `Fault` stands for a read past the mapped words or past the symbol table. */
  datatype Binding = Found(index: nat) | Missing | Fault

  /** A loader tests the two bits by shifting, and picks the word and bits by masking. */
  predicate BloomAdmits(image: Image, hash: nat)
    requires |image.bloom| > 0 && BitAnd(hash / image.elfClass.WordBits(), |image.bloom| - 1) < |image.bloom|
  {
    var bits := image.elfClass.WordBits();
    var word := image.bloom[BitAnd(hash / bits, |image.bloom| - 1)];
    var first := ShiftRight(word, BitAnd(hash, bits - 1));
    var second := ShiftRight(word, BitAnd(ShiftRight(hash, image.bloomShift), bits - 1));
    BitAnd(BitAnd(first, second), 1) == 1
  }

  /** First entry with the name's hash bits and the name itself, up to the odd terminator. */
  function BindInChain(image: Image, names: seq<bytes>, name: bytes, index: nat): Binding
    decreases image.symbolOffset + |image.words| - index
  {
    if index < image.symbolOffset || index - image.symbolOffset >= |image.words| then Fault
    else
      var word := image.words[index - image.symbolOffset];
      if ShiftRight(word, 1) == ShiftRight(GnuHash(name), 1) && index >= |names| then Fault
      else if ShiftRight(word, 1) == ShiftRight(GnuHash(name), 1) && names[index] == name then Found(index)
      else if BitAnd(word, 1) == 1 then Missing
      else BindInChain(image, names, name, index + 1)
  }

  function Bind(image: Image, names: seq<bytes>, name: bytes): Binding
    requires |image.buckets| > 0 && |image.bloom| > 0
    requires BitAnd(GnuHash(name) / image.elfClass.WordBits(), |image.bloom| - 1) < |image.bloom|
  {
    var bucket := image.buckets[GnuHash(name) % |image.buckets|];
    if !BloomAdmits(image, GnuHash(name)) || bucket == 0 then Missing
    else BindInChain(image, names, name, bucket)
  }

  // ----- Agreement -----------------------------------------------------------------------

  lemma WordBitsMask(x: nat, elfClass: ElfClass)
    ensures BitAnd(x, elfClass.WordBits() - 1) == x % elfClass.WordBits()
  {
    assert BitAnd(1, 0) == 0;
    assert BitAnd(2, 1) == 0;
    assert BitAnd(4, 3) == 0;
    assert BitAnd(8, 7) == 0;
    assert BitAnd(16, 15) == 0;
    assert BitAnd(32, 31) == 0;
    assert BitAnd(64, 63) == 0;
    MaskIsRemainder(x, elfClass.WordBits());
  }

  lemma AndIsOdd(x: nat, y: nat)
    ensures BitAnd(BitAnd(x, y), 1) == 1 <==> BitAnd(x, 1) == 1 && BitAnd(y, 1) == 1
  {
    LowBit(x);
    LowBit(y);
    LowBit(BitAnd(x, y));
  }

  lemma LowBit(x: nat)
    ensures BitAnd(x, 1) == x % 2
  {
    assert BitAnd(x / 2, 0) == 0;
  }

  /** A power-of-two bloom array makes the loader's mask a valid index. */
  lemma BloomIndex(image: Image, hash: nat)
    requires HeaderValid(image)
    ensures BitAnd(hash / image.elfClass.WordBits(), |image.bloom| - 1)
         == (hash / image.elfClass.WordBits()) % |image.bloom|
  {
    MaskIsRemainder(hash / image.elfClass.WordBits(), |image.bloom|);
  }

  /** The one-mask bloom test of the verifier is the two-shift test of the loader. */
  lemma BloomAgrees(image: Image, table: Table, hash: nat)
    requires ReadTable(image) == Ok(table)
    ensures BitAnd(hash / image.elfClass.WordBits(), |image.bloom| - 1) < |image.bloom|
    ensures BloomPasses(table, hash) <==> BloomAdmits(image, hash)
  {
    hide BitAnd, BitOr, Pow2, ShiftRight, Bit;
    var bits := image.elfClass.WordBits();
    BloomIndex(image, hash);
    var word := image.bloom[(hash / bits) % |image.bloom|];
    var a, b := hash % bits, ShiftRight(hash, image.bloomShift) % bits;
    WordBitsMask(hash, image.elfClass);
    WordBitsMask(ShiftRight(hash, image.bloomShift), image.elfClass);
    TwoBitMask(word, a, b);
    ShiftedBit(word, a);
    ShiftedBit(word, b);
    AndIsOdd(ShiftRight(word, a), ShiftRight(word, b));
  }

  /** Setting the lowest bit on both sides compares exactly the bits the loader compares. */
  lemma HashBitsAgree(word: nat, hash: nat)
    ensures BitOr(word, 1) == BitOr(hash, 1) <==> ShiftRight(word, 1) == ShiftRight(hash, 1)
  {
    OrOne(word);
    OrOne(hash);
    assert ShiftRight(word, 1) == word / 2 && ShiftRight(hash, 1) == hash / 2;
  }

  /** The walk of a chain that ends at `last` inside the table never runs off the end. */
  lemma {:induction false} WalkStaysInside(image: Image, table: Table, hash: nat, target: nat, index: nat, last: nat)
    requires ReadTable(image) == Ok(table)
    requires EndsAt(image, index, last) && last < table.symbolCount
    ensures WalkChain(table, hash, target, index).Ok?
    decreases last - index
  {
    hide ReadTable, BitOr;
    SymbolCountExact(image, table);
    LowBit(table.chains[index - table.symbolOffset]);
    if index < last {
      WalkStaysInside(image, table, hash, target, index + 1, last);
    }
  }

  lemma {:induction false} FirstOdd(image: Image, start: nat, odd: nat) returns (last: nat)
    requires image.symbolOffset <= start <= odd && Odd(image, odd)
    ensures EndsAt(image, start, last) && last <= odd
    decreases odd - start
  {
    if Odd(image, start) {
      last := start;
    } else {
      last := FirstOdd(image, start + 1, odd);
    }
  }

  /** Wherever an accepted table sends a walk, bucket zero included, the walk ends inside it. */
  lemma BucketChainEnds(image: Image, table: Table, i: nat) returns (last: nat)
    requires ReadTable(image) == Ok(table)
    requires i < |image.buckets| && image.buckets[i] >= image.symbolOffset
    ensures EndsAt(image, image.buckets[i], last) && last < table.symbolCount
  {
    SymbolCountExact(image, table);
    if image.buckets[i] != 0 {
      last :| EndsAt(image, image.buckets[i], last) && last <= table.symbolCount - 1;
    } else {
      var j :| 0 <= j < |image.buckets| && image.buckets[j] != 0
            && EndsAt(image, image.buckets[j], table.symbolCount - 1);
      last := FirstOdd(image, 0, table.symbolCount - 1);
    }
  }

  /** The escape error of the lookup cannot happen on an accepted table. */
  lemma NeverEscapes(image: Image, table: Table, name: bytes, target: nat)
    requires ReadTable(image) == Ok(table)
    ensures Reaches(table, name, target).Ok?
  {
    hide WalkChain, EndsAt, BloomPasses, GnuHash, Odd;
    var hash := GnuHash(name);
    var i := hash % |image.buckets|;
    if image.buckets[i] >= image.symbolOffset {
      var last := BucketChainEnds(image, table, i);
      WalkStaysInside(image, table, hash, target, image.buckets[i], last);
    }
  }

  /** Among the symbols after the null entry, exactly `target` has the name. */
  predicate UniqueName(names: seq<bytes>, name: bytes, target: nat) {
    forall i :: 1 <= i < |names| ==> (names[i] == name <==> i == target)
  }

  lemma {:induction false} ChainAgrees(image: Image, table: Table, names: seq<bytes>, name: bytes, target: nat,
                                       index: nat, last: nat)
    requires ReadTable(image) == Ok(table) && |names| == table.symbolCount
    requires UniqueName(names, name, target)
    requires 1 <= index && EndsAt(image, index, last) && last < table.symbolCount
    ensures BindInChain(image, names, name, index)
         == if WalkChain(table, GnuHash(name), target, index) == Ok(true) then Found(target) else Missing
    decreases last - index
  {
    hide ReadTable, BitOr, GnuHash, ShiftRight;
    SymbolCountExact(image, table);
    var word := image.words[index - image.symbolOffset];
    assert table.chains[index - table.symbolOffset] == word;
    LowBit(word);
    HashBitsAgree(word, GnuHash(name));
    if index < last {
      ChainAgrees(image, table, names, name, target, index + 1, last);
    }
  }

  /**
   * For a name held by one symbol, the verifier answers yes exactly when a loader binds the
   * name to that symbol, and otherwise the loader finds nothing.
   */
  lemma LoaderAgrees(image: Image, table: Table, names: seq<bytes>, name: bytes, target: nat)
    requires ReadTable(image) == Ok(table) && |names| == table.symbolCount
    requires UniqueName(names, name, target)
    requires image.symbolOffset >= 1 || image.buckets[GnuHash(name) % |image.buckets|] != 0
    ensures BitAnd(GnuHash(name) / image.elfClass.WordBits(), |image.bloom| - 1) < |image.bloom|
    ensures Bind(image, names, name) == if Reaches(table, name, target) == Ok(true) then Found(target) else Missing
  {
    hide WalkChain, BindInChain, EndsAt, BloomPasses, BloomAdmits, GnuHash, BitAnd, UniqueName;
    var hash := GnuHash(name);
    BloomAgrees(image, table, hash);
    var i := hash % |image.buckets|;
    var bucket := image.buckets[i];
    SymbolCountExact(image, table);
    if bucket != 0 {
      BucketAtOffset(image, table, i);
      var last := BucketChainEnds(image, table, i);
      ChainAgrees(image, table, names, name, target, bucket, last);
    }
  }

  /** A walk says yes exactly when the target lies on the chain and carries the name's hash bits. */
  lemma {:induction false} WalkExact(image: Image, table: Table, hash: nat, target: nat, index: nat, last: nat)
    requires ReadTable(image) == Ok(table)
    requires EndsAt(image, index, last) && last < table.symbolCount
    ensures WalkChain(table, hash, target, index) == Ok(true) <==>
      index <= target <= last && SameHashBits(image.words[target - image.symbolOffset], hash)
    decreases last - index
  {
    hide ReadTable, BitOr, ShiftRight;
    SymbolCountExact(image, table);
    var word := image.words[index - image.symbolOffset];
    assert table.chains[index - table.symbolOffset] == word;
    LowBit(word);
    HashBitsAgree(word, hash);
    if index < last {
      assert !Odd(image, index);
      WalkExact(image, table, hash, target, index + 1, last);
    }
  }

  /** The bits a loader compares: all but the end-of-chain bit. */
  predicate SameHashBits(word: nat, hash: nat) {
    ShiftRight(word, 1) == ShiftRight(hash, 1)
  }

  /** The chain that starts at symbol 0 runs over the target, with the hash's bits there. */
  ghost predicate ZeroChainHits(image: Image, hash: nat, target: nat)
    requires image.symbolOffset == 0
  {
    exists last: nat :: EndsAt(image, 0, last) && target <= last && SameHashBits(image.words[target], hash)
  }

  /**
   * The exact condition for agreement: a positive offset, or a nonempty bucket, or a bloom
   * test that fails, or a chain from symbol 0 that does not hit the target.
   */
  lemma LoaderAgreesExact(image: Image, table: Table, names: seq<bytes>, name: bytes, target: nat)
    requires ReadTable(image) == Ok(table) && |names| == table.symbolCount
    requires UniqueName(names, name, target)
    ensures BitAnd(GnuHash(name) / image.elfClass.WordBits(), |image.bloom| - 1) < |image.bloom|
    ensures
      Bind(image, names, name) == (if Reaches(table, name, target) == Ok(true) then Found(target) else Missing)
      <==>
      || image.symbolOffset >= 1 || image.buckets[GnuHash(name) % |image.buckets|] != 0
      || !BloomPasses(table, GnuHash(name)) || !ZeroChainHits(image, GnuHash(name), target)
  {
    hide WalkChain, BindInChain, BloomPasses, BloomAdmits, GnuHash, BitAnd, UniqueName, SameHashBits;
    var hash := GnuHash(name);
    var i := hash % |image.buckets|;
    if image.symbolOffset >= 1 || image.buckets[i] != 0 {
      LoaderAgrees(image, table, names, name, target);
    } else {
      BloomAgrees(image, table, hash);
      var last := BucketChainEnds(image, table, i);
      WalkExact(image, table, hash, target, 0, last);
      forall other: nat | EndsAt(image, 0, other) ensures other == last {
        OneEnd(image, 0, last, other);
      }
    }
  }

  lemma OneEnd(image: Image, start: nat, a: nat, b: nat)
    requires EndsAt(image, start, a) && EndsAt(image, start, b)
    ensures a == b
  {
  }

  lemma BucketAtOffset(image: Image, table: Table, i: nat)
    requires ReadTable(image) == Ok(table) && i < |image.buckets| && image.buckets[i] != 0
    ensures image.buckets[i] >= image.symbolOffset
  {
    SymbolCountExact(image, table);
  }

  lemma {:induction false} ChainNeverFaults(image: Image, names: seq<bytes>, name: bytes, index: nat, last: nat)
    requires EndsAt(image, index, last) && last < |names|
    ensures BindInChain(image, names, name, index) != Fault
    decreases last - index
  {
    hide GnuHash, ShiftRight;
    LowBit(image.words[index - image.symbolOffset]);
    if index < last {
      ChainNeverFaults(image, names, name, index + 1, last);
    }
  }

  /** No name at all makes a loader read outside an accepted section or its symbol table. */
  lemma LoaderNeverFaults(image: Image, table: Table, names: seq<bytes>, name: bytes)
    requires ReadTable(image) == Ok(table) && |names| == table.symbolCount
    ensures BitAnd(GnuHash(name) / image.elfClass.WordBits(), |image.bloom| - 1) < |image.bloom|
    ensures Bind(image, names, name) != Fault
  {
    hide BindInChain, EndsAt, BloomAdmits, GnuHash, BitAnd;
    var i := GnuHash(name) % |image.buckets|;
    BloomIndex(image, GnuHash(name));
    if image.buckets[i] != 0 {
      BucketAtOffset(image, table, i);
      var last := BucketChainEnds(image, table, i);
      ChainNeverFaults(image, names, name, image.buckets[i], last);
    }
  }

  /** Two symbols at offset zero: the name's own bucket is empty, the other one starts at symbol 1. */
  function ZeroOffsetImage(name: bytes): Image {
    var hash := GnuHash(name);
    var bloom := BitOr(Pow2(hash % 64), Pow2(hash % 64));
    Image(Elf64, 0, 0, [bloom], if hash % 2 == 0 then [0, 1] else [1, 0], [0, 2 * (hash / 2) + 1])
  }

  /**
   * At symbol offset zero an empty bucket is walked by the verifier from symbol 0, while a
   * loader stops: for every name there is an accepted section on which the two disagree.
   */
  lemma ZeroOffsetDisagrees(name: bytes) returns (table: Table)
    ensures
      var image := ZeroOffsetImage(name);
      && ReadTable(image) == Ok(table) && UniqueName([[], name], name, 1) && table.symbolCount == 2
      && Reaches(table, name, 1) == Ok(true)
      && BitAnd(GnuHash(name) / 64, |image.bloom| - 1) < |image.bloom|
      && Bind(image, [[], name], name) == Missing
  {
    hide GnuHash, Pow2;
    var image := ZeroOffsetImage(name);
    var hash := GnuHash(name);
    assert BitAnd(1, 0) == 0;
    assert ChainEnd(image, 1) == Ok(1);
    assert LastTerminal(image, 0) == Ok(-1);
    assert LastTerminal(image, 1) == if hash % 2 == 0 then Ok(-1) else Ok(1);
    assert LastTerminal(image, 2) == Ok(1);
    table := ReadTable(image).value;
    CoversBoth(image.bloom[0], Pow2(hash % 64), Pow2(hash % 64));
    AndSelf(image.bloom[0]);
    assert ShiftRight(hash, 0) == hash;
    assert BloomPasses(table, hash);
    OrOne(0);
    OrOne(hash);
    OrOne(table.chains[1]);
    LowBit(0);
    assert WalkChain(table, hash, 1, 1) == Ok(true);
    assert WalkChain(table, hash, 1, 0) == Ok(true);
    BloomIndex(image, hash);
  }
}
