/** The DT_HASH reader and lookup, against the chain walk of a dynamic loader. */
module ElfSysvHash {
  import opened Wrappers
  import opened Bytes

  const MAX_DYNAMIC_SYMBOLS: nat := 100_000
  const MAX_HASH_BUCKETS: nat := 100_000

  datatype Error = CardinalityInvalid | EntryEscapes | LookupInvalid

  datatype Table = Table(buckets: seq<nat>, chains: seq<nat>)
  {
    /** Every entry names a symbol of the table, or is the zero that ends a chain. */
    predicate WellFormed() {
      && |buckets| > 0 && |chains| > 0
      && (forall i :: 0 <= i < |buckets| ==> buckets[i] < |chains|)
      && (forall i :: 0 <= i < |chains| ==> chains[i] < |chains|)
    }
  }

  // ----- The hash ------------------------------------------------------------------------

  function Word(b: byte): bv32 {
    b as bv32
  }

  /** One step of the generic ABI's hash: fold the top nibble back and clear it. */
  function AbiStep(h: bv32, c: bv32): bv32 {
    var v := (h << 4) + c;
    var g := v & 0xF000_0000;
    (v ^ (g >> 24)) & !g
  }

  function AbiHash(name: bytes): bv32 {
    if name == [] then 0 else AbiStep(AbiHash(name[..|name| - 1]), Word(name[|name| - 1]))
  }

  /** The loop body: the fold is skipped when the top nibble is clear. */
  function ConditionalStep(h: bv32, c: bv32): bv32 {
    var v := (h << 4) + c;
    var high := v & 0xF000_0000;
    if high != 0 then (v ^ (high >> 24)) & !high else v
  }

  lemma SkippingIsHarmless(h: bv32, c: bv32)
    ensures ConditionalStep(h, c) == AbiStep(h, c)
    ensures ConditionalStep(h, c) & 0xF000_0000 == 0
  {
  }

  /** The loop computes the ABI's hash, a 28-bit value. */
  method ComputeSysvHash(name: bytes) returns (value: bv32)
    ensures value == AbiHash(name)
    ensures value & 0xF000_0000 == 0
  {
    hide AbiStep, ConditionalStep, Word;
    value := 0;
    for i := 0 to |name|
      invariant value == AbiHash(name[..i])
      invariant value & 0xF000_0000 == 0
    {
      assert name[..i + 1][..i] == name[..i];
      SkippingIsHarmless(value, Word(name[i]));
      value := ConditionalStep(value, Word(name[i]));
    }
    assert name[..|name|] == name;
  }

  /** The shortcut a loader may take: fold the nibble at every step, clear it once at the end. */
  function FoldedStep(h: bv32, c: bv32): bv32 {
    var v := (h << 4) + c;
    v ^ ((v & 0xF000_0000) >> 24)
  }

  function FoldedHash(name: bytes): bv32 {
    if name == [] then 0 else FoldedStep(FoldedHash(name[..|name| - 1]), Word(name[|name| - 1]))
  }

  lemma FoldedStepAgrees(h: bv32, c: bv32)
    ensures FoldedStep(h, c) & 0x0FFF_FFFF == AbiStep(h & 0x0FFF_FFFF, c)
  {
  }

  lemma ZeroCleared()
    ensures 0 as bv32 & 0x0FFF_FFFF == 0
  {
  }

  /** Clearing the nibble once at the end gives the ABI's hash for every name. */
  lemma {:induction false} FoldedHashAgrees(name: bytes)
    ensures FoldedHash(name) & 0x0FFF_FFFF == AbiHash(name)
  {
    hide AbiStep, FoldedStep, Word;
    if name == [] {
      ZeroCleared();
    } else {
      var front, last := name[..|name| - 1], name[|name| - 1];
      FoldedHashAgrees(front);
      FoldedStepAgrees(FoldedHash(front), Word(last));
      assert AbiHash(name) == AbiStep(AbiHash(front), Word(last));
    }
  }

  // ----- Reading the section -------------------------------------------------------------

  predicate EntryAllowed(value: nat, chains: nat) {
    value < chains || value == 0
  }

  /** The mapped entries follow the header: `buckets` bucket words, then `chains` chain words. */
  method SysvHashSymbolCount(buckets: nat, chains: nat, entries: seq<nat>) returns (r: Result<Table, Error>)
    requires |entries| >= buckets + chains
    ensures
      if !(0 < buckets <= MAX_HASH_BUCKETS && 0 < chains <= MAX_DYNAMIC_SYMBOLS) then r == Err(CardinalityInvalid)
      else if exists i :: 0 <= i < buckets + chains && entries[i] >= chains then r == Err(EntryEscapes)
      else r == Ok(Table(entries[..buckets], entries[buckets..buckets + chains])) && r.value.WellFormed()
  {
    if buckets == 0 || buckets > MAX_HASH_BUCKETS || chains == 0 || chains > MAX_DYNAMIC_SYMBOLS {
      return Err(CardinalityInvalid);
    }
    var values: seq<nat> := [];
    for i := 0 to buckets + chains
      invariant values == entries[..i]
      invariant forall j :: 0 <= j < i ==> entries[j] < chains
    {
      if !EntryAllowed(entries[i], chains) {
        return Err(EntryEscapes);
      }
      values := values + [entries[i]];
    }
    assert values[..buckets] == entries[..buckets];
    assert values[buckets..] == entries[buckets..buckets + chains];
    r := Ok(Table(values[..buckets], values[buckets..]));
  }

  // ----- Lookup --------------------------------------------------------------------------

  function Start(table: Table, name: bytes): (s: nat)
    requires table.WellFormed()
    ensures s < |table.chains|
  {
    table.buckets[(AbiHash(name) as nat) % |table.buckets|]
  }

  /** Symbol a loader looks at after `k` steps; the walk rests at the undefined symbol 0. */
  function Visit(table: Table, start: nat, k: nat): (index: nat)
    requires table.WellFormed() && start < |table.chains|
    ensures index < |table.chains|
  {
    if k == 0 then start
    else
      var before := Visit(table, start, k - 1);
      if before == 0 then 0 else table.chains[before]
  }

  /** After `k` steps a loader stands on the first symbol called `name`. */
  predicate BindsAfter(table: Table, names: seq<bytes>, name: bytes, k: nat)
    requires table.WellFormed() && |names| == |table.chains|
  {
    var start := Start(table, name);
    && Visit(table, start, k) != 0 && names[Visit(table, start, k)] == name
    && forall j :: 0 <= j < k ==> names[Visit(table, start, j)] != name
  }

  lemma {:induction false} RestsAtZero(table: Table, start: nat, j: nat, k: nat)
    requires table.WellFormed() && start < |table.chains|
    requires j <= k && Visit(table, start, j) == 0
    ensures Visit(table, start, k) == 0
  {
    if j < k {
      RestsAtZero(table, start, j, k - 1);
    }
  }

  /** Two visits to one symbol make the walk periodic. */
  lemma {:induction false} Periodic(table: Table, start: nat, i: nat, k: nat, n: nat)
    requires table.WellFormed() && start < |table.chains|
    requires i < k && Visit(table, start, i) == Visit(table, start, k)
    ensures exists j :: 0 <= j < k && Visit(table, start, n) == Visit(table, start, j)
  {
    if n >= k {
      if n > k {
        Periodic(table, start, i, k, n - 1);
        var j :| 0 <= j < k && Visit(table, start, n - 1) == Visit(table, start, j);
        if j + 1 == k {
          assert Visit(table, start, n) == Visit(table, start, i);
        } else {
          assert Visit(table, start, n) == Visit(table, start, j + 1);
        }
      } else {
        assert Visit(table, start, n) == Visit(table, start, i);
      }
    }
  }

  lemma {:induction false} BoundedSet(s: set<nat>, n: nat)
    requires forall x :: x in s ==> x < n
    ensures |s| <= n
  {
    if n == 0 {
      assert s == {};
    } else {
      BoundedSet(s - {n - 1}, n - 1);
    }
  }

  /** The three outcomes of the lookup, in terms of the walk alone. */
  ghost predicate Hits(table: Table, start: nat, target: nat)
    requires table.WellFormed() && start < |table.chains|
  {
    target != 0 && exists k: nat :: Visit(table, start, k) == target
  }

  ghost predicate Rests(table: Table, start: nat)
    requires table.WellFormed() && start < |table.chains|
  {
    exists k: nat :: Visit(table, start, k) == 0
  }

  method SysvHashReaches(table: Table, name: bytes, target: nat) returns (r: Result<bool, Error>)
    requires table.WellFormed()
    ensures r == if Hits(table, Start(table, name), target) then Ok(true)
                 else if Rests(table, Start(table, name)) then Ok(false)
                 else Err(LookupInvalid)
  {
    hide Visit;
    var hash := ComputeSysvHash(name);
    var index := table.buckets[(hash as nat) % |table.buckets|];
    ghost var start := Start(table, name);
    ghost var k: nat := 0;
    VisitNext(table, start, 0);
    var visited: set<nat> := {};
    while index != 0
      invariant index == Visit(table, start, k)
      invariant forall x :: x in visited <==> exists j :: 0 <= j < k && Visit(table, start, j) == x
      invariant forall x :: x in visited ==> x < |table.chains| && x != 0 && x != target
      decreases |table.chains| - |visited|
    {
      VisitNext(table, start, k);
      if index >= |table.chains| || index in visited {
        LoopsForever(table, start, k, visited);
        assert !Hits(table, start, target) && !Rests(table, start);
        return Err(LookupInvalid);
      }
      BoundedSet(visited + {index}, |table.chains|);
      visited := visited + {index};
      if index == target {
        return Ok(true);
      }
      index := table.chains[index];
      k := k + 1;
    }
    forall j | 0 <= j < k ensures Visit(table, start, j) != target {
      assert Visit(table, start, j) in visited;
    }
    RestsWithoutHit(table, start, target, k);
    r := Ok(false);
  }

  lemma VisitNext(table: Table, start: nat, k: nat)
    requires table.WellFormed() && start < |table.chains|
    ensures Visit(table, start, 0) == start
    ensures Visit(table, start, k) != 0 ==> Visit(table, start, k + 1) == table.chains[Visit(table, start, k)]
  {
  }

  lemma RestsWithoutHit(table: Table, start: nat, target: nat, k: nat)
    requires table.WellFormed() && start < |table.chains|
    requires Visit(table, start, k) == 0 && forall j :: 0 <= j < k ==> Visit(table, start, j) != target
    ensures !Hits(table, start, target)
  {
    forall n: nat | n >= k ensures Visit(table, start, n) == 0 {
      RestsAtZero(table, start, k, n);
    }
  }

  /** Once the walk repeats, every later symbol has been visited. */
  lemma LoopsForever(table: Table, start: nat, k: nat, visited: set<nat>)
    requires table.WellFormed() && start < |table.chains|
    requires forall x :: x in visited <==> exists j :: 0 <= j < k && Visit(table, start, j) == x
    requires Visit(table, start, k) in visited
    ensures forall n: nat :: Visit(table, start, n) in visited
  {
    var i :| 0 <= i < k && Visit(table, start, i) == Visit(table, start, k);
    forall n: nat ensures Visit(table, start, n) in visited {
      Periodic(table, start, i, k, n);
    }
  }

  /** For a name held by one symbol, the walk hits it exactly when a loader binds the name to it. */
  lemma LoaderAgrees(table: Table, names: seq<bytes>, name: bytes, target: nat)
    requires table.WellFormed() && |names| == |table.chains|
    requires names[0] != name && 0 < target < |names|
    requires forall i :: 0 < i < |names| ==> (names[i] == name <==> i == target)
    ensures Hits(table, Start(table, name), target) <==> exists k: nat :: BindsAfter(table, names, name, k)
    ensures forall k: nat :: BindsAfter(table, names, name, k) ==> Visit(table, Start(table, name), k) == target
  {
    var start := Start(table, name);
    if Hits(table, start, target) {
      var k: nat :| Visit(table, start, k) == target;
      var first := FirstVisit(table, start, target, k);
      assert BindsAfter(table, names, name, first);
    }
    if k: nat :| BindsAfter(table, names, name, k) {
      assert Visit(table, start, k) == target;
    }
  }

  lemma {:induction false} FirstVisit(table: Table, start: nat, target: nat, k: nat) returns (first: nat)
    requires table.WellFormed() && start < |table.chains| && Visit(table, start, k) == target
    ensures Visit(table, start, first) == target && forall j :: 0 <= j < first ==> Visit(table, start, j) != target
  {
    if j: nat :| j < k && Visit(table, start, j) == target {
      first := FirstVisit(table, start, target, j);
    } else {
      first := k;
    }
  }
}
