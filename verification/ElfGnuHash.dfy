/**
 * The DT_GNU_HASH reader and lookup of the native library verifier, against what a
 * dynamic loader does with the same bytes.
 */
module ElfGnuHash {
  import opened Wrappers
  import opened Bytes
  import opened BitWords
  import opened Extremes

  const MAX_DYNAMIC_SYMBOLS: nat := 100_000
  const MAX_HASH_BUCKETS: nat := 100_000

  datatype Error = HeaderInvalid | ChainEscapes | ChainTooLong | BucketInvalid | CardinalityInvalid | LookupEscapes

  datatype ElfClass = Elf32 | Elf64
  {
    function WordBits(): nat {
      if this == Elf64 then 64 else 32
    }
  }

  /** The mapped section: `words` is every whole chain word up to the end of its segment. */
  datatype Image = Image(elfClass: ElfClass, symbolOffset: nat, bloomShift: nat,
                         bloom: seq<nat>, buckets: seq<nat>, words: seq<nat>)

  /** What the reader keeps of an accepted section. */
  datatype Table = Table(symbolCount: nat, symbolOffset: nat, bloomShift: nat, wordBits: nat,
                         bloom: seq<nat>, buckets: seq<nat>, chains: seq<nat>)
  {
    predicate WellFormed() {
      && |bloom| > 0 && |buckets| > 0 && wordBits > 0
      && symbolOffset <= symbolCount && |chains| == symbolCount - symbolOffset
    }
  }

  // ----- The hash ------------------------------------------------------------------------

  /** Bernstein's polynomial over the name, never truncated. */
  function Polynomial(name: bytes): nat {
    if name == [] then 5381 else Polynomial(name[..|name| - 1]) * 33 + name[|name| - 1]
  }

  function GnuHash(name: bytes): nat {
    Polynomial(name) % 0x1_0000_0000
  }

  lemma TruncateEarly(v: nat, m: nat, b: nat)
    requires m > 0
    ensures ((v % m) * 33 + b) % m == (v * 33 + b) % m
  {
    var r, q := v % m, v / m;
    var n := r * 33 + b;
    DivMod(v, m);
    DivMod(n, m);
    SameRemainder(r, m, q, b, n / m, n % m);
  }

  lemma DivMod(n: nat, m: nat)
    requires m > 0
    ensures n == m * (n / m) + n % m && n % m < m
  {
  }

  lemma SameRemainder(r: nat, m: nat, q: nat, b: nat, t: nat, u: nat)
    requires u < m && r * 33 + b == m * t + u
    ensures ((m * q + r) * 33 + b) % m == u
  {
    MulRegroup(m, q);
    MulSum(m, q * 33, t);
    RemainderUnique((m * q + r) * 33 + b, m, q * 33 + t, u);
  }

  lemma MulRegroup(m: nat, q: nat)
    ensures m * q * 33 == m * (q * 33)
  {
  }

  lemma MulSum(m: nat, a: nat, b: nat)
    ensures m * (a + b) == m * a + m * b
  {
  }

  /** Masking after every byte computes the untruncated polynomial modulo 2^32. */
  method ComputeGnuHash(name: bytes) returns (value: nat)
    ensures value == GnuHash(name)
  {
    value := 5381;
    for i := 0 to |name|
      invariant value == GnuHash(name[..i])
    {
      assert name[..i + 1][..i] == name[..i];
      TruncateEarly(Polynomial(name[..i]), 0x1_0000_0000, name[i]);
      value := (value * 33 + name[i]) % 0x1_0000_0000;
    }
    assert name[..|name|] == name;
  }

  // ----- Chain ends ----------------------------------------------------------------------

  function Limit(image: Image): nat {
    Min(|image.words|, MAX_DYNAMIC_SYMBOLS)
  }

  /** The chain word of symbol `index` is read and carries the end-of-chain bit. */
  predicate Odd(image: Image, index: nat) {
    && image.symbolOffset <= index && index - image.symbolOffset < Limit(image)
    && image.words[index - image.symbolOffset] % 2 == 1
  }

  /** Outcome of following one chain from `index` to its odd terminator, without a memo. */
  function ChainEnd(image: Image, index: nat): (r: Result<nat, Error>)
    ensures r.Ok? ==> index <= r.value && Odd(image, r.value)
    decreases image.symbolOffset + |image.words| - index
  {
    if index < image.symbolOffset || index - image.symbolOffset >= Limit(image) then Err(ChainEscapes)
    else if image.words[index - image.symbolOffset] % 2 == 1 then Ok(index)
    else if index + 1 > MAX_DYNAMIC_SYMBOLS then Err(ChainTooLong)
    else ChainEnd(image, index + 1)
  }

  /** `last` is the first odd chain word at or after `start`. */
  predicate EndsAt(image: Image, start: nat, last: nat) {
    && image.symbolOffset <= start <= last && Odd(image, last)
    && forall k :: start <= k < last ==> !Odd(image, k)
  }

  lemma {:induction false} ChainEndExact(image: Image, start: nat, last: nat)
    requires start <= MAX_DYNAMIC_SYMBOLS
    ensures ChainEnd(image, start) == Ok(last) <==> EndsAt(image, start, last) && last <= MAX_DYNAMIC_SYMBOLS
    decreases image.symbolOffset + |image.words| - start
  {
    var more := image.symbolOffset <= start && start - image.symbolOffset < Limit(image) && !Odd(image, start);
    if more && start + 1 <= MAX_DYNAMIC_SYMBOLS {
      ChainEndExact(image, start + 1, last);
      assert EndsAt(image, start, last) <==> EndsAt(image, start + 1, last);
    }
  }

  predicate NoRepeats(s: seq<nat>) {
    forall i, j :: 0 <= i < j < |s| ==> s[i] != s[j]
  }

  lemma NoRepeatsExtends(s: seq<nat>, x: nat)
    requires NoRepeats(s) && x !in s
    ensures NoRepeats(s + [x])
  {
  }

  /** The dictionary of known chain ends, and every chain word fetched to fill it. */
  class ChainMemo {
    const image: Image
    var terminals: map<nat, nat>
    ghost var fetched: seq<nat>

    ghost predicate Valid()
      reads this
    {
      && NoRepeats(fetched)
      && (forall k :: k in fetched <==> k in terminals)
      && (forall k :: k in terminals ==> ChainEnd(image, k) == Ok(terminals[k]))
    }

    constructor (image: Image)
      ensures Valid() && this.image == image && fetched == []
    {
      this.image := image;
      terminals := map[];
      fetched := [];
    }

    /**
     * The memoised walk gives the same answer as the plain one, and whatever the outcome
     * no chain word has been fetched a second time.
     */
    method Terminal(start: nat) returns (r: Result<nat, Error>)
      requires Valid()
      modifies this
      ensures r == ChainEnd(image, start)
      ensures r.Ok? ==> Valid() && start in terminals
      ensures NoRepeats(fetched) && old(fetched) <= fetched
    {
      hide NoRepeats, Odd;
      var path: seq<nat> := [];
      var index := start;
      var stopped := false;
      while !stopped && index !in terminals
        invariant terminals == old(terminals)
        invariant start <= index
        invariant ChainEnd(image, start) == ChainEnd(image, index)
        invariant forall p :: p in path <==> start <= p < index || (stopped && p == index)
        invariant forall p :: p in path ==> ChainEnd(image, p) == ChainEnd(image, index)
        invariant stopped ==> ChainEnd(image, index) == Ok(index)
        invariant forall k :: k in fetched <==> k in terminals || k in path
        invariant NoRepeats(fetched) && old(fetched) <= fetched
        decreases !stopped, image.symbolOffset + |image.words| - index
      {
        if index < image.symbolOffset || index - image.symbolOffset >= Limit(image) {
          return Err(ChainEscapes);
        }
        var value := image.words[index - image.symbolOffset];
        path := path + [index];
        NoRepeatsExtends(fetched, index);
        fetched := fetched + [index];
        if value % 2 == 1 {
          stopped := true;
        } else {
          index := index + 1;
          if index > MAX_DYNAMIC_SYMBOLS {
            return Err(ChainTooLong);
          }
        }
      }
      var result := if stopped then index else terminals[index];
      assert ChainEnd(image, start) == Ok(result);
      RecordAll(path, result);
      r := Ok(result);
    }

    /** Every index of a walked path gets the path's end. */
    method RecordAll(path: seq<nat>, result: nat)
      requires forall p :: p in path ==> ChainEnd(image, p) == Ok(result)
      modifies this`terminals
      ensures forall k :: k in terminals <==> k in old(terminals) || k in path
      ensures forall k :: k in terminals ==> terminals[k] == if k in path then result else old(terminals)[k]
    {
      for i := 0 to |path|
        invariant forall k :: k in terminals <==> k in old(terminals) || k in path[..i]
        invariant forall k :: k in terminals ==> terminals[k] == if k in path[..i] then result else old(terminals)[k]
      {
        assert path[..i + 1] == path[..i] + [path[i]];
        terminals := terminals[path[i] := result];
      }
      assert path[..|path|] == path;
    }
  }

  // ----- The whole section ---------------------------------------------------------------

  predicate HeaderValid(image: Image) {
    && 0 < |image.buckets| <= MAX_HASH_BUCKETS
    && 0 < |image.bloom| && BitAnd(|image.bloom|, |image.bloom| - 1) == 0
    && image.symbolOffset <= MAX_DYNAMIC_SYMBOLS
    && image.bloomShift < 32
  }

  /** Largest chain end over the first `n` buckets, or the first reason to refuse one. */
  function LastTerminal(image: Image, n: nat): (r: Result<int, Error>)
    requires n <= |image.buckets|
    ensures r.Ok? ==> r.value == image.symbolOffset - 1 || (r.value >= 0 && Odd(image, r.value))
  {
    if n == 0 then Ok(image.symbolOffset - 1)
    else
      var before := LastTerminal(image, n - 1);
      var start := image.buckets[n - 1];
      if before.Err? || start == 0 then before
      else if start < image.symbolOffset || start > MAX_DYNAMIC_SYMBOLS then Err(BucketInvalid)
      else
        var end := ChainEnd(image, start);
        if end.Err? then Err(end.error) else Ok(Max(before.value, end.value))
  }

  function ReadTable(image: Image): (r: Result<Table, Error>)
    ensures r.Ok? ==> r.value.WellFormed()
  {
    if !HeaderValid(image) then Err(HeaderInvalid)
    else
      var last := LastTerminal(image, |image.buckets|);
      if last.Err? then Err(last.error)
      else
        var count := Max(image.symbolOffset, last.value + 1);
        if count <= 0 || count > MAX_DYNAMIC_SYMBOLS then Err(CardinalityInvalid)
        else Ok(Table(count, image.symbolOffset, image.bloomShift, image.elfClass.WordBits(),
                      image.bloom, image.buckets, image.words[..count - image.symbolOffset]))
  }

  /** The loop over the buckets, with one memo for all of them. */
  method MaximumTerminal(image: Image, memo: ChainMemo) returns (r: Result<int, Error>)
    requires memo.Valid() && memo.image == image
    modifies memo
    ensures r == LastTerminal(image, |image.buckets|)
    ensures NoRepeats(memo.fetched)
  {
    hide ChainEnd, Odd, NoRepeats;
    var maximumTerminal: int := image.symbolOffset - 1;
    for i := 0 to |image.buckets|
      invariant memo.Valid()
      invariant LastTerminal(image, i) == Ok(maximumTerminal)
    {
      var value := image.buckets[i];
      if value != 0 {
        if value < image.symbolOffset || value > MAX_DYNAMIC_SYMBOLS {
          FailsOnward(image, i + 1, |image.buckets|);
          return Err(BucketInvalid);
        }
        var end := memo.Terminal(value);
        if end.Err? {
          FailsOnward(image, i + 1, |image.buckets|);
          return Err(end.error);
        }
        maximumTerminal := Max(maximumTerminal, end.value);
      }
    }
    r := Ok(maximumTerminal);
  }

  /** The reader with its shared memo: same table or error, no chain word walked twice. */
  method GnuHashSymbolCount(image: Image) returns (r: Result<Table, Error>, ghost fetched: seq<nat>)
    ensures r == ReadTable(image)
    ensures NoRepeats(fetched)
  {
    hide BitAnd, LastTerminal, NoRepeats;
    fetched := [];
    NothingRepeats();
    if
      || |image.buckets| == 0 || |image.buckets| > MAX_HASH_BUCKETS
      || |image.bloom| == 0 || BitAnd(|image.bloom|, |image.bloom| - 1) != 0
      || image.symbolOffset > MAX_DYNAMIC_SYMBOLS || image.bloomShift >= 32
    {
      return Err(HeaderInvalid), fetched;
    }
    var memo := new ChainMemo(image);
    var last := MaximumTerminal(image, memo);
    fetched := memo.fetched;
    if last.Err? {
      return Err(last.error), fetched;
    }
    var count := Max(image.symbolOffset, last.value + 1);
    if count <= 0 || count > MAX_DYNAMIC_SYMBOLS {
      return Err(CardinalityInvalid), fetched;
    }
    var chains: seq<nat> := [];
    for i := 0 to count - image.symbolOffset
      invariant chains == image.words[..i]
    {
      chains := chains + [image.words[i]];
    }
    r := Ok(Table(count, image.symbolOffset, image.bloomShift, image.elfClass.WordBits(),
                  image.bloom, image.buckets, chains));
  }

  lemma NothingRepeats()
    ensures NoRepeats([])
  {
  }

  lemma {:induction false} FailsOnward(image: Image, n: nat, m: nat)
    requires n <= m <= |image.buckets| && LastTerminal(image, n).Err?
    ensures LastTerminal(image, m) == LastTerminal(image, n)
  {
    if n < m {
      FailsOnward(image, n, m - 1);
    }
  }

  // ----- What acceptance means -----------------------------------------------------------

  /** Every chain named by the first `n` buckets ends at or before symbol `bound`. */
  ghost predicate AllEnd(image: Image, n: nat, bound: int)
    requires n <= |image.buckets|
  {
    forall i :: 0 <= i < n && image.buckets[i] != 0 ==>
      exists last: nat :: EndsAt(image, image.buckets[i], last) && last <= bound
  }

  /** One of the first `n` buckets names a chain ending exactly at symbol `last`. */
  predicate Attained(image: Image, n: nat, last: nat)
    requires n <= |image.buckets|
  {
    exists i :: 0 <= i < n && image.buckets[i] != 0 && EndsAt(image, image.buckets[i], last)
  }

  predicate NoChains(image: Image, n: nat)
    requires n <= |image.buckets|
  {
    forall i :: 0 <= i < n ==> image.buckets[i] == 0
  }

  lemma {:induction false} LastTerminalMeans(image: Image, n: nat)
    requires n <= |image.buckets| && image.symbolOffset <= MAX_DYNAMIC_SYMBOLS && LastTerminal(image, n).Ok?
    ensures
      var m := LastTerminal(image, n).value;
      m <= MAX_DYNAMIC_SYMBOLS && AllEnd(image, n, m) &&
      if NoChains(image, n) then m == image.symbolOffset - 1 else m >= image.symbolOffset && Attained(image, n, m)
  {
    hide ChainEnd, EndsAt, Odd, AllEnd, Attained, NoChains;
    if n == 0 {
      NoBuckets(image);
    } else {
      LastTerminalMeans(image, n - 1);
      var start := image.buckets[n - 1];
      if start == 0 {
        EmptyBucket(image, n, LastTerminal(image, n - 1).value);
      } else {
        var end := ChainEnd(image, start).value;
        ChainEndExact(image, start, end);
        ChainAfter(image, start, end);
        OneMoreChain(image, n, LastTerminal(image, n - 1).value, end);
      }
    }
  }

  lemma NoBuckets(image: Image)
    ensures AllEnd(image, 0, image.symbolOffset - 1) && NoChains(image, 0)
  {
  }

  lemma EmptyBucket(image: Image, n: nat, m: int)
    requires 0 < n <= |image.buckets| && image.buckets[n - 1] == 0 && AllEnd(image, n - 1, m)
    ensures AllEnd(image, n, m) && (NoChains(image, n) <==> NoChains(image, n - 1))
    ensures m >= 0 && Attained(image, n - 1, m) ==> Attained(image, n, m)
  {
    hide EndsAt;
  }

  lemma ChainAfter(image: Image, start: nat, end: nat)
    requires EndsAt(image, start, end)
    ensures image.symbolOffset <= start <= end
  {
  }

  /** With one more chain the larger end covers all of them, and one of them attains it. */
  lemma OneMoreChain(image: Image, n: nat, m: int, end: nat)
    requires 0 < n <= |image.buckets| && image.buckets[n - 1] != 0 && EndsAt(image, image.buckets[n - 1], end)
    requires AllEnd(image, n - 1, m) && end >= image.symbolOffset
    requires if NoChains(image, n - 1) then m == image.symbolOffset - 1
             else m >= image.symbolOffset && Attained(image, n - 1, m)
    ensures !NoChains(image, n) && AllEnd(image, n, Max(m, end))
    ensures Max(m, end) >= image.symbolOffset && Attained(image, n, Max(m, end))
  {
    hide EndsAt;
    forall i | 0 <= i < n && image.buckets[i] != 0
      ensures exists last: nat :: EndsAt(image, image.buckets[i], last) && last <= Max(m, end)
    {
      if i < n - 1 {
        var last: nat :| EndsAt(image, image.buckets[i], last) && last <= m;
        assert last <= Max(m, end);
      }
    }
    if m > end {
      var i :| 0 <= i < n - 1 && image.buckets[i] != 0 && EndsAt(image, image.buckets[i], m);
      assert Attained(image, n, m);
    } else {
      assert Attained(image, n, end);
    }
  }

  lemma {:induction false} EndingChainsAreRead(image: Image, n: nat)
    requires n <= |image.buckets| && AllEnd(image, n, MAX_DYNAMIC_SYMBOLS)
    ensures LastTerminal(image, n).Ok?
  {
    if n > 0 {
      EndingChainsAreRead(image, n - 1);
      var start := image.buckets[n - 1];
      if start != 0 {
        var last: nat :| EndsAt(image, start, last) && last <= MAX_DYNAMIC_SYMBOLS;
        ChainEndExact(image, start, last);
      }
    }
  }

  /**
   * A section is accepted exactly when its header is valid, every chain it names ends inside
   * the mapped words below the symbol limit, and at least one symbol is counted.
   */
  lemma AcceptedExact(image: Image)
    ensures ReadTable(image).Ok? <==>
      && HeaderValid(image)
      && AllEnd(image, |image.buckets|, MAX_DYNAMIC_SYMBOLS - 1)
      && (image.symbolOffset > 0 || !NoChains(image, |image.buckets|))
  {
    var n := |image.buckets|;
    if HeaderValid(image) {
      if LastTerminal(image, n).Ok? {
        LastTerminalMeans(image, n);
        var m := LastTerminal(image, n).value;
        if AllEnd(image, n, MAX_DYNAMIC_SYMBOLS - 1) && !NoChains(image, n) {
          var i :| 0 <= i < n && image.buckets[i] != 0 && EndsAt(image, image.buckets[i], m);
          var last: nat :| EndsAt(image, image.buckets[i], last) && last <= MAX_DYNAMIC_SYMBOLS - 1;
          assert last == m;
        }
      } else if AllEnd(image, n, MAX_DYNAMIC_SYMBOLS - 1) {
        assert AllEnd(image, n, MAX_DYNAMIC_SYMBOLS);
        EndingChainsAreRead(image, n);
      }
    }
  }

  /** The symbol count is one past the last chain end, or the offset when there is no chain. */
  lemma SymbolCountExact(image: Image, table: Table)
    requires ReadTable(image) == Ok(table)
    ensures AllEnd(image, |image.buckets|, table.symbolCount - 1)
    ensures table.symbolCount > 0
    ensures if NoChains(image, |image.buckets|) then table.symbolCount == image.symbolOffset
            else table.symbolCount > image.symbolOffset && Attained(image, |image.buckets|, table.symbolCount - 1)
    ensures table.symbolOffset == image.symbolOffset
    ensures table.chains == image.words[..table.symbolCount - image.symbolOffset]
  {
    hide LastTerminal, BitAnd, ChainEnd, AllEnd, Attained;
    LastTerminalMeans(image, |image.buckets|);
  }
}
