/** Bitwise operators on unbounded non-negative integers, as Python defines them. */
module BitWords {

  function Pow2(n: nat): (p: nat)
    ensures p > 0
  {
    if n == 0 then 1 else 2 * Pow2(n - 1)
  }

  /** Bit `i` of `w`. */
  predicate Bit(w: nat, i: nat) {
    if i == 0 then w % 2 == 1 else Bit(w / 2, i - 1)
  }

  function BitAnd(x: nat, y: nat): nat {
    if x == 0 || y == 0 then 0
    else (if x % 2 == 1 && y % 2 == 1 then 1 else 0) + 2 * BitAnd(x / 2, y / 2)
  }

  function BitOr(x: nat, y: nat): nat
    decreases x + y
  {
    if x == 0 then y
    else if y == 0 then x
    else (if x % 2 == 1 || y % 2 == 1 then 1 else 0) + 2 * BitOr(x / 2, y / 2)
  }

  function ShiftRight(w: nat, n: nat): nat {
    if n == 0 then w else ShiftRight(w / 2, n - 1)
  }

  lemma {:induction false} AndSelf(x: nat)
    ensures BitAnd(x, x) == x
  {
    if x > 0 {
      AndSelf(x / 2);
    }
  }

  lemma CoversByHalf(w: nat, mask: nat)
    ensures BitAnd(w, mask) == mask <==>
      (mask % 2 == 1 ==> w % 2 == 1) && BitAnd(w / 2, mask / 2) == mask / 2
  {
    if w > 0 && mask > 0 {
      assert mask == mask % 2 + 2 * (mask / 2);
    } else if mask > 0 {
      assert BitAnd(0, mask / 2) == 0;
    }
  }

  /** A word covers a union of masks exactly when it covers each of them. */
  lemma {:induction false} CoversBoth(w: nat, p: nat, q: nat)
    ensures BitAnd(w, BitOr(p, q)) == BitOr(p, q) <==> BitAnd(w, p) == p && BitAnd(w, q) == q
    decreases p + q
  {
    if p > 0 && q > 0 {
      CoversBoth(w / 2, p / 2, q / 2);
      assert BitOr(p, q) / 2 == BitOr(p / 2, q / 2);
      CoversByHalf(w, BitOr(p, q));
      CoversByHalf(w, p);
      CoversByHalf(w, q);
    }
  }

  /** A word covers a single shifted one exactly when it has that bit. */
  lemma {:induction false} CoversOne(w: nat, n: nat)
    ensures BitAnd(w, Pow2(n)) == Pow2(n) <==> Bit(w, n)
    decreases n
  {
    if n > 0 {
      CoversOne(w / 2, n - 1);
      CoversByHalf(w, Pow2(n));
    }
  }

  /** The two-bit mask test of a bloom word is the test of its two bits. */
  lemma TwoBitMask(w: nat, a: nat, b: nat)
    ensures
      var mask := BitOr(Pow2(a), Pow2(b));
      BitAnd(w, mask) == mask <==> Bit(w, a) && Bit(w, b)
  {
    CoversBoth(w, Pow2(a), Pow2(b));
    CoversOne(w, a);
    CoversOne(w, b);
  }

  /** Bit `n` is the lowest bit once the word is shifted right by `n`. */
  lemma {:induction false} ShiftedBit(w: nat, n: nat)
    ensures BitAnd(ShiftRight(w, n), 1) == 1 <==> Bit(w, n)
    decreases n
  {
    if n > 0 {
      ShiftedBit(w / 2, n - 1);
    } else {
      assert BitAnd(w / 2, 0) == 0;
    }
  }

  /** `n & (n - 1) == 0` picks the powers of two, where masking is a remainder. */
  lemma {:induction false} MaskIsRemainder(x: nat, n: nat)
    requires n > 0 && BitAnd(n, n - 1) == 0
    ensures BitAnd(x, n - 1) == x % n
    decreases n
  {
    if n > 1 {
      if n % 2 == 1 {
        assert (n - 1) / 2 == n / 2;
        AndSelf(n / 2);
        assert false;
      }
      var half := n / 2;
      assert n == 2 * half && (n - 1) / 2 == half - 1 && (n - 1) % 2 == 1;
      assert BitAnd(n, n - 1) == 2 * BitAnd(half, half - 1);
      MaskIsRemainder(x / 2, half);
      HalvesRemainder(x, half);
    }
  }

  lemma HalvesRemainder(x: nat, half: nat)
    requires half > 0
    ensures x % (2 * half) == x % 2 + 2 * ((x / 2) % half)
  {
    var q, r := x / 2 / half, x / 2 % half;
    assert x / 2 == q * half + r;
    assert x == (2 * half) * q + (2 * r + x % 2);
    RemainderUnique(x, 2 * half, q, 2 * r + x % 2);
  }

  lemma RemainderUnique(x: nat, n: nat, q: nat, r: nat)
    requires n > 0 && x == n * q + r && r < n
    ensures x % n == r && x / n == q
  {
    QuotientUnique(n, q, r, x / n, x % n);
  }

  lemma QuotientUnique(n: nat, q: nat, r: nat, q': nat, r': nat)
    requires r < n && r' < n && n * q + r == n * q' + r'
    ensures q == q' && r == r'
  {
    if q < q' {
      MulAtLeast(n, q' - q);
    } else if q' < q {
      MulAtLeast(n, q - q');
    }
  }

  lemma MulAtLeast(n: nat, d: nat)
    requires d >= 1
    ensures n * d >= n
  {
  }

  /** `c | 1` forgets exactly the lowest bit. */
  lemma OrOne(c: nat)
    ensures BitOr(c, 1) == 2 * (c / 2) + 1
  {
    assert BitOr(c / 2, 0) == c / 2;
  }
}
