/** Data of the Coucal hashtable: items, hashes and table positions. */
module CoucalTypes {
  import opened Bytes

  const STASH_SIZE := 16
  const MIN_LG_SIZE := 4
  const MIN_POOL_CAPACITY := 256
  const COUCAL_HASH_SIZE := 32

  /** One 32-bit hash. */
  type HashKey = h: int | 0 <= h < 0x1_0000_0000

  datatype HashKeys = HashKeys(hash1: HashKey, hash2: HashKey)

  /** A value is one machine word; zero is the NULL pointer. */
  type Value = int

  /** A `char*` key: NULL, the address of `the_empty_string`, or an address inside the pool. */
  datatype Name = Null | EmptyString | At(address: int)

  datatype Item = Item(name: Name, value: Value, hashes: HashKeys)

  /** The all-zero item, as `calloc` and `memset` leave it. */
  const FREE := Item(Null, 0, HashKeys(0, 0))

  function Pow2(n: nat): (r: nat)
    ensures r > 0
  {
    if n == 0 then 1 else 2 * Pow2(n - 1)
  }

  lemma Pow2Twice(n: nat)
    requires n > 0
    ensures Pow2(n) == 2 * Pow2(n - 1)
  {
  }

  lemma {:induction false} Pow2Monotone(m: nat, n: nat)
    requires m <= n
    ensures Pow2(m) <= Pow2(n)
    decreases n
  {
    if m < n {
      Pow2Monotone(m, n - 1);
    }
  }

  /** `hash & (2**lg - 1)`: the low `lg` bits of the hash. */
  function Position(lg: nat, hash: HashKey): (pos: nat)
    ensures pos < Pow2(lg)
  {
    hash % Pow2(lg)
  }

  lemma MulAtLeast(k: nat, n: nat)
    requires k > 0
    ensures k * n >= n
  {
    assert (k - 1) * n >= 0;
  }

  /** Euclidean division has one quotient and remainder. */
  lemma DivModUnique(q: nat, r: nat, q': nat, r': nat, n: nat)
    requires r < n && r' < n
    requires q * n + r == q' * n + r'
    ensures q == q' && r == r'
  {
    if q < q' {
      MulAtLeast(q' - q, n);
    } else if q' < q {
      MulAtLeast(q - q', n);
    }
  }

  lemma TwiceTimes(q: nat, n: nat)
    ensures q * (2 * n) == (2 * q) * n
    ensures (2 * q + 1) * n == (2 * q) * n + n
  {
  }

  lemma DivMod(x: nat, n: nat) returns (q: nat, r: nat)
    requires n > 0
    ensures r == x % n && r < n
    ensures x == q * n + r
  {
    q, r := x / n, x % n;
  }

  /** The bits above the low `lg` ones do not matter, and the low ones are the position. */
  lemma LowBits(lg: nat, high: nat, low: nat)
    requires low < Pow2(lg) && high * Pow2(lg) + low < 0x1_0000_0000
    ensures Position(lg, high * Pow2(lg) + low) == low
  {
    var hash := high * Pow2(lg) + low;
    var q, r := DivMod(hash, Pow2(lg));
    DivModUnique(q, r, high, low, Pow2(lg));
  }

  /** One more bit of the hash either keeps the position or adds the old size to it. */
  lemma PositionAfterDoubling(lg: nat, hash: HashKey)
    ensures Position(lg + 1, hash) == Position(lg, hash)
         || Position(lg + 1, hash) == Position(lg, hash) + Pow2(lg)
  {
    ModuloTwice(hash, Pow2(lg), 2 * Pow2(lg));
  }

  lemma ModuloTwice(x: nat, n: nat, n2: nat)
    requires n > 0 && n2 == 2 * n
    ensures x % n2 == x % n || x % n2 == x % n + n
  {
    var q, r := DivMod(x, n);
    var q2, r2 := DivMod(x, n2);
    TwiceTimes(q2, n);
    if r2 < n {
      DivModUnique(q, r, 2 * q2, r2, n);
    } else {
      DivModUnique(q, r, 2 * q2 + 1, r2 - n, n);
    }
  }
}
