/** The server's pseudo-random generator (generator.h, generator.cpp): a
    multiplicative congruential generator over a single 64-bit state. */
module Prng {
  import opened Ints

  const MOD: nat := 4294967291
  const GEN: nat := 279470273

  /** The product of a state below `MOD` and `GEN` fits in `uint64_t`. */
  lemma ProductFits(s: nat)
    requires s < MOD
    ensures s * GEN < TWO_TO_64
  {
    assert s * GEN <= (MOD - 1) * GEN;
  }

  /** The state after one step: the `uint64_t` product (wrapped modulo 2^64, as
      the machine does) reduced modulo `MOD`. The wrap never happens. */
  function NextState(s: nat): (r: nat)
    requires s < MOD
    ensures r < MOD
    ensures r == (s * GEN) % MOD
  {
    ProductFits(s);
    (s * GEN) % TWO_TO_64 % MOD
  }

  /** The state after `k` steps from `s`. */
  function Iterate(s: nat, k: nat): (r: nat)
    requires s < MOD
    ensures r < MOD
  {
    if k == 0 then s else NextState(Iterate(s, k - 1))
  }

  /** The `k`-th value the generator seeded with `seed` returns (counting from 0). */
  function Output(seed: uint32, k: nat): (r: uint32)
  {
    Iterate(seed % MOD, k)
  }

  function Pow(b: nat, k: nat): nat {
    if k == 0 then 1 else b * Pow(b, k - 1)
  }

  lemma ModMul(a: nat, b: nat, m: nat)
    requires m > 0
    ensures (a % m * b) % m == (a * b) % m
  {
    var q := a / m;
    assert a == q * m + a % m;
    assert a * b == (q * b) * m + (a % m) * b;
    ModAddMultiple(q * b, m, (a % m) * b);
  }

  /** Closed form: the state after `k` steps is `s * GEN^k mod MOD`. */
  lemma {:induction false} IterateClosedForm(s: nat, k: nat)
    requires s < MOD
    ensures Iterate(s, k) == (s * Pow(GEN, k)) % MOD
  {
    if k > 0 {
      IterateClosedForm(s, k - 1);
      ModMul(s * Pow(GEN, k - 1), GEN, MOD);
      assert s * Pow(GEN, k - 1) * GEN == s * Pow(GEN, k);
    }
  }

  /** A seed that is a multiple of `MOD` (0 among them) yields only zeros. */
  lemma {:induction false} ZeroSeedIsStuck(seed: uint32, k: nat)
    requires seed % MOD == 0
    ensures Output(seed, k) == 0
  {
    if k > 0 {
      ZeroSeedIsStuck(seed, k - 1);
    }
  }

  class Generator {
    var r: nat
    /** The seed and the number of values returned so far, for the specification. */
    ghost const seed: uint32
    ghost var calls: nat

    ghost predicate Valid()
      reads this
    {
      r < MOD && r == Iterate(seed % MOD, calls)
    }

    /** `Generator(seed)`: the state starts as `seed % MOD`. */
    constructor (seed: uint32)
      ensures Valid()
      ensures this.seed == seed && calls == 0
      ensures r == seed % MOD
    {
      r := seed % MOD;
      this.seed := seed;
      calls := 0;
    }

    /** `next()`: return the old state, advance it by one step; the old state is
        below `MOD`, so its conversion to `uint32_t` loses nothing. */
    method Next() returns (out: uint32)
      requires Valid()
      modifies this
      ensures Valid()
      ensures out == old(r) && out == Output(seed, old(calls))
      ensures r == NextState(old(r)) && calls == old(calls) + 1
    {
      var oldR := r;
      ProductFits(r);
      r := (r * GEN) % TWO_TO_64 % MOD;
      calls := calls + 1;
      out := oldR % TWO_TO_32;
    }
  }
}
