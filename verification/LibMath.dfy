/**
 The pseudo-random number generator of lib_math: its step in wrapping 32-bit arithmetic, the
 sequence it hands out, and the shared seed behind a critical section.
 */
module LibMath {
  import opened Arith
  import Lcg

  const RAND_SEED_INIT_VAL: nat := 1
  const RAND_LCG_PARAM_M: nat := 0x7FFF_FFFF
  const RAND_LCG_PARAM_A: nat := 1103515245
  const RAND_LCG_PARAM_B: nat := 12345

  /** The step as the C expression computes it: product and sum wrap at 32 bits. */
  function RandSeed(seed: nat): nat {
    Wrap(Wrap(RAND_LCG_PARAM_A * seed, 32) + RAND_LCG_PARAM_B, 32) % (RAND_LCG_PARAM_M + 1)
  }

  /** The `n`-th number drawn after the seed was set to `seed`; number 0 is the seed itself. */
  function Nth(seed: nat, n: nat): nat {
    if n == 0 then seed else RandSeed(Nth(seed, n - 1))
  }

  /** The wrap-around is invisible: the step is the documented generator, exact modulo 2^31. */
  lemma RandSeedIsExact(seed: nat)
    ensures RandSeed(seed) == (1103515245 * seed + 12345) % 0x8000_0000
    ensures RandSeed(seed) == Lcg.Step(RAND_LCG_PARAM_A, RAND_LCG_PARAM_B, 31, seed)
    ensures RandSeed(seed) <= RAND_LCG_PARAM_M
  {
    hide Wrap, Pow2;
    var product := RAND_LCG_PARAM_A * seed;
    Word31(product + RAND_LCG_PARAM_B);
    Word31(Wrap(Wrap(product, 32) + RAND_LCG_PARAM_B, 32));
    WrapAdd(product, RAND_LCG_PARAM_B, 32);
    WrapWrap(product + RAND_LCG_PARAM_B, 32, 31);
  }

  lemma {:induction false} NthIsIter(seed: nat, n: nat)
    ensures Nth(seed, n) == Lcg.Iter(RAND_LCG_PARAM_A, RAND_LCG_PARAM_B, 31, n, seed)
  {
    if n > 0 {
      NthIsIter(seed, n - 1);
      RandSeedIsExact(Nth(seed, n - 1));
    }
  }

  lemma Parameters()
    ensures RAND_LCG_PARAM_A == 1103515245 && RAND_LCG_PARAM_B == 12345
    ensures RAND_LCG_PARAM_A % 4 == 1 && RAND_LCG_PARAM_B % 2 == 1 && RAND_LCG_PARAM_M == 0x7FFF_FFFF
  {
  }

  lemma Word31(x: int)
    ensures Pow2(31) == 0x8000_0000
    ensures Wrap(x, 31) == x % 0x8000_0000
    ensures Divides(31, x) <==> x % 0x8000_0000 == 0
  {
    hide *;
    Pow2Values();
    ShiftIsMul(x, 31);
    DividesIsMod(31, x);
  }

  /** The generator returns to its seed after exactly the multiples of 2^31. */
  lemma RandFullPeriod(seed: nat, n: nat)
    requires seed <= RAND_LCG_PARAM_M
    ensures Nth(seed, n) == seed <==> n % 0x8000_0000 == 0
  {
    hide *;
    Parameters();
    Word31(n);
    NthIsIter(seed, n);
    Lcg.FullPeriod(RAND_LCG_PARAM_A, RAND_LCG_PARAM_B, 31, n, seed);
  }

  /** Two draws agree in their low `k` bits exactly when 2^k divides the distance between them. */
  lemma LowBitsPeriod(seed: nat, k: nat, i: nat, j: nat)
    requires k <= 31
    ensures Wrap(Nth(seed, i), k) == Wrap(Nth(seed, j), k) <==> Divides(k, i - j)
  {
    hide *;
    Parameters();
    LowBitsAreExact(seed, k, i);
    LowBitsAreExact(seed, k, j);
    Lcg.OrbitCoincides(RAND_LCG_PARAM_A, RAND_LCG_PARAM_B, k, i, j, seed);
  }

  lemma LowBitsAreExact(seed: nat, k: nat, n: nat)
    requires k <= 31
    ensures Wrap(Nth(seed, n), k) == Wrap(Lcg.Exact(RAND_LCG_PARAM_A, RAND_LCG_PARAM_B, n, seed), k)
  {
    hide *;
    NthIsIter(seed, n);
    Lcg.IterIsExact(RAND_LCG_PARAM_A, RAND_LCG_PARAM_B, 31, n, seed);
    WrapWrap(Nth(seed, n), 31, k);
    WrapWrap(Lcg.Exact(RAND_LCG_PARAM_A, RAND_LCG_PARAM_B, n, seed), 31, k);
  }

  /** The low `k` bits form a generator of their own: they never look at the bits above. */
  lemma LowBitsGenerator(seed: nat, k: nat, n: nat)
    requires k <= 31
    ensures Wrap(Nth(seed, n), k)
         == Lcg.Iter(RAND_LCG_PARAM_A, RAND_LCG_PARAM_B, k, n, Wrap(seed, k))
  {
    hide *;
    var low := Wrap(seed, k);
    LowBitsAreExact(seed, k, n);
    WrapSmall(low, k);
    Lcg.ExactCong(RAND_LCG_PARAM_A, RAND_LCG_PARAM_B, k, n, seed, low);
    Lcg.IterIsExact(RAND_LCG_PARAM_A, RAND_LCG_PARAM_B, k, n, low);
  }

  /** Seeds give the same sequence exactly when they agree modulo 2^31. */
  lemma SameSequence(s: nat, t: nat, n: nat)
    requires n > 0
    ensures Nth(s, n) == Nth(t, n) <==> s % 0x8000_0000 == t % 0x8000_0000
  {
    var a, c := RAND_LCG_PARAM_A, RAND_LCG_PARAM_B;
    hide *;
    Parameters();
    Word31(s);
    Word31(t);
    NthIsIter(s, n);
    NthIsIter(t, n);
    Lcg.IterIsExact(a, c, 31, n, s);
    Lcg.IterIsExact(a, c, 31, n, t);
    if Wrap(s, 31) == Wrap(t, 31) {
      Lcg.ExactCong(a, c, 31, n, s, t);
    } else if Nth(s, n) == Nth(t, n) {
      Lcg.ExactCancel(a, c, 31, n, s, t);
    }
  }

  lemma {:induction false} NthFrom(seed: nat, i: nat, j: nat)
    ensures Nth(seed, i + j) == Nth(Nth(seed, j), i)
  {
    if i > 0 {
      hide RandSeed;
      NthFrom(seed, i - 1, j);
    }
  }

  /** No value is drawn twice within 2^31 draws. */
  lemma NoRepeat(seed: nat, i: nat, j: nat)
    requires -0x8000_0000 < i - j < 0x8000_0000
    requires i > 0 && j > 0 && Nth(seed, i) == Nth(seed, j)
    ensures i == j
  {
    hide *;
    Word31(i - j);
    LowBitsPeriod(seed, 31, i, j);
  }

  lemma NthInRange(seed: nat, n: nat)
    requires n > 0
    ensures Nth(seed, n) <= RAND_LCG_PARAM_M
  {
    hide RandSeed;
    RandSeedIsExact(Nth(seed, n - 1));
  }

  /** Every value of the range is drawn, at the latest by draw 2^31. */
  lemma EveryValueDrawn(seed: nat, value: nat) returns (n: nat)
    requires value <= RAND_LCG_PARAM_M
    ensures 1 <= n <= 0x8000_0000 && Nth(seed, n) == value
  {
    hide *;
    Parameters();
    Word31(value);
    NthInRange(seed, 1);
    var first := Nth(seed, 1);
    var m := Lcg.Reaches(RAND_LCG_PARAM_A, RAND_LCG_PARAM_B, 31, first, value);
    n := m + 1;
    NthFrom(seed, m, 1);
    NthIsIter(first, m);
    Lcg.IterIsExact(RAND_LCG_PARAM_A, RAND_LCG_PARAM_B, 31, m, first);
    WrapSmall(value, 31);
  }

  /** From any 32-bit seed the first 2^31 draws produce every value of the range exactly once. */
  lemma EveryValueOnce(seed: nat, value: nat)
    requires value <= RAND_LCG_PARAM_M
    ensures exists n | 1 <= n <= 0x8000_0000 ::
              Nth(seed, n) == value
              && forall n' | 1 <= n' <= 0x8000_0000 && Nth(seed, n') == value :: n' == n
  {
    hide *;
    var n := EveryValueDrawn(seed, value);
    forall n' | 1 <= n' <= 0x8000_0000 && Nth(seed, n') == value ensures n' == n {
      NoRepeat(seed, n, n');
    }
  }

  /** The module state: the current seed. */
  class RandState {
    var seedCur: nat

    ghost predicate Valid()
      reads this
    {
      seedCur < Pow2(32)
    }

    constructor Init()
      ensures Valid() && seedCur == RAND_SEED_INIT_VAL
    {
      seedCur := RAND_SEED_INIT_VAL;
      Pow2Values();
    }

    method SetSeed(seed: nat)
      requires seed < Pow2(32)
      modifies this
      ensures Valid() && seedCur == seed
    {
      seedCur := seed;
    }

    /** Hands out the successor of the current seed and keeps it as the new seed. */
    method Rand() returns (rand: nat)
      requires Valid()
      modifies this
      ensures Valid() && rand == seedCur <= RAND_LCG_PARAM_M
      ensures rand == (1103515245 * old(seedCur) + 12345) % 0x8000_0000
    {
      var seed := seedCur;
      rand := RandSeed(seed);
      seedCur := rand;
      RandSeedIsExact(seed);
      Pow2Values();
    }
  }
}
