/**
 Linear congruential generators modulo a power of two: iterating x -> (a*x + c) mod 2^k.

 The full-period argument runs over the exact integers. Iterating x -> a*x + c without any
 modulus moves x by Sum(a, n) * ((a - 1)*x + c). The second factor is odd, so the walk modulo 2^k
 is back at x exactly when 2^k divides Sum(a, n) = 1 + a + ... + a^(n-1), and for a = 1 mod 4
 that is exactly when 2^k divides n.
 */
module Lcg {
  import opened Arith

  function Step(a: nat, c: nat, k: nat, x: nat): (r: nat)
    ensures r < Pow2(k)
  {
    Wrap(a * x + c, k)
  }

  /** The value `n` steps after `x`. */
  function Iter(a: nat, c: nat, k: nat, n: nat, x: nat): nat {
    if n == 0 then x else Step(a, c, k, Iter(a, c, k, n - 1, x))
  }

  /** The same walk over the integers. */
  function Exact(a: nat, c: nat, n: nat, x: nat): nat {
    if n == 0 then x else a * Exact(a, c, n - 1, x) + c
  }

  function Power(a: nat, n: nat): nat {
    if n == 0 then 1 else a * Power(a, n - 1)
  }

  /** 1 + a + ... + a^(n-1) */
  function Sum(a: nat, n: nat): nat {
    if n == 0 then 0 else 1 + a * Sum(a, n - 1)
  }

  lemma {:induction false} IterIsExact(a: nat, c: nat, k: nat, n: nat, x: nat)
    ensures Wrap(Iter(a, c, k, n, x), k) == Wrap(Exact(a, c, n, x), k)
    ensures n > 0 || x < Pow2(k) ==> Iter(a, c, k, n, x) == Wrap(Exact(a, c, n, x), k)
  {
    if n > 0 {
      IterIsExact(a, c, k, n - 1, x);
      StepCong(a, c, k, Iter(a, c, k, n - 1, x), Exact(a, c, n - 1, x));
      WrapSmall(Iter(a, c, k, n, x), k);
    } else if x < Pow2(k) {
      WrapSmall(x, k);
    }
  }

  /** One step only sees its argument modulo 2^k. */
  lemma StepCong(a: nat, c: nat, k: nat, x: nat, y: nat)
    requires Wrap(x, k) == Wrap(y, k)
    ensures Step(a, c, k, x) == Step(a, c, k, y)
  {
    hide Wrap;
    WrapMul(x, a, k);
    WrapMul(y, a, k);
    WrapAdd(a * x, c, k);
    WrapAdd(a * y, c, k);
    assert x * a == a * x && y * a == a * y;
  }

  lemma {:induction false} ExactClosedForm(a: nat, c: nat, n: nat, x: nat)
    ensures Exact(a, c, n, x) - x == Sum(a, n) * ((a - 1) * x + c)
  {
    if n > 0 {
      ExactClosedForm(a, c, n - 1, x);
      DriftStep(a, c, x, Sum(a, n - 1), (a - 1) * x + c, Exact(a, c, n - 1, x));
    } else {
      assert Sum(a, n) * ((a - 1) * x + c) == 0;
    }
  }

  lemma DriftStep(a: int, c: int, x: int, s: int, d: int, e: int)
    requires e == x + s * d && d == (a - 1) * x + c
    ensures a * e + c - x == (1 + a * s) * d
  {
    Distribute(a, x, s * d);
    Assoc(a, s, d);
    Distribute(d, 1, a * s);
    Distribute(x, a, -1);
  }

  lemma {:induction false} ExactCompose(a: nat, c: nat, i: nat, j: nat, x: nat)
    ensures Exact(a, c, i + j, x) == Exact(a, c, i, Exact(a, c, j, x))
  {
    if i > 0 {
      ExactCompose(a, c, i - 1, j, x);
    }
  }

  lemma {:induction false} SumSplit(a: nat, i: nat, j: nat)
    ensures Sum(a, i + j) == Sum(a, i) + Power(a, i) * Sum(a, j)
  {
    if i > 0 {
      SumSplit(a, i - 1, j);
      Assoc(a, Power(a, i - 1), Sum(a, j));
      Distribute(a, Sum(a, i - 1), Power(a, i - 1) * Sum(a, j));
      assert i + j - 1 == i - 1 + j;
    }
  }

  lemma SumDouble(a: nat, n: nat)
    ensures Sum(a, 2 * n) == Sum(a, n) * (Power(a, n) + 1)
  {
    SumSplit(a, n, n);
    Distribute(Sum(a, n), Power(a, n), 1);
  }

  lemma {:induction false} PowerMod4(a: nat, n: nat)
    requires a % 4 == 1
    ensures Power(a, n) % 4 == 1
  {
    if n > 0 {
      PowerMod4(a, n - 1);
      ModShift(Power(a, n - 1), (a / 4) * Power(a, n - 1), 4);
      Distribute(Power(a, n - 1), 4 * (a / 4), 1);
      Assoc(4, a / 4, Power(a, n - 1));
    }
  }

  lemma {:induction false} PowerOdd(a: nat, n: nat)
    requires a % 2 == 1
    ensures Power(a, n) % 2 == 1
  {
    if n > 0 {
      PowerOdd(a, n - 1);
      OddTimes(a, Power(a, n - 1));
    }
  }

  lemma {:induction false} SumParity(a: nat, n: nat)
    requires a % 2 == 1
    ensures Sum(a, n) % 2 == n % 2
  {
    if n > 0 {
      SumParity(a, n - 1);
      OddTimes(a, Sum(a, n - 1));
      ParityStep(a * Sum(a, n - 1), n);
    }
  }

  lemma ParityStep(t: nat, n: nat)
    requires n > 0 && t % 2 == (n - 1) % 2
    ensures (1 + t) % 2 == n % 2
  {
  }

  /** Twice an odd factor contributes exactly one factor of two. */
  lemma OneFactorOfTwo(y: nat, odd: nat, k: nat)
    requires odd % 2 == 1 && k > 0
    ensures Divides(k, y * (2 * odd)) <==> Divides(k - 1, y)
  {
    Assoc(2, y, odd);
    Assoc(y, 2, odd);
    OddFactor(y, odd, k - 1);
  }

  lemma SumHalves(a: nat, n: nat) returns (odd: nat)
    requires a % 4 == 1
    ensures odd % 2 == 1 && Sum(a, 2 * n) == Sum(a, n) * (2 * odd)
  {
    hide *;
    SumDouble(a, n);
    PowerMod4(a, n);
    odd := (Power(a, n) + 1) / 2;
    assert Power(a, n) + 1 == 2 * odd;
  }

  /** For a = 1 mod 4 the geometric sum has exactly the factors of two that `n` has. */
  lemma {:induction false} SumDivisible(a: nat, k: nat, n: nat)
    requires a % 4 == 1
    ensures Divides(k, Sum(a, n)) <==> Divides(k, n)
    decreases k
  {
    hide Sum;
    if k > 0 {
      SumParity(a, n);
      if n % 2 == 0 {
        var odd := SumHalves(a, n / 2);
        OneFactorOfTwo(Sum(a, n / 2), odd, k);
        SumDivisible(a, k - 1, n / 2);
      }
    }
  }

  /** The displacement factor (a - 1)*x + c is odd. */
  lemma DriftOdd(a: nat, c: nat, x: nat)
    requires a % 2 == 1 && c % 2 == 1
    ensures ((a - 1) * x + c) % 2 == 1
  {
    var h := (a - 1) / 2;
    assert (a - 1) * x + c == c + (h * x) * 2;
    ModShift(c, h * x, 2);
  }

  /** The orbit of `y` is back at `y` modulo 2^k exactly when 2^k divides the number of steps. */
  lemma OrbitReturns(a: nat, c: nat, k: nat, n: nat, y: nat)
    requires a % 4 == 1 && c % 2 == 1
    ensures Wrap(Exact(a, c, n, y), k) == Wrap(y, k) <==> Divides(k, n)
  {
    hide *;
    ExactClosedForm(a, c, n, y);
    DriftOdd(a, c, y);
    OddFactor(Sum(a, n), (a - 1) * y + c, k);
    SumDivisible(a, k, n);
    CongruentDivides(Exact(a, c, n, y), y, k);
  }

  /** Two positions of one orbit coincide modulo 2^k exactly when 2^k divides their distance. */
  lemma OrbitCoincides(a: nat, c: nat, k: nat, i: nat, j: nat, x: nat)
    requires a % 4 == 1 && c % 2 == 1
    ensures Wrap(Exact(a, c, i, x), k) == Wrap(Exact(a, c, j, x), k) <==> Divides(k, i - j)
  {
    hide *;
    CongruentDivides(i, j, k);
    CongruentDivides(j, i, k);
    var lo, hi := if i < j then i else j, if i < j then j else i;
    ExactCompose(a, c, hi - lo, lo, x);
    OrbitReturns(a, c, k, hi - lo, Exact(a, c, lo, x));
  }

  /** Full period: from any start the generator is back after `n` steps exactly when 2^k | n. */
  lemma FullPeriod(a: nat, c: nat, k: nat, n: nat, x: nat)
    requires a % 4 == 1 && c % 2 == 1 && x < Pow2(k)
    ensures Iter(a, c, k, n, x) == x <==> Divides(k, n)
  {
    hide *;
    IterIsExact(a, c, k, n, x);
    WrapSmall(x, k);
    OrbitReturns(a, c, k, n, x);
  }

  /** Iterating an odd multiplier never merges two residues. */
  lemma {:induction false} ExactCancel(a: nat, c: nat, k: nat, n: nat, x: nat, y: nat)
    requires a % 2 == 1 && Wrap(Exact(a, c, n, x), k) == Wrap(Exact(a, c, n, y), k)
    ensures Wrap(x, k) == Wrap(y, k)
  {
    if n > 0 {
      StepCancel(a, c, k, Exact(a, c, n - 1, x), Exact(a, c, n - 1, y));
      ExactCancel(a, c, k, n - 1, x, y);
    }
  }

  lemma StepCancel(a: nat, c: nat, k: nat, e: nat, f: nat)
    requires a % 2 == 1 && Step(a, c, k, e) == Step(a, c, k, f)
    ensures Wrap(e, k) == Wrap(f, k)
  {
    assert Wrap(a * e + c, k) == Wrap(a * f + c, k);
    hide *;
    var d: int := e - f;
    CongruentDivides(a * e + c, a * f + c, k);
    Distribute(a, d, f);
    assert d * a == a * d == (a * e + c) - (a * f + c);
    OddFactor(d, a, k);
    CongruentDivides(e, f, k);
  }

  /** Every residue is reached from every start, in fewer than 2^k steps. */
  lemma {:induction false} Reaches(a: nat, c: nat, k: nat, x: nat, y: nat) returns (n: nat)
    requires a % 4 == 1 && c % 2 == 1
    ensures n < Pow2(k) && Wrap(Exact(a, c, n, x), k) == Wrap(y, k)
  {
    hide Exact;
    if k == 0 {
      n := 0;
    } else {
      n := Reaches(a, c, k - 1, x, y);
      n := LiftReach(a, c, k, x, y, n);
    }
  }

  /** A hit modulo 2^(k-1) is a hit modulo 2^k, if not at once then 2^(k-1) steps later. */
  lemma LiftReach(a: nat, c: nat, k: nat, x: nat, y: nat, n: nat) returns (n': nat)
    requires a % 4 == 1 && c % 2 == 1
    requires k > 0 && n < Pow2(k - 1) && Wrap(Exact(a, c, n, x), k - 1) == Wrap(y, k - 1)
    ensures n' < Pow2(k) && Wrap(Exact(a, c, n', x), k) == Wrap(y, k)
  {
    hide *;
    var h := Pow2(k - 1);
    Doubles(k);
    n' := n;
    if Wrap(Exact(a, c, n, x), k) != Wrap(y, k) {
      ShiftedPower(n, k);
      OrbitCoincides(a, c, k - 1, n + h, n, x);
      OrbitCoincides(a, c, k, n + h, n, x);
      OtherHalf(Exact(a, c, n, x), Exact(a, c, n + h, x), y, k);
      n' := n + h;
    }
  }

  lemma Doubles(k: nat)
    requires k > 0
    ensures Pow2(k) == Pow2(k - 1) + Pow2(k - 1)
  {
  }

  lemma ShiftedPower(n: nat, k: nat)
    requires k > 0
    ensures Divides(k - 1, n + Pow2(k - 1) - n) && !Divides(k, n + Pow2(k - 1) - n)
  {
    PowerDivides(k - 1);
  }

  /** A residue modulo 2^(k-1) has just two lifts modulo 2^k. */
  lemma OtherHalf(p: nat, q: nat, y: nat, k: nat)
    requires k > 0
    requires Wrap(p, k - 1) == Wrap(q, k - 1) == Wrap(y, k - 1)
    requires Wrap(p, k) != Wrap(q, k) && Wrap(p, k) != Wrap(y, k)
    ensures Wrap(q, k) == Wrap(y, k)
  {
    Lift(p, k);
    Lift(q, k);
    Lift(y, k);
  }

  lemma {:induction false} Lift(p: nat, k: nat)
    requires k > 0
    ensures Wrap(p, k) == Wrap(p, k - 1) || Wrap(p, k) == Wrap(p, k - 1) + Pow2(k - 1)
  {
    if k > 1 {
      Lift(p / 2, k - 1);
    }
  }

  // The parameter condition is exact: no other multiplier or increment has full period.

  /** With an odd multiplier 2^j divides Sum(a, 2^j), for a = 3 mod 4 even 2^(j+1) does. */
  lemma {:induction false} SumAtPowerOfTwo(a: nat, j: nat)
    requires a % 2 == 1
    ensures Divides(j, Sum(a, Pow2(j)))
    ensures a % 4 == 3 && j > 0 ==> Divides(j + 1, Sum(a, Pow2(j)))
  {
    if j > 0 {
      assert Pow2(j) == 2 * Pow2(j - 1);
      hide Sum, Power;
      SumAtPowerOfTwo(a, j - 1);
      SumAtDouble(a, Pow2(j - 1), j - 1);
      if j > 1 && a % 4 == 3 {
        SumAtDouble(a, Pow2(j - 1), j);
      }
      SumAtTwo(a);
    }
  }

  lemma SumAtTwo(a: nat)
    ensures a % 4 == 3 ==> Divides(2, Sum(a, Pow2(1)))
  {
    assert Pow2(1) == 2 * Pow2(0) == 2 && Sum(a, 2) == 1 + a * Sum(a, 1);
    assert Sum(a, 1) == 1 + a * Sum(a, 0) == 1;
  }

  lemma SumAtDouble(a: nat, n: nat, k: nat)
    requires a % 2 == 1 && Divides(k, Sum(a, n))
    ensures Divides(k + 1, Sum(a, 2 * n))
  {
    hide *;
    SumDouble(a, n);
    PowerOdd(a, n);
    EvenFactor(Sum(a, n), Power(a, n) + 1, k);
  }

  /** An even multiplier merges 0 and 2^(k-1), so they cannot both lie on a cycle. */
  lemma EvenMultiplierMerges(a: nat, c: nat, k: nat) returns (x: nat)
    requires k > 0 && a % 2 == 0
    ensures x < Pow2(k) && Iter(a, c, k, Pow2(k), x) != x
  {
    var h, n := Pow2(k - 1), Pow2(k);
    PowerDivides(k - 1);
    EvenFactor(h, a, k - 1);
    assert Divides(k, a * h + c - c) by {
      assert h * a == a * h;
    }
    CongruentDivides(a * h + c, c, k);
    ExactOne(a, c, 0);
    ExactOne(a, c, h);
    hide *;
    ExactCompose(a, c, n - 1, 1, 0);
    ExactCompose(a, c, n - 1, 1, h);
    ExactCong(a, c, k, n - 1, a * h + c, c);
    IterIsExact(a, c, k, n, 0);
    IterIsExact(a, c, k, n, h);
    x := if Iter(a, c, k, n, 0) == 0 then h else 0;
  }

  lemma ExactOne(a: nat, c: nat, x: nat)
    ensures Exact(a, c, 1, x) == a * x + c
  {
    assert Exact(a, c, 0, x) == x;
  }

  lemma {:induction false} ExactCong(a: nat, c: nat, k: nat, n: nat, x: nat, y: nat)
    requires Wrap(x, k) == Wrap(y, k)
    ensures Wrap(Exact(a, c, n, x), k) == Wrap(Exact(a, c, n, y), k)
  {
    if n > 0 {
      ExactCong(a, c, k, n - 1, x, y);
      StepCong(a, c, k, Exact(a, c, n - 1, x), Exact(a, c, n - 1, y));
    }
  }

  /** An odd multiplier with the wrong partner brings 0 back after half the modulus. */
  lemma HalfPeriod(a: nat, c: nat, k: nat)
    requires k >= 2 && a % 2 == 1 && !(a % 4 == 1 && c % 2 == 1)
    ensures Iter(a, c, k, Pow2(k - 1), 0) == 0
  {
    hide *;
    var n := Pow2(k - 1);
    assert (a - 1) * 0 + c == c;
    IterIsExact(a, c, k, n, 0);
    ExactClosedForm(a, c, n, 0);
    if c % 2 == 0 {
      SumAtPowerOfTwo(a, k - 1);
      EvenFactor(Sum(a, n), c, k - 1);
    } else {
      SumAtPowerOfTwo(a, k - 1);
      DividesProduct(Sum(a, n), c, k);
    }
    CongruentDivides(Exact(a, c, n, 0), 0, k);
    WrapSmall(0, k);
  }

  ghost predicate HasFullPeriod(a: nat, c: nat, k: nat) {
    forall n: nat, x: nat | x < Pow2(k) :: Iter(a, c, k, n, x) == x <==> Divides(k, n)
  }

  /** Modulo 2^k, k >= 2, the period is full exactly for a = 1 mod 4 and c odd. */
  lemma FullPeriodExactly(a: nat, c: nat, k: nat)
    requires k >= 2
    ensures HasFullPeriod(a, c, k) <==> a % 4 == 1 && c % 2 == 1
  {
    if a % 4 == 1 && c % 2 == 1 {
      forall n: nat, x: nat | x < Pow2(k) ensures Iter(a, c, k, n, x) == x <==> Divides(k, n) {
        FullPeriod(a, c, k, n, x);
      }
    } else if a % 2 == 0 {
      var x := EvenMultiplierMerges(a, c, k);
      PowerDivides(k);
    } else {
      HalfPeriod(a, c, k);
      PowerDivides(k - 1);
    }
  }
}
