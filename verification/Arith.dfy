/**
 Powers of two, machine words, shifts and divisibility by powers of two.

 Everything is defined bit by bit; ShiftIsMul and DividesIsMod say that these are
 multiplication and division by 2^w, the remainder modulo 2^w, and divisibility by 2^k.
 */
module Arith {

  function Pow2(n: nat): (r: nat)
    ensures r > 0
  {
    if n == 0 then 1 else 2 * Pow2(n - 1)
  }

  /** The low `w` bits of `x`, as a word of `w` bits keeps them (two's complement for x < 0). */
  function Wrap(x: int, w: nat): (r: nat)
    ensures r < Pow2(w)
    decreases w, x
  {
    if w == 0 then 0 else 2 * Wrap(x / 2, w - 1) + x % 2
  }

  /** x * 2^w */
  function Shl(x: int, w: nat): (r: int)
    ensures x >= 0 ==> r >= 0
    decreases w, x
  {
    if w == 0 then x else 2 * Shl(x, w - 1)
  }

  /** x / 2^w, rounded down */
  function Shr(x: int, w: nat): (r: int)
    ensures x >= 0 ==> r >= 0
    decreases w, x
  {
    if w == 0 then x else Shr(x / 2, w - 1)
  }

  /** Bitwise and */
  function And(x: nat, y: nat): (r: nat)
    ensures r <= x && r <= y
  {
    if x == 0 || y == 0 then 0 else 2 * And(x / 2, y / 2) + (if x % 2 == 1 && y % 2 == 1 then 1 else 0)
  }

  /** Bitwise or */
  function Or(x: nat, y: nat): nat {
    if x == 0 then y else if y == 0 then x else
    2 * Or(x / 2, y / 2) + (if x % 2 == 1 || y % 2 == 1 then 1 else 0)
  }

  /** 2^k divides x. */
  predicate Divides(k: nat, x: int)
    decreases k, x
  {
    k == 0 || (x % 2 == 0 && Divides(k - 1, x / 2))
  }

  // Division and remainder

  lemma MulAtMost(a: int, b: int, m: int)
    requires m >= 0 && a <= b
    ensures a * m <= b * m
  {
    assert (b - a) * m >= 0;
  }

  lemma MulLess(a: int, b: int, m: int)
    requires m > 0 && a * m < b * m
    ensures a < b
  {
    if a >= b {
      MulAtMost(b, a, m);
      assert false;
    }
  }

  lemma Assoc(x: int, y: int, z: int)
    ensures x * (y * z) == (x * y) * z
  {
  }

  lemma Distribute(x: int, y: int, z: int)
    ensures x * (y + z) == x * y + x * z
    ensures (y + z) * x == y * x + z * x
  {
  }

  lemma DivModUnique(x: int, q: int, r: int, m: int)
    requires m > 0 && 0 <= r < m && x == q * m + r
    ensures x / m == q && x % m == r
  {
    var q', r' := x / m, x % m;
    assert x == q' * m + r';
    assert (q - q') * m == r' - r;
    if q > q' {
      MulAtMost(1, q - q', m);
    } else if q < q' {
      MulAtMost(q - q', -1, m);
    }
  }

  lemma ModShift(x: int, k: int, m: int)
    requires m > 0
    ensures (x + k * m) % m == x % m
    ensures (x + k * m) / m == x / m + k
  {
    assert x + k * m == (x / m + k) * m + x % m;
    DivModUnique(x + k * m, x / m + k, x % m, m);
  }

  // Powers of two

  lemma {:induction false} Pow2Add(a: nat, b: nat)
    ensures Pow2(a + b) == Pow2(a) * Pow2(b)
  {
    if a > 0 {
      Pow2Add(a - 1, b);
    }
  }

  /** The word sizes of the source. */
  lemma Pow2Values()
    ensures Pow2(1) == 2 && Pow2(8) == 0x100 && Pow2(16) == 0x1_0000
    ensures Pow2(31) == 0x8000_0000 && Pow2(32) == 0x1_0000_0000
    ensures Pow2(64) == 0x1_0000_0000_0000_0000
  {
    assert Pow2(1) == 2 && Pow2(8) == 0x100 && Pow2(32) == 2 * Pow2(31);
    hide Pow2;
    Pow2Add(8, 8);
    Pow2Add(16, 16);
    Pow2Add(32, 32);
  }

  /** The powers of two at byte positions. */
  lemma Bytes()
    ensures Pow2(0) == 1 && Pow2(8) == 0x100 && Pow2(16) == 0x1_0000 && Pow2(24) == 0x100_0000 && Pow2(32) == 0x1_0000_0000
    ensures Pow2(40) == 0x100_0000_0000 && Pow2(48) == 0x1_0000_0000_0000
    ensures Pow2(56) == 0x100_0000_0000_0000 && Pow2(64) == 0x1_0000_0000_0000_0000
  {
    assert Pow2(0) == 1 && Pow2(8) == 0x100;
    hide Pow2;
    Pow2Add(8, 8);
    Pow2Add(16, 8);
    Pow2Add(24, 8);
    Pow2Add(32, 8);
    Pow2Add(40, 8);
    Pow2Add(48, 8);
    Pow2Add(56, 8);
  }

  lemma {:induction false} Pow2Monotone(a: nat, b: nat)
    requires a <= b
    ensures Pow2(a) <= Pow2(b)
    ensures a < b ==> 2 * Pow2(a) <= Pow2(b)
  {
    if a < b {
      Pow2Monotone(a, b - 1);
    }
  }

  // Words

  /** Taking out multiples of 2^w leaves the word. */
  lemma {:induction false} WrapShl(q: int, x: int, w: nat)
    ensures Wrap(Shl(q, w) + x, w) == Wrap(x, w)
    decreases w
  {
    if w > 0 {
      WrapShl(q, x / 2, w - 1);
      assert (Shl(q, w) + x) / 2 == Shl(q, w - 1) + x / 2;
    }
  }

  /** A number is its high part and its low part. */
  lemma {:induction false} Decompose(x: int, w: nat)
    ensures x == Shl(Shr(x, w), w) + Wrap(x, w)
    decreases w
  {
    if w > 0 {
      Decompose(x / 2, w - 1);
    }
  }

  lemma {:induction false} ShlAdd(x: int, y: int, w: nat)
    ensures Shl(x + y, w) == Shl(x, w) + Shl(y, w)
    decreases w
  {
    if w > 0 {
      ShlAdd(x, y, w - 1);
    }
  }

  lemma {:induction false} ShlMul(x: int, y: int, w: nat)
    ensures Shl(x * y, w) == x * Shl(y, w)
    decreases w
  {
    if w > 0 {
      ShlMul(x, y, w - 1);
      Assoc(2, x, Shl(y, w - 1));
    }
  }

  lemma {:induction false} ShlOne(w: nat)
    ensures Shl(1, w) == Pow2(w)
  {
    if w > 0 {
      ShlOne(w - 1);
    }
  }

  /** In plain arithmetic: the low part is the remainder, the high part the quotient. */
  lemma ShiftIsMul(x: int, w: nat)
    ensures Shl(x, w) == x * Pow2(w)
    ensures Shr(x, w) == x / Pow2(w)
    ensures Wrap(x, w) == x % Pow2(w)
  {
    hide *;
    Decompose(x, w);
    ShlMul(x, 1, w);
    ShlMul(Shr(x, w), 1, w);
    ShlOne(w);
    DivModUnique(x, Shr(x, w), Wrap(x, w), Pow2(w));
  }

  lemma {:induction false} WrapSmall(x: nat, w: nat)
    requires x < Pow2(w)
    ensures Wrap(x, w) == x
  {
    if w > 0 {
      WrapSmall(x / 2, w - 1);
    }
  }

  lemma WrapZero(w: nat)
    ensures Wrap(0, w) == 0
  {
    WrapSmall(0, w);
  }

  lemma WrapAdd(x: int, y: int, w: nat)
    ensures Wrap(Wrap(x, w) + y, w) == Wrap(x + y, w)
    ensures Wrap(y + Wrap(x, w), w) == Wrap(x + y, w)
  {
    hide *;
    Decompose(x, w);
    WrapShl(Shr(x, w), Wrap(x, w) + y, w);
  }

  lemma WrapSub(x: int, y: int, w: nat)
    ensures Wrap(Wrap(x, w) - Wrap(y, w), w) == Wrap(x - y, w)
  {
    hide *;
    Decompose(x, w);
    Decompose(y, w);
    var p, q := Shr(x, w), Shr(y, w);
    ShlAdd(p - q, q, w);
    WrapShl(p - q, Wrap(x, w) - Wrap(y, w), w);
  }

  lemma WrapMul(x: int, y: int, w: nat)
    ensures Wrap(Wrap(x, w) * y, w) == Wrap(x * y, w)
  {
    hide *;
    Decompose(x, w);
    Distribute(y, Shl(Shr(x, w), w), Wrap(x, w));
    ShlMul(y, Shr(x, w), w);
    WrapShl(y * Shr(x, w), Wrap(x, w) * y, w);
  }

  /** A wide word cut to a narrow one is the narrow word. */
  lemma {:induction false} WrapWrap(x: int, wide: nat, narrow: nat)
    requires narrow <= wide
    ensures Wrap(Wrap(x, wide), narrow) == Wrap(x, narrow)
    decreases narrow
  {
    if narrow > 0 {
      WrapWrap(x / 2, wide - 1, narrow - 1);
    }
  }

  /** Bit `k` of an and is set where both bits are, of an or where one is. */
  lemma {:induction false} Bitwise(x: nat, y: nat, k: nat)
    ensures Shr(And(x, y), k) % 2 == 1 <==> Shr(x, k) % 2 == 1 && Shr(y, k) % 2 == 1
    ensures Shr(Or(x, y), k) % 2 == 1 <==> Shr(x, k) % 2 == 1 || Shr(y, k) % 2 == 1
    decreases k
  {
    LowBits(x, y);
    hide And, Or;
    if k > 0 {
      Bitwise(x / 2, y / 2, k - 1);
    }
  }

  lemma LowBits(x: nat, y: nat)
    ensures And(x, y) % 2 == 1 <==> x % 2 == 1 && y % 2 == 1
    ensures Or(x, y) % 2 == 1 <==> x % 2 == 1 || y % 2 == 1
    ensures And(x, y) / 2 == And(x / 2, y / 2) && Or(x, y) / 2 == Or(x / 2, y / 2)
  {
    AndUnfold(x, y);
    OrUnfold(x, y);
    hide *;
    HalfAndBit(And(x / 2, y / 2), if x % 2 == 1 && y % 2 == 1 then 1 else 0);
    HalfAndBit(Or(x / 2, y / 2), if x % 2 == 1 || y % 2 == 1 then 1 else 0);
  }

  lemma AndUnfold(x: nat, y: nat)
    ensures And(x, y) == 2 * And(x / 2, y / 2) + (if x % 2 == 1 && y % 2 == 1 then 1 else 0)
  {
  }

  lemma OrUnfold(x: nat, y: nat)
    ensures Or(x, y) == 2 * Or(x / 2, y / 2) + (if x % 2 == 1 || y % 2 == 1 then 1 else 0)
  {
    if x == 0 || y == 0 {
      OrZero(x / 2);
      OrZero(y / 2);
    }
  }

  lemma HalfAndBit(h: nat, b: nat)
    requires b <= 1
    ensures (2 * h + b) / 2 == h && (2 * h + b) % 2 == b
  {
  }

  /** Or of words that share no bit position is their sum. */
  lemma {:induction false} OrShl(x: nat, y: nat, w: nat)
    requires y < Pow2(w)
    ensures Or(Shl(x, w), y) == Shl(x, w) + y
    decreases w
  {
    if w > 0 {
      OrShl(x, y / 2, w - 1);
      OrZero(y / 2);
    }
  }

  lemma OrZero(x: nat)
    ensures Or(0, x) == x == Or(x, 0)
  {
  }

  lemma {:induction false} OrCommutes(x: nat, y: nat)
    ensures Or(x, y) == Or(y, x)
  {
    if x != 0 && y != 0 {
      OrCommutes(x / 2, y / 2);
    }
  }

  /** A shifted mask selects a field in place. */
  lemma {:induction false} AndShl(x: nat, mask: nat, s: nat)
    ensures And(x, Shl(mask, s)) == Shl(And(Shr(x, s), mask), s)
    decreases s
  {
    if s > 0 {
      AndShl(x / 2, mask, s - 1);
      if x == 0 {
        assert And(Shr(x, s), mask) == And(Shr(0, s - 1), mask);
      }
    }
  }

  /** Masking with 2^w - 1 keeps the low `w` bits. */
  lemma {:induction false} AndMask(x: nat, w: nat)
    ensures And(x, Pow2(w) - 1) == Wrap(x, w)
    decreases w
  {
    if x == 0 {
      WrapZero(w);
    } else if w > 0 {
      AndMask(x / 2, w - 1);
      assert (Pow2(w) - 1) / 2 == Pow2(w - 1) - 1;
      if w == 1 {
        assert And(x / 2, 0) == 0;
      }
    }
  }

  /** The low and high parts of a number put together from them. */
  lemma ShlParts(x: int, y: nat, w: nat)
    requires y < Pow2(w)
    ensures Shr(Shl(x, w) + y, w) == x
    ensures Wrap(Shl(x, w) + y, w) == y
  {
    ShrShl(x, y, w);
    WrapShl(x, y, w);
    WrapSmall(y, w);
  }

  lemma {:induction false} ShrShl(x: int, y: nat, w: nat)
    requires y < Pow2(w)
    ensures Shr(Shl(x, w) + y, w) == x
    decreases w
  {
    if w > 0 {
      ShrShl(x, y / 2, w - 1);
      assert (Shl(x, w) + y) / 2 == Shl(x, w - 1) + y / 2;
    }
  }

  /** Shifting keeps a strict order with room for the low parts. */
  lemma {:induction false} ShlOrder(x: int, y: int, w: nat)
    requires x < y
    ensures Shl(x, w) + Pow2(w) <= Shl(y, w)
    decreases w
  {
    if w > 0 {
      ShlOrder(x, y, w - 1);
    }
  }

  /** The low part of a shifted number. */
  lemma {:induction false} WrapOfShl(x: int, s: nat, w: nat)
    ensures Wrap(Shl(x, s), s + w) == Shl(Wrap(x, w), s)
    decreases s
  {
    if s > 0 {
      WrapOfShl(x, s - 1, w);
    }
  }

  /** Shifting right by `s` moves bounds that are powers of two by `s`. */
  lemma {:induction false} ShrBounds(val: nat, s: nat, k: nat)
    ensures Shr(val, s) < Pow2(k) <==> val < Pow2(k + s)
  {
    if s > 0 {
      ShrBounds(val / 2, s - 1, k);
    }
  }

  // Divisibility

  lemma {:induction false} DividesIsWrap(k: nat, x: int)
    ensures Divides(k, x) <==> Wrap(x, k) == 0
    decreases k
  {
    if k > 0 {
      DividesIsWrap(k - 1, x / 2);
    }
  }

  lemma DividesIsMod(k: nat, x: int)
    ensures Divides(k, x) <==> x % Pow2(k) == 0
  {
    DividesIsWrap(k, x);
    ShiftIsMul(x, k);
  }

  /** Congruence modulo 2^k. */
  lemma CongruentDivides(x: int, y: int, k: nat)
    ensures Wrap(x, k) == Wrap(y, k) <==> Divides(k, x - y)
  {
    hide *;
    DividesIsWrap(k, x - y);
    WrapSub(x, y, k);
    WrapSmall(0, k);
    if Wrap(x - y, k) == 0 {
      WrapAdd(x - y, y, k);
    }
  }

  /** An odd factor keeps parity. */
  lemma OddTimes(odd: int, y: int)
    requires odd % 2 == 1
    ensures (odd * y) % 2 == y % 2
  {
    var q := odd / 2;
    Distribute(y, 2 * q, 1);
    Assoc(2, q, y);
    ModShift(y, q * y, 2);
  }

  /** Odd factors do not matter for divisibility by a power of two. */
  lemma {:induction false} OddFactor(y: int, odd: int, k: nat)
    requires odd % 2 == 1
    ensures Divides(k, y * odd) <==> Divides(k, y)
    decreases k
  {
    if k > 0 {
      OddTimes(odd, y);
      assert y * odd == odd * y;
      if y % 2 == 0 {
        Assoc(2, y / 2, odd);
        OddFactor(y / 2, odd, k - 1);
      }
    }
  }

  /** An even factor adds one power of two. */
  lemma EvenFactor(x: int, even: int, k: nat)
    requires even % 2 == 0 && Divides(k, x)
    ensures Divides(k + 1, x * even)
  {
    var h := even / 2;
    assert x * even == 2 * (x * h) by {
      Assoc(x, 2, h);
      Assoc(2, x, h);
    }
    DividesProduct(x, h, k);
  }

  lemma {:induction false} DividesProduct(x: int, y: int, k: nat)
    requires Divides(k, x)
    ensures Divides(k, x * y)
    decreases k
  {
    if k > 0 {
      Assoc(2, x / 2, y);
      DividesProduct(x / 2, y, k - 1);
    }
  }

  lemma {:induction false} PowerDivides(k: nat)
    ensures Divides(k, Pow2(k)) && !Divides(k + 1, Pow2(k))
  {
    if k > 0 {
      PowerDivides(k - 1);
    }
  }
}
