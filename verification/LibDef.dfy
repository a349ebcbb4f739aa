/**
 The range checks of lib_def.h under C's usual arithmetic conversions: when one operand is
 unsigned, the other is converted to unsigned, so a negative one becomes large
 (section 6.3.1.8 of ISO/IEC 9899:TC2). `bits` is the word width.
 */
module LibDef {
  import opened Arith

  /** An operand of one word: its mathematical value and whether its type is unsigned. */
  datatype Operand = Operand(val: int, unsigned: bool)

  /** The documented range: above -2^(N-1), and at most 2^(N-1)-1 signed or 2^N-1 unsigned. */
  predicate InRange(bits: nat, x: Operand)
    requires bits > 0
  {
    if x.unsigned then 0 <= x.val < Pow2(bits) else 0 - Pow2(bits - 1) < x.val < Pow2(bits - 1)
  }

  const ONE: Operand := Operand(1, false)

  /** The operand as it takes part in an operation with `other`. */
  function Converted(bits: nat, x: Operand, other: Operand): int {
    if x.unsigned || other.unsigned then Wrap(x.val, bits) else x.val
  }

  /** The C expression x < y. */
  predicate CLess(bits: nat, x: Operand, y: Operand) {
    Converted(bits, x, y) < Converted(bits, y, x)
  }

  /** DEF_CHK_VAL_MIN, true for DEF_OK. */
  predicate ChkValMin(bits: nat, val: Operand, min: Operand) {
    !( !(!CLess(bits, val, ONE) && CLess(bits, min, ONE))
       && ((!CLess(bits, min, ONE) && CLess(bits, val, ONE)) || CLess(bits, val, min)))
  }

  /** DEF_CHK_VAL_MAX, true for DEF_OK. */
  predicate ChkValMax(bits: nat, val: Operand, max: Operand) {
    !( !(!CLess(bits, max, ONE) && CLess(bits, val, ONE))
       && ((!CLess(bits, val, ONE) && CLess(bits, max, ONE)) || CLess(bits, max, val)))
  }

  /** DEF_CHK_VAL, true for DEF_OK. */
  predicate ChkVal(bits: nat, val: Operand, min: Operand, max: Operand) {
    ChkValMin(bits, val, min) && ChkValMax(bits, val, max)
  }

  predicate UnsignedZero(x: Operand) {
    x.unsigned && x.val == 0
  }

  /** The one pair of operands that the checks get wrong. */
  predicate ZeroAgainstNegative(x: Operand, y: Operand) {
    (UnsignedZero(x) && y.val < 0) || (x.val < 0 && UnsignedZero(y))
  }

  lemma WrapInRange(bits: nat, x: Operand)
    requires bits > 0 && InRange(bits, x)
    ensures Wrap(x.val, bits) == if x.val < 0 then x.val + Pow2(bits) else x.val
    ensures x.val < 0 ==> Wrap(x.val, bits) > Pow2(bits - 1) > 0
  {
    assert Pow2(bits) == 2 * Pow2(bits - 1);
    hide Wrap, Pow2;
    if x.val >= 0 {
      WrapSmall(x.val, bits);
    } else {
      ShlOne(bits);
      WrapShl(1, x.val, bits);
      WrapSmall(x.val + Pow2(bits), bits);
    }
  }

  lemma OneInRange(bits: nat)
    requires bits > 1
    ensures InRange(bits, ONE) && InRange(bits, Operand(-1, false)) && InRange(bits, Operand(0, true))
    ensures Pow2(bits) == 2 * Pow2(bits - 1) && Pow2(bits - 1) >= 2
  {
  }

  /** Comparing with the literal 1 is right for every operand in range. */
  lemma LessThanOne(bits: nat, x: Operand)
    requires bits > 1 && InRange(bits, x)
    ensures CLess(bits, x, ONE) <==> x.val < 1
  {
    OneInRange(bits);
    hide Wrap, Pow2;
    WrapInRange(bits, x);
    WrapInRange(bits, ONE);
  }

  /** The C comparison is the integer one unless a signed negative meets an unsigned operand. */
  lemma LessExactly(bits: nat, x: Operand, y: Operand)
    requires bits > 1 && InRange(bits, x) && InRange(bits, y)
    requires x.val < 1 <==> y.val < 1
    ensures (CLess(bits, x, y) <==> x.val < y.val) <==> !ZeroAgainstNegative(x, y)
    ensures ZeroAgainstNegative(x, y) ==> (CLess(bits, x, y) <==> UnsignedZero(x))
  {
    hide Wrap, Pow2;
    WrapInRange(bits, x);
    WrapInRange(bits, y);
  }

  /** The minimum check gives the integer verdict exactly when no unsigned 0 meets a negative value. */
  lemma ChkValMinExactly(bits: nat, val: Operand, min: Operand)
    requires bits > 1 && InRange(bits, val) && InRange(bits, min)
    ensures (ChkValMin(bits, val, min) <==> val.val >= min.val) <==> !ZeroAgainstNegative(val, min)
  {
    hide CLess;
    LessThanOne(bits, val);
    LessThanOne(bits, min);
    if val.val < 1 <==> min.val < 1 {
      LessExactly(bits, val, min);
    }
  }

  /** The documentation excludes no such operands, yet unsigned 0 is found to be below -1. */
  lemma ZeroBelowMinusOne(bits: nat)
    requires bits > 1
    ensures InRange(bits, Operand(0, true)) && InRange(bits, Operand(-1, false))
    ensures !ChkValMin(bits, Operand(0, true), Operand(-1, false))
  {
    OneInRange(bits);
    hide ChkValMin, Wrap, Pow2;
    ChkValMinExactly(bits, Operand(0, true), Operand(-1, false));
  }

  lemma ChkValMaxExactly(bits: nat, val: Operand, max: Operand)
    requires bits > 1 && InRange(bits, val) && InRange(bits, max)
    ensures (ChkValMax(bits, val, max) <==> val.val <= max.val) <==> !ZeroAgainstNegative(max, val)
  {
    hide CLess;
    LessThanOne(bits, val);
    LessThanOne(bits, max);
    if val.val < 1 <==> max.val < 1 {
      LessExactly(bits, max, val);
    }
  }

  /** The operands for which DEF_CHK_VAL is wrong; errors of the two checks can cancel. */
  predicate RangeCheckWrong(val: Operand, min: Operand, max: Operand) {
    if UnsignedZero(val) then
      (min.val < 0 && max.val >= 0) || (min.val == 0 && max.val < 0)
    else
      val.val < 0
      && ((UnsignedZero(min) && !UnsignedZero(max) && val.val <= max.val)
          || (UnsignedZero(max) && min.val <= val.val))
  }

  /** The range check gives the integer verdict exactly outside those operands. */
  lemma ChkValExactly(bits: nat, val: Operand, min: Operand, max: Operand)
    requires bits > 1 && InRange(bits, val) && InRange(bits, min) && InRange(bits, max)
    ensures (ChkVal(bits, val, min, max) <==> min.val <= val.val <= max.val)
       <==> !RangeCheckWrong(val, min, max)
  {
    hide ChkValMin, ChkValMax;
    ChkValMinExactly(bits, val, min);
    ChkValMaxExactly(bits, val, max);
  }
}
