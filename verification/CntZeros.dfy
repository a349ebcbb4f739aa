/**
 Counting leading and trailing zeros (cpu_core): a table lookup on the topmost nonzero byte, and
 trailing zeros by isolating the lowest set bit.
 */
module CntZeros {
  import opened Arith
  import opened Sequences

  /** The 256 entries of the source's table, run by run. */
  function LeadZerosTbl(): (tbl: seq<nat>)
    ensures |tbl| == 256
  {
    [8, 7, 6, 6, 5, 5, 5, 5, 4, 4, 4, 4, 4, 4, 4, 4]
    + Repeat(3, 16) + Repeat(2, 32) + Repeat(1, 64) + Repeat(0, 128)
  }

  /** `n` is the number of leading zeros of `val` as a word of `width` bits. */
  predicate IsLeadZeros(width: nat, val: nat, n: nat) {
    n <= width && (if val == 0 then n == width else n < width && Pow2(width - 1 - n) <= val < Pow2(width - n))
  }

  lemma TableEntry(ix: nat)
    requires ix < 256
    ensures IsLeadZeros(8, ix, LeadZerosTbl()[ix])
  {
    var n := LeadZerosTbl()[ix];
    assert n == if ix < 1 then 8 else if ix < 2 then 7 else if ix < 4 then 6 else if ix < 8 then 5
            else if ix < 16 then 4 else if ix < 32 then 3 else if ix < 64 then 2 else if ix < 128 then 1 else 0;
    assert Pow2(0) == 1 && Pow2(1) == 2 && Pow2(2) == 4 && Pow2(3) == 8 && Pow2(4) == 16;
    assert Pow2(5) == 32 && Pow2(6) == 64 && Pow2(7) == 128 && Pow2(8) == 256;
  }

  // The tiered lookups: find the topmost nonzero byte, look it up, add the zeros above it.

  /** One table lookup: the byte of `val` at bit `shift`, plus the zeros above that byte. */
  function Lookup(val: nat, shift: nat, above: nat): nat
    requires val < Pow2(shift + 8)
  {
    Bytes();
    ShrBounds(val, shift, 8);
    LeadZerosTbl()[Shr(val, shift)] + above
  }

  function CntLeadZeros08(val: nat): nat
    requires val < Pow2(8)
  {
    Lookup(val, 0, 0)
  }

  function CntLeadZeros16(val: nat): nat
    requires val < Pow2(16)
  {
    Bytes();
    if val > 0xFF then Lookup(val, 8, 0) else Lookup(val, 0, 8)
  }

  function CntLeadZeros32(val: nat): nat
    requires val < Pow2(32)
  {
    Bytes();
    if val > 0xFFFF then
      if val > 0xFF_FFFF then Lookup(val, 24, 0) else Lookup(val, 16, 8)
    else
      if val > 0xFF then Lookup(val, 8, 16) else Lookup(val, 0, 24)
  }

  function CntLeadZeros64(val: nat): nat
    requires val < Pow2(64)
  {
    Bytes();
    if val > 0xFFFF_FFFF then
      if val > 0xFFFF_FFFF_FFFF then
        if val > 0xFF_FFFF_FFFF_FFFF then Lookup(val, 56, 0) else Lookup(val, 48, 8)
      else
        if val > 0xFF_FFFF_FFFF then Lookup(val, 40, 16) else Lookup(val, 32, 24)
    else
      if val > 0xFFFF then
        if val > 0xFF_FFFF then Lookup(val, 24, 32) else Lookup(val, 16, 40)
      else
        if val > 0xFF then Lookup(val, 8, 48) else Lookup(val, 0, 56)
  }

  predicate IsWidth(width: nat) {
    width == 8 || width == 16 || width == 32 || width == 64
  }

  function CntLeadZeros(width: nat, val: nat): nat
    requires IsWidth(width) && val < Pow2(width)
  {
    if width == 8 then CntLeadZeros08(val)
    else if width == 16 then CntLeadZeros16(val)
    else if width == 32 then CntLeadZeros32(val)
    else CntLeadZeros64(val)
  }

  /** The lookup is right when the byte looked up is the topmost nonzero one, or the lowest. */
  lemma LookupRight(width: nat, val: nat, shift: nat, above: nat)
    requires width == shift + 8 + above && val < Pow2(shift + 8)
    requires shift == 0 || val >= Pow2(shift)
    ensures IsLeadZeros(width, val, Lookup(val, shift, above))
  {
    hide Shr, LeadZerosTbl, Pow2;
    assert Pow2(8) == 256 && Pow2(0) == 1 && Shr(val, 0) == val by { BaseCases(val); }
    ShrBounds(val, shift, 8);
    ShrBounds(val, shift, 0);
    var ix := Shr(val, shift);
    TableEntry(ix);
    var n := LeadZerosTbl()[ix];
    if ix > 0 {
      ShrBounds(val, shift, 7 - n);
      ShrBounds(val, shift, 8 - n);
    }
  }

  lemma BaseCases(val: nat)
    ensures Pow2(8) == 256 && Pow2(0) == 1 && Shr(val, 0) == val
  {
  }

  /** Every tier of every width counts the leading zeros. */
  lemma LeadZerosRight(width: nat, val: nat)
    requires IsWidth(width) && val < Pow2(width)
    ensures IsLeadZeros(width, val, CntLeadZeros(width, val))
  {
    hide Pow2, Lookup, IsLeadZeros;
    Bytes();
    var shift :=
      if val > 0xFF_FFFF_FFFF_FFFF then 56 else if val > 0xFFFF_FFFF_FFFF then 48
      else if val > 0xFF_FFFF_FFFF then 40 else if val > 0xFFFF_FFFF then 32
      else if val > 0xFF_FFFF then 24 else if val > 0xFFFF then 16
      else if val > 0xFF then 8 else 0;
    LookupRight(width, val, shift, width - 8 - shift);
  }

  lemma LeadZerosUnique(width: nat, val: nat, n: nat, n': nat)
    requires IsLeadZeros(width, val, n) && IsLeadZeros(width, val, n')
    ensures n == n'
  {
    if n < n' < width {
      Pow2Monotone(width - n', width - 1 - n);
    } else if n' < n < width {
      Pow2Monotone(width - n, width - 1 - n');
    }
  }

  /**
   The other compiled form: the count of the native word less the difference in width. For any
   native count that meets its contract both forms agree at every width the native word covers.
   */
  lemma NativeFormAgrees(native: nat, width: nat, val: nat, count: nat)
    requires IsWidth(width) && width <= native && val < Pow2(width)
    requires IsLeadZeros(native, val, count)
    ensures count - (native - width) == CntLeadZeros(width, val)
  {
    hide CntLeadZeros;
    LeadZerosRight(width, val);
    if val > 0 && count < native - width {
      Pow2Monotone(width, native - 1 - count);
    }
    LeadZerosUnique(width, val, count - (native - width), CntLeadZeros(width, val));
  }

  // Trailing zeros

  /** The bits of a word of `width` bits inverted. */
  function Complement(width: nat, val: nat): nat
    requires val < Pow2(width)
  {
    Pow2(width) - 1 - val
  }

  /** The source's count: isolate the lowest set bit with val & (~val + 1), count its leading zeros. */
  function CntTrailZeros(width: nat, val: nat): int
    requires IsWidth(width) && val < Pow2(width)
  {
    if val == 0 then width else
    var mask := And(val, Complement(width, val) + 1);
    width - 1 - CntLeadZeros(width, mask)
  }

  /** `t` is the number of trailing zeros: 2^t divides `val` and 2^(t+1) does not. */
  ghost predicate IsTrailZeros(width: nat, val: nat, t: nat) {
    if val == 0 then t == width else t < width && Divides(t, val) && !Divides(t + 1, val)
  }

  lemma {:induction false} AndComplement(width: nat, val: nat)
    requires val < Pow2(width)
    ensures And(val, Complement(width, val)) == 0
    decreases width
  {
    if width > 0 {
      AndComplement(width - 1, val / 2);
      assert Complement(width, val) / 2 == Complement(width - 1, val / 2);
    }
  }

  /** val & (~val + 1) is the largest power of two that divides val. */
  lemma {:induction false} LowestBit(width: nat, val: nat) returns (t: nat)
    requires 0 < val < Pow2(width)
    ensures IsTrailZeros(width, val, t)
    ensures And(val, Complement(width, val) + 1) == Pow2(t)
    decreases width
  {
    var y := Complement(width, val) + 1;
    if val % 2 == 1 {
      t := 0;
      AndComplement(width - 1, val / 2);
      assert y / 2 == Complement(width - 1, val / 2);
      assert Divides(0, val) && !Divides(1, val);
    } else {
      t := LowestBit(width - 1, val / 2);
      t := t + 1;
      assert y / 2 == Complement(width - 1, val / 2) + 1;
    }
  }

  lemma PowerLeadZeros(width: nat, t: nat)
    requires t < width
    ensures Pow2(t) < Pow2(width) && IsLeadZeros(width, Pow2(t), width - 1 - t)
  {
    Pow2Monotone(t, width);
  }

  lemma TrailZerosAre(width: nat, val: nat, t: nat)
    requires IsWidth(width) && 0 < val < Pow2(width) && t < width
    requires And(val, Complement(width, val) + 1) == Pow2(t)
    ensures CntTrailZeros(width, val) == t
  {
    hide CntLeadZeros, And, Complement, Pow2, IsLeadZeros;
    PowerLeadZeros(width, t);
    LeadZerosRight(width, Pow2(t));
    LeadZerosUnique(width, Pow2(t), width - 1 - t, CntLeadZeros(width, Pow2(t)));
  }

  /** The trailing-zero count is right at every width. */
  lemma TrailZerosRight(width: nat, val: nat)
    requires IsWidth(width) && val < Pow2(width)
    ensures CntTrailZeros(width, val) >= 0 && IsTrailZeros(width, val, CntTrailZeros(width, val))
  {
    if val > 0 {
      hide CntTrailZeros, And, Complement, Pow2, Divides;
      var t := LowestBit(width, val);
      TrailZerosAre(width, val, t);
    }
  }

  /** The word read from its other end. */
  function Reversed(width: nat, val: nat): (r: nat)
    ensures r < Pow2(width)
  {
    if width == 0 then 0 else
    (if val % 2 == 1 then Pow2(width - 1) else 0) + Reversed(width - 1, val / 2)
  }

  lemma {:induction false} ReversedZero(width: nat, val: nat)
    requires val < Pow2(width)
    ensures Reversed(width, val) == 0 <==> val == 0
  {
    if width > 0 {
      ReversedZero(width - 1, val / 2);
    }
  }

  lemma {:induction false} ReversedLeadZeros(width: nat, val: nat, t: nat)
    requires 0 < val < Pow2(width) && IsTrailZeros(width, val, t)
    ensures IsLeadZeros(width, Reversed(width, val), t)
    decreases width
  {
    if val % 2 == 1 {
      assert t == 0;
    } else {
      assert Divides(1, val) <==> Divides(0, val / 2);
      ReversedZero(width - 1, val / 2);
      ReversedLeadZeros(width - 1, val / 2, t - 1);
    }
  }

  /** Trailing zeros are the leading zeros of the reversed word. */
  lemma TrailZerosAreReversedLeadZeros(width: nat, val: nat)
    requires IsWidth(width) && val < Pow2(width)
    ensures CntTrailZeros(width, val) == CntLeadZeros(width, Reversed(width, val))
  {
    var rev := Reversed(width, val);
    TrailZerosRight(width, val);
    LeadZerosRight(width, rev);
    ReversedZero(width, val);
    hide CntLeadZeros, Reversed, CntTrailZeros, Pow2;
    if val > 0 {
      ReversedLeadZeros(width, val, CntTrailZeros(width, val));
    }
    LeadZerosUnique(width, rev, CntTrailZeros(width, val), CntLeadZeros(width, rev));
  }
}
