/**
 Byte order (lib_mem.h): the copy loops of any size between host and big- or little-endian order,
 and the 16- and 32-bit get, set and swap macros.
 */
module LibMem {
  import opened Arith
  import opened Sequences

  datatype Order = Big | Little

  const SIZE_MAX: nat := 0xFFFF_FFFF    // CPU_SIZE_T is 32 bits

  /** The value of bytes stored in the given order. */
  function Value(order: Order, s: seq<nat>): nat {
    if s == [] then 0 else
    match order
    case Little => s[0] + 256 * Value(order, s[1..])
    case Big => 256 * Value(order, s[..|s| - 1]) + s[|s| - 1]
  }

  function Reverse(s: seq<nat>): (r: seq<nat>)
    ensures |r| == |s|
    ensures forall i | 0 <= i < |s| :: r[i] == s[|s| - 1 - i]
  {
    if s == [] then [] else [s[|s| - 1]] + Reverse(s[..|s| - 1])
  }

  /** What the copy macros leave in the destination: reversed exactly when the orders differ. */
  function Copied(host: Order, order: Order, s: seq<nat>): seq<nat> {
    if host == order then s else Reverse(s)
  }

  /** The copy loop when the data is in the host's own order. */
  method CopyStraight(mem: array<nat>, dest: nat, src: nat, size: nat)
    requires dest + size <= mem.Length && src + size <= mem.Length && size <= SIZE_MAX
    requires dest + size <= src || src + size <= dest
    modifies mem
    ensures mem[dest..dest + size] == old(mem[src..src + size])
    ensures forall i | 0 <= i < mem.Length && !(dest <= i < dest + size) :: mem[i] == old(mem[i])
  {
    ghost var from := mem[src..src + size];
    for i := 0 to size
      invariant mem[dest..dest + i] == from[..i]
      invariant forall k | 0 <= k < mem.Length && !(dest <= k < dest + size) :: mem[k] == old(mem[k])
    {
      assert from[i] == old(mem[src + i]);
      mem[dest + i] := mem[src + i];
    }
  }

  /**
   The copy loop between different orders. The down-counter wraps to the largest size after byte
   0, and starts there when the size is 0; it is never used as an index then.
   */
  method CopyReversing(mem: array<nat>, dest: nat, src: nat, size: nat)
    requires dest + size <= mem.Length && src + size <= mem.Length && size <= SIZE_MAX
    requires dest + size <= src || src + size <= dest
    modifies mem
    ensures mem[dest..dest + size] == Reverse(old(mem[src..src + size]))
    ensures forall i | 0 <= i < mem.Length && !(dest <= i < dest + size) :: mem[i] == old(mem[i])
  {
    hide Reverse;
    ghost var from := mem[src..src + size];
    var j := if size == 0 then SIZE_MAX else size - 1;
    for i := 0 to size
      invariant j == if i == size then SIZE_MAX else size - 1 - i
      invariant mem[dest..dest + i] == Reverse(from)[..i]
      invariant forall k | 0 <= k < mem.Length && !(dest <= k < dest + size) :: mem[k] == old(mem[k])
    {
      assert from[j] == old(mem[src + j]);
      mem[dest + i] := mem[src + j];
      j := if j == 0 then SIZE_MAX else j - 1;
    }
  }

  /**
   MEM_VAL_COPY_GET_INTU_BIG and _LITTLE on a host of either order. Both buffers are ranges of
   one memory that do not overlap.
   */
  method CopyGetIntU(host: Order, order: Order, mem: array<nat>, dest: nat, src: nat, size: nat)
    requires dest + size <= mem.Length && src + size <= mem.Length && size <= SIZE_MAX
    requires dest + size <= src || src + size <= dest
    modifies mem
    ensures mem[dest..dest + size] == Copied(host, order, old(mem[src..src + size]))
    ensures Value(host, mem[dest..dest + size]) == Value(order, old(mem[src..src + size]))
    ensures forall i | 0 <= i < mem.Length && !(dest <= i < dest + size) :: mem[i] == old(mem[i])
  {
    hide Value, Reverse;
    CopyKeepsValue(host, order, mem[src..src + size]);
    if host == order {
      CopyStraight(mem, dest, src, size);
    } else {
      CopyReversing(mem, dest, src, size);
    }
  }

  lemma {:induction false} LittleOfReverse(s: seq<nat>)
    ensures Value(Little, Reverse(s)) == Value(Big, s)
  {
    if s != [] {
      LittleOfReverse(s[..|s| - 1]);
      assert Reverse(s)[1..] == Reverse(s[..|s| - 1]);
    }
  }

  lemma ReverseTwice(s: seq<nat>)
    ensures Reverse(Reverse(s)) == s
  {
    hide Reverse;
    var t := Reverse(s);
    assert forall i | 0 <= i < |s| :: Reverse(t)[i] == t[|s| - 1 - i] == s[i];
  }

  /** The destination, read by the host, has the value of the source read in its order. */
  lemma CopyKeepsValue(host: Order, order: Order, s: seq<nat>)
    ensures Value(host, Copied(host, order, s)) == Value(order, s)
  {
    hide Value, Reverse;
    if host != order {
      LittleOfReverse(s);
      LittleOfReverse(Reverse(s));
      ReverseTwice(s);
    }
  }

  /** Copying twice restores the bytes. */
  lemma CopyTwiceRestores(host: Order, order: Order, s: seq<nat>)
    ensures Copied(host, order, Copied(host, order, s)) == s
  {
    ReverseTwice(s);
  }

  // The 16- and 32-bit macros

  /** Byte `k` of a word, masked in place and shifted down. */
  function ByteAt(val: nat, k: nat): nat {
    Shr(And(val, Shl(0xFF, 8 * k)), 8 * k)
  }

  function SetInt16(order: Order, val: nat): seq<nat> {
    match order
    case Big => [ByteAt(val, 1), ByteAt(val, 0)]
    case Little => [ByteAt(val, 0), ByteAt(val, 1)]
  }

  function SetInt32(order: Order, val: nat): seq<nat> {
    match order
    case Big => [ByteAt(val, 3), ByteAt(val, 2), ByteAt(val, 1), ByteAt(val, 0)]
    case Little => [ByteAt(val, 0), ByteAt(val, 1), ByteAt(val, 2), ByteAt(val, 3)]
  }

  function GetInt16(order: Order, s: seq<nat>): nat
    requires |s| == 2
  {
    match order
    case Big => Wrap(Shl(s[0], 8) + Shl(s[1], 0), 16)
    case Little => Wrap(Shl(s[0], 0) + Shl(s[1], 8), 16)
  }

  function GetInt32(order: Order, s: seq<nat>): nat
    requires |s| == 4
  {
    match order
    case Big => Wrap(Shl(s[0], 24) + Shl(s[1], 16) + Shl(s[2], 8) + Shl(s[3], 0), 32)
    case Little => Wrap(Shl(s[0], 0) + Shl(s[1], 8) + Shl(s[2], 16) + Shl(s[3], 24), 32)
  }

  lemma ShlBytes(x: nat)
    ensures Shl(x, 0) == x && Shl(x, 8) == 0x100 * x && Shl(x, 16) == 0x1_0000 * x && Shl(x, 24) == 0x100_0000 * x
  {
    assert Shl(x, 0) == x;
    hide *;
    Bytes();
    ShiftIsMul(x, 8);
    ShiftIsMul(x, 16);
    ShiftIsMul(x, 24);
  }

  lemma Value2(order: Order, s: seq<nat>)
    requires |s| == 2
    ensures Value(order, s) == if order.Little? then s[0] + 256 * s[1] else 256 * s[0] + s[1]
  {
    assert Value(order, s) == match order
      case Little => s[0] + 256 * (s[1] + 256 * Value(order, s[1..][1..]))
      case Big => 256 * (256 * Value(order, s[..1][..0]) + s[0]) + s[1];
  }

  /** GET decodes exactly the value that the bytes have in its order. */
  lemma GetIsValue16(order: Order, s: seq<nat>)
    requires |s| == 2 && AreBytes(s)
    ensures GetInt16(order, s) == Value(order, s) < 0x1_0000
  {
    Value2(order, s);
    hide Wrap, Shl, Pow2, Value;
    ShlBytes(s[0]);
    ShlBytes(s[1]);
    Bytes();
    WrapSmall(Value(order, s), 16);
  }

  lemma Value4(order: Order, s: seq<nat>)
    requires |s| == 4
    ensures Value(order, s) == match order
      case Little => s[0] + 0x100 * s[1] + 0x1_0000 * s[2] + 0x100_0000 * s[3]
      case Big => 0x100_0000 * s[0] + 0x1_0000 * s[1] + 0x100 * s[2] + s[3]
  {
    match order
    case Little =>
      assert Value(order, s[2..]) == s[2] + 256 * (s[3] + 256 * Value(order, s[2..][1..][1..]));
      assert s[1..][1..] == s[2..];
    case Big =>
      assert Value(order, s[..2]) == 256 * (256 * Value(order, s[..2][..1][..0]) + s[0]) + s[1];
      assert s[..3][..2] == s[..2];
  }

  lemma GetIsValue32(order: Order, s: seq<nat>)
    requires |s| == 4 && AreBytes(s)
    ensures GetInt32(order, s) == Value(order, s) < 0x1_0000_0000
  {
    Value4(order, s);
    hide Wrap, Shl, Pow2, Value;
    ShlBytes(s[0]);
    ShlBytes(s[1]);
    ShlBytes(s[2]);
    ShlBytes(s[3]);
    Bytes();
    WrapSmall(Value(order, s), 32);
  }

  /** Masking and shifting a byte out of a word is plain division and remainder. */
  lemma ByteIs(val: nat, k: nat, m: nat)
    requires m == Pow2(8 * k)
    ensures ByteAt(val, k) == (val / m) % 256
  {
    hide *;
    Bytes();
    AndShl(val, 0xFF, 8 * k);
    var field := Shr(val, 8 * k);
    AndMask(field, 8);
    ByteAtIs(val, k);
    ShlParts(And(field, 0xFF), 0, 8 * k);
    ShiftIsMul(val, 8 * k);
    ShiftIsMul(field, 8);
  }

  lemma ByteAtIs(val: nat, k: nat)
    ensures ByteAt(val, k) == Shr(And(val, Shl(0xFF, 8 * k)), 8 * k)
  {
  }

  lemma WordBytes(val: nat)
    ensures ByteAt(val, 0) == val % 256 && ByteAt(val, 1) == (val / 0x100) % 256
    ensures ByteAt(val, 2) == (val / 0x1_0000) % 256 && ByteAt(val, 3) == (val / 0x100_0000) % 256
  {
    hide *;
    Bytes();
    ByteIs(val, 0, 1);
    ByteIs(val, 1, 0x100);
    ByteIs(val, 2, 0x1_0000);
    ByteIs(val, 3, 0x100_0000);
  }

  lemma Digits(val: nat)
    requires val < 0x1_0000_0000
    ensures val == val % 256 + 0x100 * ((val / 0x100) % 256)
                 + 0x1_0000 * ((val / 0x1_0000) % 256) + 0x100_0000 * ((val / 0x100_0000) % 256)
  {
    var q1 := val / 0x100;
    var q2 := q1 / 0x100;
    var q3 := q2 / 0x100;
    assert val / 0x1_0000 == q2 && val / 0x100_0000 == q3;
  }

  /** What SET encodes, GET decodes, in either order. */
  lemma SetGet16(order: Order, val: nat)
    requires val < 0x1_0000
    ensures AreBytes(SetInt16(order, val)) && GetInt16(order, SetInt16(order, val)) == val
  {
    hide ByteAt, Wrap, Shl, Pow2;
    WordBytes(val);
    var s := SetInt16(order, val);
    ShlBytes(s[0]);
    ShlBytes(s[1]);
    Bytes();
    WrapSmall(val, 16);
  }

  lemma SetGet32(order: Order, val: nat)
    requires val < 0x1_0000_0000
    ensures AreBytes(SetInt32(order, val)) && GetInt32(order, SetInt32(order, val)) == val
  {
    Set32IsDigits(order, val);
    GetIsValue32(order, SetInt32(order, val));
  }

  /** The bytes that SET writes have the word as their value in its order. */
  lemma Set32IsDigits(order: Order, val: nat)
    requires val < 0x1_0000_0000
    ensures AreBytes(SetInt32(order, val)) && Value(order, SetInt32(order, val)) == val
  {
    hide ByteAt, Pow2, Value;
    WordBytes(val);
    Digits(val);
    Value4(order, SetInt32(order, val));
  }

  lemma Set16IsDigits(order: Order, val: nat)
    requires val < 0x1_0000
    ensures AreBytes(SetInt16(order, val)) && Value(order, SetInt16(order, val)) == val
  {
    SetGet16(order, val);
    GetIsValue16(order, SetInt16(order, val));
  }

  /** Bytes are determined by their number and their value. */
  lemma {:induction false} ValueInjective(order: Order, s: seq<nat>, t: seq<nat>)
    requires |s| == |t| && AreBytes(s) && AreBytes(t) && Value(order, s) == Value(order, t)
    ensures s == t
  {
    if s != [] {
      var n := |s| - 1;
      match order
      case Little =>
        ValueInjective(order, s[1..], t[1..]);
        assert s == [s[0]] + s[1..] && t == [t[0]] + t[1..];
      case Big =>
        ValueInjective(order, s[..n], t[..n]);
        assert s == s[..n] + [s[n]] && t == t[..n] + [t[n]];
    }
  }

  /** What GET decodes, SET encodes again: the bytes are restored, in either order. */
  lemma GetSet16(order: Order, s: seq<nat>)
    requires |s| == 2 && AreBytes(s)
    ensures SetInt16(order, GetInt16(order, s)) == s
  {
    hide Value, GetInt16, ByteAt;
    GetIsValue16(order, s);
    Set16IsDigits(order, GetInt16(order, s));
    ValueInjective(order, SetInt16(order, GetInt16(order, s)), s);
  }

  lemma GetSet32(order: Order, s: seq<nat>)
    requires |s| == 4 && AreBytes(s)
    ensures SetInt32(order, GetInt32(order, s)) == s
  {
    hide Value, GetInt32, ByteAt;
    GetIsValue32(order, s);
    Set32IsDigits(order, GetInt32(order, s));
    ValueInjective(order, SetInt32(order, GetInt32(order, s)), s);
  }

  /**
   The copy loops agree with the macros: a value set in either order and copied to host order is
   the host's own representation of that value.
   */
  lemma SetThenCopy16(host: Order, order: Order, val: nat)
    requires val < 0x1_0000
    ensures Copied(host, order, SetInt16(order, val)) == SetInt16(host, val)
    ensures Value(host, Copied(host, order, SetInt16(order, val))) == val
  {
    Set16IsDigits(order, val);
    CopyKeepsValue(host, order, SetInt16(order, val));
    hide ByteAt, Value;
    var s := SetInt16(order, val);
    assert Reverse(s) == [s[1], s[0]];
  }

  lemma SetThenCopy32(host: Order, order: Order, val: nat)
    requires val < 0x1_0000_0000
    ensures Copied(host, order, SetInt32(order, val)) == SetInt32(host, val)
    ensures Value(host, Copied(host, order, SetInt32(order, val))) == val
  {
    Set32IsDigits(order, val);
    CopyKeepsValue(host, order, SetInt32(order, val));
    hide ByteAt, Value;
    var s := SetInt32(order, val);
    assert Reverse(s) == [s[3], s[2], s[1], s[0]];
  }

  /** MEM_VAL_SET_INT32U: writes four cells and no other. */
  method SetInt32U(order: Order, mem: array<nat>, addr: nat, val: nat)
    requires addr + 4 <= mem.Length && val < 0x1_0000_0000
    modifies mem
    ensures mem[addr..addr + 4] == SetInt32(order, val)
    ensures Value(order, mem[addr..addr + 4]) == GetInt32(order, mem[addr..addr + 4]) == val
    ensures forall i | 0 <= i < mem.Length && !(addr <= i < addr + 4) :: mem[i] == old(mem[i])
  {
    hide ByteAt, Value, GetInt32;
    if order == Big {
      mem[addr], mem[addr + 1], mem[addr + 2], mem[addr + 3] :=
        ByteAt(val, 3), ByteAt(val, 2), ByteAt(val, 1), ByteAt(val, 0);
    } else {
      mem[addr], mem[addr + 1], mem[addr + 2], mem[addr + 3] :=
        ByteAt(val, 0), ByteAt(val, 1), ByteAt(val, 2), ByteAt(val, 3);
    }
    assert mem[addr..addr + 4] == SetInt32(order, val);
    Set32IsDigits(order, val);
    SetGet32(order, val);
  }

  // The swap macros, in the form for 32-bit CPUs

  function BigToLittle16(val: nat): nat {
    Or(Shr(And(val, 0xFF00), 8), Shl(And(val, 0x00FF), 8))
  }

  function BigToLittle32(val: nat): nat {
    Or(Or(Or(Shr(And(val, 0xFF00_0000), 24),
             Shr(And(val, 0x00FF_0000), 8)),
          Shl(And(val, 0x0000_FF00), 8)),
       Shl(And(val, 0x0000_00FF), 24))
  }

  lemma {:induction false} ShlShl(x: int, a: nat, b: nat)
    ensures Shl(Shl(x, a), b) == Shl(x, a + b)
    ensures b <= a ==> Shr(Shl(x, a), b) == Shl(x, a - b)
    decreases b
  {
    if b > 0 {
      ShlShl(x, a, b - 1);
      if b <= a {
        ShlShl(x, a - 1, b - 1);
      }
    }
  }

  /** A masked byte is the byte shifted back to its place. */
  lemma MaskedByte(val: nat, k: nat)
    ensures And(val, Shl(0xFF, 8 * k)) == Shl(ByteAt(val, k), 8 * k)
    ensures ByteAt(val, k) < 256
  {
    hide *;
    AndShl(val, 0xFF, 8 * k);
    ByteAtIs(val, k);
    ShlShl(And(Shr(val, 8 * k), 0xFF), 8 * k, 8 * k);
    ShlBytes(And(Shr(val, 8 * k), 0xFF));
  }

  lemma OrSum(x: nat, y: nat, w: nat)
    requires y < Pow2(w)
    ensures Or(y, Shl(x, w)) == Shl(x, w) + y
  {
    OrShl(x, y, w);
    OrCommutes(y, Shl(x, w));
  }

  /** The 32-bit swap reverses the bytes. */
  lemma Swap32(val: nat)
    ensures BigToLittle32(val)
         == ByteAt(val, 3) + 0x100 * ByteAt(val, 2) + 0x1_0000 * ByteAt(val, 1) + 0x100_0000 * ByteAt(val, 0)
  {
    hide ByteAt, Shl, Shr, And, Or, Pow2;
    var b0, b1, b2, b3 := ByteAt(val, 0), ByteAt(val, 1), ByteAt(val, 2), ByteAt(val, 3);
    ShlBytes(0xFF);
    MaskedByte(val, 0);
    MaskedByte(val, 1);
    MaskedByte(val, 2);
    MaskedByte(val, 3);
    ShlBytes(b0);
    ShlBytes(b1);
    ShlBytes(b2);
    ShlBytes(b3);
    ShlShl(b3, 24, 24);
    ShlShl(b2, 16, 8);
    ShlShl(b1, 8, 8);
    Bytes();
    OrSum(b2, b3, 8);
    OrSum(b1, 0x100 * b2 + b3, 16);
    OrSum(b0, 0x1_0000 * b1 + 0x100 * b2 + b3, 24);
  }

  lemma Swap16(val: nat)
    ensures BigToLittle16(val) == ByteAt(val, 1) + 0x100 * ByteAt(val, 0)
  {
    hide ByteAt, Shl, Shr, And, Or, Pow2;
    ShlBytes(0xFF);
    MaskedByte(val, 0);
    MaskedByte(val, 1);
    ShlBytes(ByteAt(val, 0));
    ShlBytes(ByteAt(val, 1));
    ShlShl(ByteAt(val, 1), 8, 8);
    Bytes();
    OrSum(ByteAt(val, 0), ByteAt(val, 1), 8);
  }

  /** The swaps agree with encoding in one order and decoding in the other. */
  lemma SwapIsReencode(order: Order, other: Order, val: nat)
    requires order != other
    ensures val < 0x1_0000 ==> BigToLittle16(val) == GetInt16(other, SetInt16(order, val))
    ensures val < 0x1_0000_0000 ==> BigToLittle32(val) == GetInt32(other, SetInt32(order, val))
  {
    hide ByteAt, Value, GetInt16, GetInt32, BigToLittle16, BigToLittle32;
    WordBytes(val);
    Swap16(val);
    Swap32(val);
    GetIsValue16(other, SetInt16(order, val));
    Value2(other, SetInt16(order, val));
    GetIsValue32(other, SetInt32(order, val));
    Value4(other, SetInt32(order, val));
  }

  lemma DigitsUnique(val: nat, b0: nat, b1: nat, b2: nat, b3: nat)
    requires b0 < 256 && b1 < 256 && b2 < 256 && b3 < 256
    requires val == b0 + 0x100 * b1 + 0x1_0000 * b2 + 0x100_0000 * b3
    ensures val % 256 == b0 && (val / 0x100) % 256 == b1
    ensures (val / 0x1_0000) % 256 == b2 && (val / 0x100_0000) % 256 == b3
  {
    assert val / 0x100 == b1 + 0x100 * b2 + 0x1_0000 * b3;
    assert val / 0x1_0000 == b2 + 0x100 * b3;
    assert val / 0x100_0000 == b3;
  }

  /** Swapping twice is the identity. */
  lemma SwapTwice(val: nat)
    ensures val < 0x1_0000 ==> BigToLittle16(BigToLittle16(val)) == val
    ensures val < 0x1_0000_0000 ==> BigToLittle32(BigToLittle32(val)) == val
  {
    hide ByteAt, BigToLittle16, BigToLittle32;
    WordBytes(val);
    Swap16(val);
    Swap32(val);
    var h, v := BigToLittle16(val), BigToLittle32(val);
    DigitsUnique(h, ByteAt(val, 1), ByteAt(val, 0), 0, 0);
    DigitsUnique(v, ByteAt(val, 3), ByteAt(val, 2), ByteAt(val, 1), ByteAt(val, 0));
    WordBytes(h);
    WordBytes(v);
    Swap16(h);
    Swap32(v);
    if val < 0x1_0000_0000 {
      Digits(val);
    }
  }
}
