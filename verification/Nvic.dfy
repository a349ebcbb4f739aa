/**
 Interrupt priorities of core_cm3.h: packing a pre-emption and a sub priority into the
 implemented bits, and the priority registers.

 `prioBits` is the number of implemented priority bits, 1 to 8; `group` is the priority group.
 */
module Nvic {
  import opened Arith

  const INTERRUPTS: int := 240        // NVIC->IP
  const SYSTEM_HANDLERS: int := 12    // SCB->SHP

  predicate IsPrioBits(prioBits: nat) {
    1 <= prioBits <= 8
  }

  /** The group, of which only the values 0..7 are used. */
  function GroupOf(group: nat): (g: nat)
    ensures g <= 7
  {
    And(group, 0x07)
  }

  function PreemptBits(prioBits: nat, group: nat): nat {
    var g := GroupOf(group);
    if 7 - g > prioBits then prioBits else 7 - g
  }

  /** The source's unsigned g - 7 + prioBits: the intermediate difference may wrap. */
  function SubBits(prioBits: nat, group: nat): nat {
    var g := GroupOf(group);
    if g + prioBits < 7 then 0 else Wrap(Wrap(g - 7, 32) + prioBits, 32)
  }

  /** NVIC_EncodePriority */
  function EncodePriority(prioBits: nat, group: nat, preempt: nat, sub: nat): nat {
    var p, s := PreemptBits(prioBits, group), SubBits(prioBits, group);
    Or(Shl(And(preempt, Pow2(p) - 1), s), And(sub, Pow2(s) - 1))
  }

  /** NVIC_DecodePriority: the pre-emption and the sub priority. */
  function DecodePriority(prioBits: nat, group: nat, priority: nat): (nat, nat) {
    var p, s := PreemptBits(prioBits, group), SubBits(prioBits, group);
    (And(Shr(priority, s), Pow2(p) - 1), And(priority, Pow2(s) - 1))
  }

  /** Both field widths together are the implemented bits, for every group. */
  lemma WidthsSum(prioBits: nat, group: nat)
    requires IsPrioBits(prioBits)
    ensures PreemptBits(prioBits, group) + SubBits(prioBits, group) == prioBits
  {
    var g := GroupOf(group);
    hide Wrap, Pow2, GroupOf;
    if g + prioBits >= 7 {
      Pow2Values();
      WrapAdd(g - 7, prioBits, 32);
      WrapSmall(g - 7 + prioBits, 32);
    }
  }

  /** The pre-emption field ends at bit 7 - group of the priority, unless fewer bits are implemented. */
  lemma WidthsAre(prioBits: nat, group: nat)
    requires IsPrioBits(prioBits)
    ensures var g := group % 8;
            && PreemptBits(prioBits, group) == (if 7 - g > prioBits then prioBits else 7 - g)
            && SubBits(prioBits, group) == (if g + prioBits < 7 then 0 else g + prioBits - 7)
  {
    WidthsSum(prioBits, group);
    assert GroupOf(group) == group % 8 by { GroupIs(group); }
  }

  lemma GroupIs(group: nat)
    ensures GroupOf(group) == group % 8
  {
    assert Pow2(3) == 8;
    hide Pow2;
    AndMask(group, 3);
    ShiftIsMul(group, 3);
  }

  lemma EncodeIs(prioBits: nat, group: nat, preempt: nat, sub: nat)
    ensures var p, s := PreemptBits(prioBits, group), SubBits(prioBits, group);
            EncodePriority(prioBits, group, preempt, sub) == Shl(Wrap(preempt, p), s) + Wrap(sub, s)
  {
    hide Wrap, Shl, And, Or, Pow2, PreemptBits, SubBits;
    var p, s := PreemptBits(prioBits, group), SubBits(prioBits, group);
    AndMask(preempt, p);
    AndMask(sub, s);
    OrShl(Wrap(preempt, p), Wrap(sub, s), s);
  }

  lemma DecodeIs(prioBits: nat, group: nat, priority: nat)
    ensures var p, s := PreemptBits(prioBits, group), SubBits(prioBits, group);
            DecodePriority(prioBits, group, priority) == (Wrap(Shr(priority, s), p), Wrap(priority, s))
  {
    hide Wrap, Shr, And, Pow2, PreemptBits, SubBits;
    var p, s := PreemptBits(prioBits, group), SubBits(prioBits, group);
    ShrBounds(priority, s, 0);
    AndMask(Shr(priority, s), p);
    AndMask(priority, s);
  }

  /** Decoding an encoded priority gives both fields back, reduced to their widths. */
  lemma DecodeEncode(prioBits: nat, group: nat, preempt: nat, sub: nat)
    ensures DecodePriority(prioBits, group, EncodePriority(prioBits, group, preempt, sub))
         == (Wrap(preempt, PreemptBits(prioBits, group)), Wrap(sub, SubBits(prioBits, group)))
  {
    hide *;
    var p, s := PreemptBits(prioBits, group), SubBits(prioBits, group);
    EncodeIs(prioBits, group, preempt, sub);
    DecodeIs(prioBits, group, EncodePriority(prioBits, group, preempt, sub));
    ShlParts(Wrap(preempt, p), Wrap(sub, s), s);
    WrapSmall(Wrap(preempt, p), p);
    WrapSmall(Wrap(sub, s), s);
  }

  /** Encoding a decoded priority gives it back, for every value of the implemented bits. */
  lemma EncodeDecode(prioBits: nat, group: nat, priority: nat)
    requires IsPrioBits(prioBits) && priority < Pow2(prioBits)
    ensures var fields := DecodePriority(prioBits, group, priority);
            EncodePriority(prioBits, group, fields.0, fields.1) == priority
  {
    hide *;
    var p, s := PreemptBits(prioBits, group), SubBits(prioBits, group);
    WidthsSum(prioBits, group);
    DecodeIs(prioBits, group, priority);
    EncodeIs(prioBits, group, Wrap(Shr(priority, s), p), Wrap(priority, s));
    ShrBounds(priority, s, p);
    WrapSmall(Shr(priority, s), p);
    WrapSmall(Wrap(priority, s), s);
    Decompose(priority, s);
  }

  /** Encoded priorities are ordered by pre-emption first, then by sub priority. */
  lemma EncodedOrder(prioBits: nat, group: nat, preempt: nat, sub: nat, preempt': nat, sub': nat)
    ensures var p, s := PreemptBits(prioBits, group), SubBits(prioBits, group);
            EncodePriority(prioBits, group, preempt, sub) < EncodePriority(prioBits, group, preempt', sub')
            <==> (|| Wrap(preempt, p) < Wrap(preempt', p)
                  || (Wrap(preempt, p) == Wrap(preempt', p) && Wrap(sub, s) < Wrap(sub', s)))
  {
    hide *;
    var p, s := PreemptBits(prioBits, group), SubBits(prioBits, group);
    EncodeIs(prioBits, group, preempt, sub);
    EncodeIs(prioBits, group, preempt', sub');
    var x, x' := Wrap(preempt, p), Wrap(preempt', p);
    if x < x' {
      ShlOrder(x, x', s);
    } else if x' < x {
      ShlOrder(x', x, s);
    }
  }

  lemma EncodedFits(prioBits: nat, group: nat, preempt: nat, sub: nat)
    requires IsPrioBits(prioBits)
    ensures EncodePriority(prioBits, group, preempt, sub) < Pow2(prioBits)
  {
    hide *;
    var p, s := PreemptBits(prioBits, group), SubBits(prioBits, group);
    WidthsSum(prioBits, group);
    EncodeIs(prioBits, group, preempt, sub);
    ShlOrder(Wrap(preempt, p), Pow2(p), s);
    ShlPow2(p, s);
  }

  lemma {:induction false} ShlPow2(p: nat, s: nat)
    ensures Shl(Pow2(p), s) == Pow2(p + s)
  {
    if s > 0 {
      ShlPow2(p, s - 1);
    }
  }

  // Priority registers

  /** The value of an 8-bit register: the priority in its implemented upper bits. */
  function RegisterOf(prioBits: nat, priority: nat): nat
    requires IsPrioBits(prioBits)
  {
    And(Wrap(Shl(priority, 8 - prioBits), 32), 0xff)
  }

  lemma RegisterHolds(prioBits: nat, priority: nat)
    requires IsPrioBits(prioBits)
    ensures RegisterOf(prioBits, priority) < 256
    ensures Shr(RegisterOf(prioBits, priority), 8 - prioBits) == Wrap(priority, prioBits)
    ensures Wrap(RegisterOf(prioBits, priority), 8 - prioBits) == 0
  {
    Pow2Values();
    hide Wrap, Pow2, Shl, Shr, And;
    var s := 8 - prioBits;
    AndMask(Wrap(Shl(priority, s), 32), 8);
    WrapWrap(Shl(priority, s), 32, 8);
    WrapOfShl(priority, s, prioBits);
    ShlParts(Wrap(priority, prioBits), 0, s);
  }

  /** The interrupts whose priority can be set: system exceptions -12..-1 and 240 external ones. */
  predicate IsConfigurable(irqn: int) {
    -SYSTEM_HANDLERS <= irqn < INTERRUPTS
  }

  /** The source's index of a system exception: the low four bits of the number, less 4. */
  function HandlerIndex(irqn: int): int {
    And(Wrap(irqn, 32), 0xF) - 4
  }

  lemma HandlerIndexInRange(irqn: int)
    requires IsConfigurable(irqn) && irqn < 0
    ensures HandlerIndex(irqn) == irqn + 12
  {
    hide Wrap, And, Pow2, Shl;
    Four();
    AndMask(Wrap(irqn, 32), 4);
    WrapWrap(irqn, 32, 4);
    WrapShl(-1, 16 + irqn, 4);
    WrapSmall(16 + irqn, 4);
  }

  lemma Four()
    ensures Pow2(4) == 16 && Shl(-1, 4) == -16
  {
  }

  class Registers {
    const prioBits: nat
    const ip: array<nat>
    const shp: array<nat>

    ghost predicate Valid()
      reads this
    {
      IsPrioBits(prioBits) && ip.Length == INTERRUPTS && shp.Length == SYSTEM_HANDLERS && ip != shp
    }

    constructor (prioBits: nat)
      requires IsPrioBits(prioBits)
      ensures Valid() && fresh(ip) && fresh(shp) && this.prioBits == prioBits
    {
      this.prioBits := prioBits;
      ip := new nat[INTERRUPTS](_ => 0);
      shp := new nat[SYSTEM_HANDLERS](_ => 0);
    }

    /** The priority register of every interrupt that has one. */
    ghost function Register(irqn: int): nat
      requires Valid() && IsConfigurable(irqn)
      reads this, ip, shp
    {
      if irqn < 0 then shp[irqn + 12] else ip[irqn]
    }

    /** The priority in that register. */
    ghost function PriorityOf(irqn: int): int
      requires Valid() && IsConfigurable(irqn)
      reads this, ip, shp
    {
      Shr(Register(irqn), 8 - prioBits)
    }

    /** NVIC_SetPriority: the low `prioBits` bits become the priority; no other one changes. */
    method SetPriority(irqn: int, priority: nat)
      requires Valid() && IsConfigurable(irqn)
      modifies ip, shp
      ensures Valid()
      ensures forall i | IsConfigurable(i) ::
                Register(i) == if i == irqn then RegisterOf(prioBits, priority) else old(Register(i))
      ensures forall i | IsConfigurable(i) ::
                PriorityOf(i) == if i == irqn then Wrap(priority, prioBits) else old(PriorityOf(i))
    {
      hide Wrap, Shr, RegisterOf, HandlerIndex;
      RegisterHolds(prioBits, priority);
      if irqn < 0 {
        HandlerIndexInRange(irqn);
        shp[HandlerIndex(irqn)] := RegisterOf(prioBits, priority);
      } else {
        ip[irqn] := RegisterOf(prioBits, priority);
      }
    }

    /** NVIC_GetPriority */
    method GetPriority(irqn: int) returns (priority: int)
      requires Valid() && IsConfigurable(irqn)
      ensures priority == PriorityOf(irqn)
    {
      hide Shr, HandlerIndex;
      if irqn < 0 {
        HandlerIndexInRange(irqn);
        priority := Shr(shp[HandlerIndex(irqn)], 8 - prioBits);
      } else {
        priority := Shr(ip[irqn], 8 - prioBits);
      }
    }

    /** NVIC_DecodePriority with its out-parameters. */
    method Decode(priority: nat, group: nat) returns (preempt: nat, sub: nat)
      ensures (preempt, sub) == DecodePriority(prioBits, group, priority)
    {
      var fields := DecodePriority(prioBits, group, priority);
      preempt, sub := fields.0, fields.1;
    }
  }

  /** A packed priority survives the register: its implemented bits decode to the fields packed. */
  lemma PackedSurvives(prioBits: nat, group: nat, preempt: nat, sub: nat)
    requires IsPrioBits(prioBits)
    ensures var register := RegisterOf(prioBits, EncodePriority(prioBits, group, preempt, sub));
            DecodePriority(prioBits, group, Shr(register, 8 - prioBits))
            == (Wrap(preempt, PreemptBits(prioBits, group)), Wrap(sub, SubBits(prioBits, group)))
  {
    hide *;
    var packed := EncodePriority(prioBits, group, preempt, sub);
    RegisterHolds(prioBits, packed);
    EncodedFits(prioBits, group, preempt, sub);
    WrapSmall(packed, prioBits);
    DecodeEncode(prioBits, group, preempt, sub);
  }

  lemma RegisterIs(prioBits: nat, priority: nat)
    requires IsPrioBits(prioBits) && priority < Pow2(prioBits)
    ensures RegisterOf(prioBits, priority) == Shl(priority, 8 - prioBits)
  {
    var s: nat := 8 - prioBits;
    hide *;
    RegisterHolds(prioBits, priority);
    WrapSmall(priority, prioBits);
    Decompose(RegisterOf(prioBits, priority), s);
  }

  /** Registers compare as the priorities in them. */
  lemma RegisterOrder(prioBits: nat, priority: nat, priority': nat)
    requires IsPrioBits(prioBits) && priority < Pow2(prioBits) && priority' < Pow2(prioBits)
    ensures RegisterOf(prioBits, priority) < RegisterOf(prioBits, priority') <==> priority < priority'
  {
    RegisterIs(prioBits, priority);
    RegisterIs(prioBits, priority');
    ShlKeepsOrder(priority, priority', 8 - prioBits);
  }

  lemma ShlKeepsOrder(x: int, y: int, s: nat)
    ensures Shl(x, s) < Shl(y, s) <==> x < y
  {
    hide Shl;
    if x < y {
      ShlOrder(x, y, s);
    } else if y < x {
      ShlOrder(y, x, s);
    }
  }

  /** The registers of packed priorities compare by pre-emption first, then by sub priority. */
  lemma RegistersOrdered(prioBits: nat, group: nat, preempt: nat, sub: nat, preempt': nat, sub': nat)
    requires IsPrioBits(prioBits)
    ensures var p, s := PreemptBits(prioBits, group), SubBits(prioBits, group);
            RegisterOf(prioBits, EncodePriority(prioBits, group, preempt, sub))
            < RegisterOf(prioBits, EncodePriority(prioBits, group, preempt', sub'))
            <==> (|| Wrap(preempt, p) < Wrap(preempt', p)
                  || (Wrap(preempt, p) == Wrap(preempt', p) && Wrap(sub, s) < Wrap(sub', s)))
  {
    hide *;
    EncodedFits(prioBits, group, preempt, sub);
    EncodedFits(prioBits, group, preempt', sub');
    RegisterOrder(prioBits, EncodePriority(prioBits, group, preempt, sub), EncodePriority(prioBits, group, preempt', sub'));
    EncodedOrder(prioBits, group, preempt, sub, preempt', sub');
  }

  lemma {:induction false} ShrShr(x: int, a: nat, b: nat)
    ensures Shr(Shr(x, a), b) == Shr(x, a + b)
    decreases a
  {
    if a > 0 {
      ShrShr(x / 2, a - 1, b);
    }
  }

  lemma {:induction false} ShrOfShl(x: int, s: nat, k: nat)
    requires k <= s
    ensures Shr(Shl(x, s), k) == Shl(x, s - k)
    decreases k
  {
    if k > 0 {
      assert Shl(x, s) / 2 == Shl(x, s - 1);
      ShrOfShl(x, s - 1, k - 1);
    }
  }

  lemma PreemptIs(prioBits: nat, group: nat, priority: nat)
    requires IsPrioBits(prioBits) && priority < Pow2(prioBits)
    ensures DecodePriority(prioBits, group, priority).0 == Shr(priority, SubBits(prioBits, group))
  {
    hide *;
    var p, s := PreemptBits(prioBits, group), SubBits(prioBits, group);
    WidthsSum(prioBits, group);
    DecodeIs(prioBits, group, priority);
    ShrBounds(priority, s, p);
    WrapSmall(Shr(priority, s), p);
  }

  /** A register shifted right: by the unimplemented bits and more, or by no more than those. */
  lemma ShiftedRegister(prioBits: nat, priority: nat, free: nat, k: nat)
    requires IsPrioBits(prioBits) && free == 8 - prioBits && priority < Pow2(prioBits)
    ensures Shr(RegisterOf(prioBits, priority), k)
         == if k >= free then Shr(priority, k - free) else Shl(priority, free - k)
  {
    hide *;
    RegisterIs(prioBits, priority);
    if k >= free {
      ShlParts(priority, 0, free);
      ShrShr(Shl(priority, free), free, k - free);
    } else {
      ShrOfShl(priority, free, k);
    }
  }

  /** What a register holds above bit `group`: the pre-emption field, or all of a priority with room below. */
  lemma AbovePoint(prioBits: nat, group: nat, x: nat, free: nat, g: nat)
    requires IsPrioBits(prioBits) && free == 8 - prioBits && x < Pow2(prioBits) && g == group % 8
    ensures var field := DecodePriority(prioBits, group, x).0;
            Shr(RegisterOf(prioBits, x), g + 1) == if g + 1 >= free then field else Shl(field, free - (g + 1))
  {
    hide *;
    WidthsAre(prioBits, group);
    PreemptIs(prioBits, group, x);
    ShiftedRegister(prioBits, x, free, g + 1);
    ShrNone(x);
  }

  lemma ShrNone(x: int)
    ensures Shr(x, 0) == x
  {
  }

  /**
   The binary point of the architecture (section B3.4 of the ARMv7-M Architecture Reference
   Manual): two priorities are in the same pre-emption group exactly when their registers agree
   above bit `group`.
   */
  lemma BinaryPoint(prioBits: nat, group: nat, x: nat, y: nat)
    requires IsPrioBits(prioBits) && x < Pow2(prioBits) && y < Pow2(prioBits)
    ensures DecodePriority(prioBits, group, x).0 == DecodePriority(prioBits, group, y).0
            <==> Shr(RegisterOf(prioBits, x), group % 8 + 1) == Shr(RegisterOf(prioBits, y), group % 8 + 1)
  {
    var free: nat := 8 - prioBits;
    hide *;
    var g := group % 8;
    var fx, fy := DecodePriority(prioBits, group, x).0, DecodePriority(prioBits, group, y).0;
    AbovePoint(prioBits, group, x, free, g);
    AbovePoint(prioBits, group, y, free, g);
    if g + 1 < free {
      ShlKeepsOrder(fx, fy, free - (g + 1));
      ShlKeepsOrder(fy, fx, free - (g + 1));
    }
  }
}
