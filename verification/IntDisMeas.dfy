/**
 The interrupts-disabled time meter of cpu_core: nested critical sections, one resettable and one
 non-resettable maximum, and the overhead that readers subtract.

 The timer has `w` bits; true time is unbounded and only the specification sees it.
 */
module IntDisMeas {
  import opened Arith

  const NEST_BITS: nat := 16        // CPU_INT16U counters
  const MEAS_NBR_MAX: nat := 128    // CPU_TIME_MEAS_NBR_MAX

  datatype Meter = Meter(
    measCtr: nat,
    nestCtr: nat,
    startCnts: nat,
    stopCnts: nat,
    ovrhdCnts: nat,
    maxCurCnts: nat,
    maxCnts: nat)

  function Max(x: nat, y: nat): nat {
    if x < y then y else x
  }

  /** CPU_IntDisMeasStart */
  function Start(m: Meter, tmr: nat): Meter {
    m.(measCtr := Wrap(m.measCtr + 1, NEST_BITS),
       startCnts := if m.nestCtr == 0 then tmr else m.startCnts,
       nestCtr := Wrap(m.nestCtr + 1, NEST_BITS))
  }

  /** CPU_IntDisMeasStop */
  function Stop(w: nat, m: Meter, tmr: nat): Meter {
    var nest := Wrap(m.nestCtr - 1, NEST_BITS);
    if nest != 0 then m.(nestCtr := nest) else
    var disabled := Wrap(tmr - m.startCnts, w);
    m.(nestCtr := nest,
       stopCnts := tmr,
       maxCurCnts := Max(m.maxCurCnts, disabled),
       maxCnts := Max(m.maxCnts, disabled))
  }

  /** CPU_IntDisMeasMaxCalc: the raw maximum less the overhead, not below zero. */
  function MaxCalc(ovrhd: nat, raw: nat): nat {
    if raw > ovrhd then raw - ovrhd else 0
  }

  // Runs

  /** Zero is the second half of CPU_IntDisMeasMaxCurReset; its first half only reads. */
  datatype Kind = Enter | Exit | Zero

  datatype Event = Event(kind: Kind, time: nat)

  /** The state in which CPU_IntDisMeasInit leaves the meter, whatever overhead it found. */
  predicate Idle(m: Meter) {
    m.nestCtr == 0 && m.maxCurCnts == 0 && m.maxCnts == 0 && m.measCtr < Pow2(NEST_BITS)
  }

  /** The meter after the first `k` events of a run. */
  function Run(w: nat, init: Meter, run: seq<Event>, k: nat): Meter
    requires k <= |run|
  {
    if k == 0 then init else
    var m, e := Run(w, init, run, k - 1), run[k - 1];
    match e.kind
    case Enter => Start(m, Wrap(e.time, w))
    case Exit => Stop(w, m, Wrap(e.time, w))
    case Zero => m.(maxCurCnts := 0)
  }

  /** Critical sections entered and not yet left after the first `k` events. */
  function Depth(run: seq<Event>, k: nat): int
    requires k <= |run|
  {
    if k == 0 then 0 else
    Depth(run, k - 1) + (match run[k - 1].kind case Enter => 1 case Exit => -1 case Zero => 0)
  }

  /** Events `i` and `j` are the outermost enter and exit of one critical section. */
  ghost predicate IsSection(run: seq<Event>, i: nat, j: nat) {
    && i < j < |run| && run[i].kind.Enter? && run[j].kind.Exit?
    && Depth(run, i) == 0 && Depth(run, j + 1) == 0
    && forall n | i < n <= j :: Depth(run, n) > 0
  }

  /** Event `i` opened the outermost section that is still open after `k` events. */
  ghost predicate IsOpen(run: seq<Event>, i: nat, k: nat) {
    && i < k <= |run| && run[i].kind.Enter? && Depth(run, i) == 0
    && forall n | i < n <= k :: Depth(run, n) > 0
  }

  /** The time between two events as a timer of `w` bits measures it. */
  function Measured(w: nat, run: seq<Event>, i: nat, j: nat): nat
    requires i < |run| && j < |run|
  {
    Wrap(run[j].time - run[i].time, w)
  }

  /** `v` is the longest outermost section that ended at event `from` or later, before event `k`. */
  ghost predicate IsLongest(w: nat, run: seq<Event>, from: nat, k: nat, v: nat) {
    && (forall i: nat, j: nat | IsSection(run, i, j) && from <= j < k :: Measured(w, run, i, j) <= v)
    && (v == 0 || exists i: nat, j: nat | IsSection(run, i, j) && from <= j < k :: Measured(w, run, i, j) == v)
  }

  /** The position after the latest zeroing among the first `k` events. */
  function AfterZero(run: seq<Event>, k: nat): nat
    requires k <= |run|
  {
    if k == 0 then 0 else if run[k - 1].kind.Zero? then k else AfterZero(run, k - 1)
  }

  /** Every exit has its enter, and the nesting fits the counter. */
  ghost predicate Bracketed(run: seq<Event>) {
    forall k | 0 <= k <= |run| :: 0 <= Depth(run, k) < Pow2(NEST_BITS)
  }

  /** The nest counter is the depth modulo 2^16, for every run. */
  lemma {:induction false} NestIsDepth(w: nat, init: Meter, run: seq<Event>, k: nat)
    requires Idle(init) && k <= |run|
    ensures Run(w, init, run, k).nestCtr == Wrap(Depth(run, k), NEST_BITS)
  {
    hide Wrap;
    if k == 0 {
      WrapSmall(0, NEST_BITS);
    } else {
      NestIsDepth(w, init, run, k - 1);
      WrapAdd(Depth(run, k - 1), 1, NEST_BITS);
      WrapAdd(Depth(run, k - 1), -1, NEST_BITS);
    }
  }

  /** Among depths that fit the counter only 0 is a multiple of 2^16. */
  lemma OutermostOnly(depth: int)
    ensures Divides(NEST_BITS, depth) <==> Wrap(depth, NEST_BITS) == 0
    ensures 0 <= depth < Pow2(NEST_BITS) ==> (Divides(NEST_BITS, depth) <==> depth == 0)
  {
    hide Wrap, Divides, Pow2;
    DividesIsWrap(NEST_BITS, depth);
    if 0 <= depth < Pow2(NEST_BITS) {
      WrapSmall(depth, NEST_BITS);
    }
  }

  /**
   The start time is taken exactly by enters at depths that are multiples of 2^16, the stop time
   exactly by exits to such depths; so of a section less deep than that only the outermost enter
   and exit count. No other event touches either time.
   */
  lemma OutermostCounts(w: nat, init: Meter, run: seq<Event>, k: nat)
    requires Idle(init) && k < |run|
    ensures var m, m', outer, outer' := Run(w, init, run, k), Run(w, init, run, k + 1),
                                        Divides(NEST_BITS, Depth(run, k)), Divides(NEST_BITS, Depth(run, k + 1));
            && m'.startCnts == (if run[k].kind.Enter? && outer then Wrap(run[k].time, w) else m.startCnts)
            && m'.stopCnts == (if run[k].kind.Exit? && outer' then Wrap(run[k].time, w) else m.stopCnts)
            && (Bracketed(run) ==> (outer <==> Depth(run, k) == 0) && (outer' <==> Depth(run, k + 1) == 0))
  {
    hide Wrap, Divides, Depth;
    NestIsDepth(w, init, run, k);
    NestIsDepth(w, init, run, k + 1);
    OutermostOnly(Depth(run, k));
    OutermostOnly(Depth(run, k + 1));
  }

  function Enters(run: seq<Event>, k: nat): nat
    requires k <= |run|
  {
    if k == 0 then 0 else Enters(run, k - 1) + (if run[k - 1].kind.Enter? then 1 else 0)
  }

  /** No run changes the calibrated overhead, and the start counter counts the enters modulo 2^16. */
  lemma {:induction false} OverheadStays(w: nat, init: Meter, run: seq<Event>, k: nat)
    requires Idle(init) && k <= |run|
    ensures Run(w, init, run, k).ovrhdCnts == init.ovrhdCnts
    ensures Run(w, init, run, k).measCtr == Wrap(init.measCtr + Enters(run, k), NEST_BITS)
  {
    hide Wrap;
    if k == 0 {
      WrapSmall(init.measCtr, NEST_BITS);
    } else {
      OverheadStays(w, init, run, k - 1);
      WrapAdd(init.measCtr + Enters(run, k - 1), 1, NEST_BITS);
    }
  }

  ghost predicate Inv(w: nat, run: seq<Event>, k: nat, m: Meter)
    requires k <= |run|
  {
    && m.nestCtr == Depth(run, k)
    && (Depth(run, k) > 0 ==> exists i: nat :: IsOpen(run, i, k) && m.startCnts == Wrap(run[i].time, w))
    && IsLongest(w, run, 0, k, m.maxCnts)
    && IsLongest(w, run, AfterZero(run, k), k, m.maxCurCnts)
    && m.maxCurCnts <= m.maxCnts
  }

  lemma NoSectionEnds(w: nat, run: seq<Event>, from: nat, k: nat, v: nat)
    requires k < |run| && IsLongest(w, run, from, k, v)
    requires run[k].kind.Exit? ==> Depth(run, k + 1) > 0
    ensures IsLongest(w, run, from, k + 1, v)
  {
    assert forall i: nat, j: nat | IsSection(run, i, j) && from <= j < k + 1 :: j < k;
  }

  lemma SectionEnds(w: nat, run: seq<Event>, from: nat, i: nat, k: nat, v: nat)
    requires k < |run| && from <= k && IsLongest(w, run, from, k, v)
    requires run[k].kind.Exit? && Depth(run, k + 1) == 0 && IsOpen(run, i, k)
    ensures IsSection(run, i, k)
    ensures IsLongest(w, run, from, k + 1, Max(v, Measured(w, run, i, k)))
  {
    var longest := Max(v, Measured(w, run, i, k));
    assert IsSection(run, i, k);
    forall i': nat, j: nat | IsSection(run, i', j) && from <= j < k + 1 ensures Measured(w, run, i', j) <= longest {
      if j == k {
        OpenIsUnique(run, i, i', k);
      }
    }
  }

  lemma OpenIsUnique(run: seq<Event>, i: nat, i': nat, k: nat)
    requires IsOpen(run, i, k) && i' < k <= |run| && Depth(run, i') == 0
    requires forall n | i' < n <= k :: Depth(run, n) > 0
    ensures i == i'
  {
  }

  lemma StepKeepsInv(w: nat, init: Meter, run: seq<Event>, k: nat)
    requires Idle(init) && k < |run| && Bracketed(run) && Inv(w, run, k, Run(w, init, run, k))
    ensures Inv(w, run, k + 1, Run(w, init, run, k + 1))
  {
    hide Wrap, IsSection, IsOpen, IsLongest;
    var m := Run(w, init, run, k);
    NestIsDepth(w, init, run, k + 1);
    WrapSmall(Depth(run, k + 1), NEST_BITS);
    if run[k].kind.Exit? && Depth(run, k + 1) == 0 {
      LastExitKeepsInv(w, init, run, k);
    } else {
      NoSectionEnds(w, run, 0, k, m.maxCnts);
      NoSectionEnds(w, run, AfterZero(run, k), k, m.maxCurCnts);
      NothingYet(w, run, k + 1);
      OpenStays(w, init, run, k);
    }
  }

  lemma NothingYet(w: nat, run: seq<Event>, k: nat)
    ensures IsLongest(w, run, k, k, 0)
  {
  }

  lemma LastExitKeepsInv(w: nat, init: Meter, run: seq<Event>, k: nat)
    requires Idle(init) && k < |run| && Inv(w, run, k, Run(w, init, run, k))
    requires run[k].kind.Exit? && Depth(run, k + 1) == 0
    ensures Inv(w, run, k + 1, Run(w, init, run, k + 1))
  {
    var m := Run(w, init, run, k);
    var i: nat :| IsOpen(run, i, k) && m.startCnts == Wrap(run[i].time, w);
    assert i < |run|;
    hide Wrap, IsSection, IsOpen, IsLongest;
    var disabled := Measured(w, run, i, k);
    LastExitMeasures(w, init, run, i, k);
    hide Run;
    AfterZeroBounded(run, k);
    SectionEnds(w, run, 0, i, k, m.maxCnts);
    SectionEnds(w, run, AfterZero(run, k), i, k, m.maxCurCnts);
  }

  lemma LastExitMeasures(w: nat, init: Meter, run: seq<Event>, i: nat, k: nat)
    requires Idle(init) && i < k < |run| && run[k].kind.Exit? && Depth(run, k + 1) == 0
    requires Run(w, init, run, k).startCnts == Wrap(run[i].time, w)
    ensures var m, m', disabled := Run(w, init, run, k), Run(w, init, run, k + 1), Wrap(run[k].time - run[i].time, w);
            && m'.nestCtr == 0
            && m'.maxCnts == Max(m.maxCnts, disabled)
            && m'.maxCurCnts == Max(m.maxCurCnts, disabled)
  {
    hide *;
    RunExit(w, init, run, k);
    NestIsDepth(w, init, run, k + 1);
    WrapZero(NEST_BITS);
    LastStop(w, Run(w, init, run, k), run[i].time, run[k].time);
  }

  lemma RunExit(w: nat, init: Meter, run: seq<Event>, k: nat)
    requires k < |run| && run[k].kind.Exit?
    ensures Run(w, init, run, k + 1) == Stop(w, Run(w, init, run, k), Wrap(run[k].time, w))
  {
    hide Wrap, Stop;
  }

  lemma LastStop(w: nat, m: Meter, from: nat, to: nat)
    requires m.startCnts == Wrap(from, w) && Stop(w, m, Wrap(to, w)).nestCtr == 0
    ensures var m', disabled := Stop(w, m, Wrap(to, w)), Wrap(to - from, w);
            m'.maxCnts == Max(m.maxCnts, disabled) && m'.maxCurCnts == Max(m.maxCurCnts, disabled)
  {
    hide Wrap;
    WrapSub(to, from, w);
  }

  lemma OpenStays(w: nat, init: Meter, run: seq<Event>, k: nat)
    requires Idle(init) && k < |run| && Bracketed(run) && Inv(w, run, k, Run(w, init, run, k))
    requires run[k].kind.Exit? ==> Depth(run, k + 1) > 0
    ensures Depth(run, k + 1) > 0 ==>
              exists i: nat :: IsOpen(run, i, k + 1) && Run(w, init, run, k + 1).startCnts == Wrap(run[i].time, w)
  {
    hide Wrap;
    var m := Run(w, init, run, k);
    if Depth(run, k) == 0 {
      assert run[k].kind.Enter? ==> IsOpen(run, k, k + 1);
    } else {
      var i: nat :| IsOpen(run, i, k) && m.startCnts == Wrap(run[i].time, w);
      NestIsDepth(w, init, run, k + 1);
      WrapSmall(Depth(run, k + 1), NEST_BITS);
      assert IsOpen(run, i, k + 1);
    }
  }

  lemma {:induction false} AfterZeroBounded(run: seq<Event>, k: nat)
    requires k <= |run|
    ensures AfterZero(run, k) <= k
  {
    if k > 0 {
      AfterZeroBounded(run, k - 1);
    }
  }

  /**
   After any bracketed run: the nest counter is the depth, the non-resettable maximum is the
   longest outermost section of the whole run as the timer measures it, and the resettable one
   the longest that ended since the last zeroing.
   */
  lemma {:induction false} MeterMeasures(w: nat, init: Meter, run: seq<Event>, k: nat)
    requires Idle(init) && k <= |run| && Bracketed(run)
    ensures var m := Run(w, init, run, k);
            && m.nestCtr == Depth(run, k)
            && IsLongest(w, run, 0, k, m.maxCnts)
            && IsLongest(w, run, AfterZero(run, k), k, m.maxCurCnts)
            && m.maxCurCnts <= m.maxCnts
    ensures Inv(w, run, k, Run(w, init, run, k))
  {
    if k > 0 {
      hide Wrap, IsSection, IsOpen, IsLongest, Run;
      MeterMeasures(w, init, run, k - 1);
      StepKeepsInv(w, init, run, k - 1);
    }
  }

  /** Sections shorter than the timer's period are measured exactly, even across its wrap. */
  lemma ShortSectionsExact(w: nat, run: seq<Event>, i: nat, j: nat)
    requires IsSection(run, i, j) && 0 <= run[j].time - run[i].time < Pow2(w)
    ensures Measured(w, run, i, j) == run[j].time - run[i].time
  {
    hide Wrap;
    WrapSmall(run[j].time - run[i].time, w);
  }

  // Resetting: CPU_IntDisMeasMaxCurReset reads at position `r` and zeroes at event `z`.

  /** No other zeroing happens between the two halves, nor after them before position `k`. */
  predicate IsReset(run: seq<Event>, r: nat, z: nat, k: nat) {
    && r <= z < k <= |run| && run[z].kind.Zero?
    && AfterZero(run, z) == AfterZero(run, r) && AfterZero(run, k) == z + 1
  }

  /** The value read at `r` or a reading at `k` covers every section ended since the zeroing before. */
  ghost predicate ReadingsCover(w: nat, init: Meter, run: seq<Event>, r: nat, k: nat)
    requires r <= k <= |run|
  {
    forall i: nat, j: nat | IsSection(run, i, j) && AfterZero(run, r) <= j < k ::
      Measured(w, run, i, j) <= Max(Run(w, init, run, r).maxCurCnts, Run(w, init, run, k).maxCurCnts)
  }

  /**
   Such a section is covered by the value read or by later resettable readings unless it ended
   between the two halves; the non-resettable maximum always covers it.
   */
  lemma ResetCovers(w: nat, init: Meter, run: seq<Event>, r: nat, z: nat, k: nat, i: nat, j: nat)
    requires Idle(init) && Bracketed(run) && IsReset(run, r, z, k)
    requires IsSection(run, i, j) && AfterZero(run, r) <= j < k
    ensures Measured(w, run, i, j) <= Run(w, init, run, k).maxCnts
    ensures r <= j < z
         || Measured(w, run, i, j) <= Max(Run(w, init, run, r).maxCurCnts, Run(w, init, run, k).maxCurCnts)
  {
    hide Wrap, Run, Depth;
    MeterMeasures(w, init, run, r);
    MeterMeasures(w, init, run, k);
  }

  /** The same calls in the same order, at other times. */
  predicate SameCalls(run: seq<Event>, run': seq<Event>) {
    |run'| == |run| && forall n | 0 <= n < |run| :: run'[n].kind == run[n].kind
  }

  predicate Growing(run: seq<Event>) {
    forall m, n | 0 <= m < n < |run| :: run[m].time <= run[n].time
  }

  lemma {:induction false} SameDepth(run: seq<Event>, run': seq<Event>, k: nat)
    requires SameCalls(run, run') && k <= |run|
    ensures Depth(run', k) == Depth(run, k) && AfterZero(run', k) == AfterZero(run, k)
  {
    if k > 0 {
      SameDepth(run, run', k - 1);
    }
  }

  /** Depths, sections and resets do not depend on when the calls happen. */
  lemma SameShape(run: seq<Event>, run': seq<Event>)
    requires SameCalls(run, run')
    ensures forall k | 0 <= k <= |run| :: Depth(run', k) == Depth(run, k) && AfterZero(run', k) == AfterZero(run, k)
    ensures forall i: nat, j: nat :: IsSection(run', i, j) <==> IsSection(run, i, j)
    ensures Bracketed(run) ==> Bracketed(run')
  {
    forall k | 0 <= k <= |run| ensures Depth(run', k) == Depth(run, k) && AfterZero(run', k) == AfterZero(run, k) {
      SameDepth(run, run', k);
    }
    hide Depth, AfterZero, Pow2;
  }

  /** The run in which everything before event `j` happens at time 0 and the rest at time 1. */
  function Retimed(run: seq<Event>, j: nat): (run': seq<Event>)
    ensures SameCalls(run, run') && Growing(run')
  {
    seq(|run|, n requires 0 <= n < |run| => Event(run[n].kind, if n < j then 0 else 1))
  }

  /** Sections are disjoint, so in that run only the one that ends at `j` takes any time. */
  lemma OnlyOneTakesTime(w: nat, run: seq<Event>, i: nat, j: nat, i': nat, j': nat)
    requires w >= 1 && IsSection(run, i, j) && IsSection(run, i', j')
    ensures Measured(w, Retimed(run, j), i', j') == if j' == j then 1 else 0
  {
    hide Wrap, Depth;
    Pow2Monotone(1, w);
    assert Pow2(1) == 2;
    WrapSmall(0, w);
    WrapSmall(1, w);
    assert !(i' < j + 1 <= j');
  }

  /** A section that ends between the halves escapes every resettable reading under some timing. */
  lemma ResetLosesSection(w: nat, init: Meter, run: seq<Event>, r: nat, z: nat, k: nat, i: nat, j: nat)
    requires w >= 1 && Idle(init) && Bracketed(run) && IsReset(run, r, z, k)
    requires IsSection(run, i, j) && r <= j < z
    ensures var run' := Retimed(run, j);
            && IsSection(run', i, j) && Measured(w, run', i, j) == 1
            && Run(w, init, run', r).maxCurCnts == 0 && Run(w, init, run', k).maxCurCnts == 0
            && Run(w, init, run', k).maxCnts == 1
  {
    hide Wrap, Run, Depth, AfterZero, Retimed;
    var run' := Retimed(run, j);
    SameShape(run, run');
    MeterMeasures(w, init, run', r);
    MeterMeasures(w, init, run', k);
    forall i': nat, j': nat | IsSection(run', i', j')
      ensures Measured(w, run', i', j') == if j' == j then 1 else 0
    {
      OnlyOneTakesTime(w, run, i, j, i', j');
    }
  }

  /**
   The readings around a reset cover every section, whenever the calls happen, if and only if no
   section ends between the reset's halves.
   */
  lemma ResetCoversExactly(w: nat, init: Meter, run: seq<Event>, r: nat, z: nat, k: nat)
    requires w >= 1 && Idle(init) && Bracketed(run) && IsReset(run, r, z, k)
    ensures (forall run' | SameCalls(run, run') && Growing(run') :: ReadingsCover(w, init, run', r, k))
            <==> (forall i: nat, j: nat | IsSection(run, i, j) :: !(r <= j < z))
  {
    hide Run, Depth, AfterZero, Retimed, Growing, Bracketed, Measured;
    if i: nat, j: nat :| IsSection(run, i, j) && r <= j < z {
      ResetLosesSection(w, init, run, r, z, k, i, j);
      SameShape(run, Retimed(run, j));
      AfterZeroBounded(run, r);
      assert !ReadingsCover(w, init, Retimed(run, j), r, k);
    } else {
      forall run' | SameCalls(run, run') && Growing(run') ensures ReadingsCover(w, init, run', r, k) {
        SameShape(run, run');
        forall i: nat, j: nat | IsSection(run', i, j) && AfterZero(run', r) <= j < k
          ensures Measured(w, run', i, j) <= Max(Run(w, init, run', r).maxCurCnts, Run(w, init, run', k).maxCurCnts)
        {
          ResetCovers(w, init, run', r, z, k, i, j);
        }
      }
    }
  }

  /** Readers subtract the overhead, saturate at zero, and keep the order of the raw maxima. */
  lemma ReadersMonotone(ovrhd: nat, raw: nat, raw': nat)
    requires raw <= raw'
    ensures MaxCalc(ovrhd, raw) <= MaxCalc(ovrhd, raw')
    ensures MaxCalc(ovrhd, raw) + ovrhd == Max(raw, ovrhd)
  {
  }

  // The module state

  lemma {:induction false} RunPrefix(w: nat, init: Meter, run: seq<Event>, e: Event, k: nat)
    requires k <= |run|
    ensures Run(w, init, run + [e], k) == Run(w, init, run, k)
  {
    if k > 0 {
      hide Wrap, Start, Stop;
      RunPrefix(w, init, run, e, k - 1);
    }
  }

  /** One start and stop of the calibration: the timer at the start and at the stop. */
  datatype Sample = Sample(start: nat, stop: nat)

  function SampleSum(w: nat, samples: seq<Sample>): nat {
    if samples == [] then 0 else
    var last := samples[|samples| - 1];
    SampleSum(w, samples[..|samples| - 1]) + Wrap(last.stop - last.start, w)
  }

  /** The sum takes every sample once, with the time from its start to its stop. */
  lemma {:induction false} SumOfSamples(w: nat, s: seq<Sample>, t: seq<Sample>, x: Sample)
    ensures SampleSum(w, s + t) == SampleSum(w, s) + SampleSum(w, t)
    ensures 0 <= x.stop - x.start < Pow2(w) ==> SampleSum(w, [x]) == x.stop - x.start
  {
    if t == [] {
      assert s + t == s;
      if 0 <= x.stop - x.start < Pow2(w) {
        assert [x][..0] == [];
        WrapSmall(x.stop - x.start, w);
      }
    } else {
      hide Wrap;
      SumOfSamples(w, s, t[..|t| - 1], x);
      assert (s + t)[..|s + t| - 1] == s + t[..|t| - 1];
    }
  }

  class IntDisMeter {
    const w: nat            // timer width in bits
    var meter: Meter
    ghost var init: Meter
    ghost var run: seq<Event>

    ghost predicate Valid()
      reads this
    {
      Idle(init) && meter == Run(w, init, run, |run|)
    }

    constructor (w: nat, meter: Meter)
      ensures this.w == w && this.meter == meter
    {
      this.w := w;
      this.meter := meter;
    }

    /** CPU_IntDisMeasStart at true time `now`, when the timer shows `tmr`. */
    method MeasStart(tmr: nat, ghost now: nat)
      requires Valid() && tmr == Wrap(now, w)
      modifies this
      ensures Valid() && init == old(init) && run == old(run) + [Event(Enter, now)]
    {
      hide Wrap, Idle;
      RunPrefix(w, init, run, Event(Enter, now), |run|);
      Begin(tmr);
      run := run + [Event(Enter, now)];
    }

    method Begin(tmr: nat)
      modifies `meter
      ensures meter == Start(old(meter), tmr)
    {
      var outermost := meter.nestCtr == 0;
      meter := meter.(measCtr := Wrap(meter.measCtr + 1, NEST_BITS));
      if outermost {
        meter := meter.(startCnts := tmr);
      }
      meter := meter.(nestCtr := Wrap(meter.nestCtr + 1, NEST_BITS));
    }

    /** CPU_IntDisMeasStop at true time `now`. */
    method MeasStop(tmr: nat, ghost now: nat)
      requires Valid() && tmr == Wrap(now, w)
      modifies this
      ensures Valid() && init == old(init) && run == old(run) + [Event(Exit, now)]
    {
      hide Wrap, Idle;
      RunPrefix(w, init, run, Event(Exit, now), |run|);
      End(tmr);
      run := run + [Event(Exit, now)];
    }

    method End(tmr: nat)
      modifies `meter
      ensures meter == Stop(w, old(meter), tmr)
    {
      meter := meter.(nestCtr := Wrap(meter.nestCtr - 1, NEST_BITS));
      if meter.nestCtr == 0 {
        meter := meter.(stopCnts := tmr);
        var disabled := Wrap(meter.stopCnts - meter.startCnts, w);
        if meter.maxCurCnts < disabled {
          meter := meter.(maxCurCnts := disabled);
        }
        if meter.maxCnts < disabled {
          meter := meter.(maxCnts := disabled);
        }
      }
    }

    /** CPU_IntDisMeasMaxGet: the longest section of the run, less the overhead. */
    method MaxGet() returns (time: nat)
      requires Valid() && Bracketed(run)
      ensures exists raw :: IsLongest(w, run, 0, |run|, raw) && time == MaxCalc(init.ovrhdCnts, raw)
    {
      hide Run;
      MeterMeasures(w, init, run, |run|);
      OverheadStays(w, init, run, |run|);
      time := MaxCalc(meter.ovrhdCnts, meter.maxCnts);
    }

    /** CPU_IntDisMeasMaxCurGet: the longest section since the last reset, less the overhead. */
    method MaxCurGet() returns (time: nat)
      requires Valid() && Bracketed(run)
      ensures exists raw ::
                IsLongest(w, run, AfterZero(run, |run|), |run|, raw) && time == MaxCalc(init.ovrhdCnts, raw)
    {
      hide Run;
      MeterMeasures(w, init, run, |run|);
      OverheadStays(w, init, run, |run|);
      time := MaxCalc(meter.ovrhdCnts, meter.maxCurCnts);
    }

    /** The zeroing half of CPU_IntDisMeasMaxCurReset; MaxCurGet is the other half. */
    method MaxCurZero(ghost now: nat)
      requires Valid()
      modifies this
      ensures Valid() && init == old(init) && run == old(run) + [Event(Zero, now)]
      ensures meter == old(meter).(maxCurCnts := 0)
    {
      hide Wrap, Idle;
      RunPrefix(w, init, run, Event(Zero, now), |run|);
      meter := meter.(maxCurCnts := 0);
      run := run + [Event(Zero, now)];
    }

    /** Calls that interrupts and other tasks make, each at its time. */
    method Others(calls: seq<Event>)
      requires Valid()
      modifies this
      ensures Valid() && init == old(init) && run == old(run) + calls
    {
      hide Wrap, Run, Idle;
      for n := 0 to |calls|
        invariant Valid() && init == old(init) && run == old(run) + calls[..n]
      {
        var now := calls[n].time;
        match calls[n].kind {
          case Enter => MeasStart(Wrap(now, w), now);
          case Exit => MeasStop(Wrap(now, w), now);
          case Zero => MaxCurZero(now);
        }
        assert calls[..n + 1] == calls[..n] + [calls[n]];
      }
      assert calls[..|calls|] == calls;
    }

    /**
     CPU_IntDisMeasMaxCurReset. Interrupts are enabled between its halves, where `between` happens;
     the value returned is that of the first half.
     */
    method MaxCurReset(between: seq<Event>, ghost now: nat) returns (time: nat)
      requires Valid() && Bracketed(run)
      modifies this
      ensures Valid() && init == old(init) && run == old(run) + between + [Event(Zero, now)]
      ensures exists raw ::
                IsLongest(w, old(run), AfterZero(old(run), |old(run)|), |old(run)|, raw)
                && time == MaxCalc(init.ovrhdCnts, raw)
      ensures meter.maxCurCnts == 0
    {
      time := MaxCurGet();
      Others(between);
      MaxCurZero(now);
    }

    /**
     CPU_IntDisMeasInit: measures the overhead as the mean of the samples, in the arithmetic of
     the larger of the timer's type and 32 bits, and leaves the meter idle.
     */
    method MeasInit(samples: seq<Sample>)
      requires 1 <= |samples| <= MEAS_NBR_MAX
      modifies this
      ensures Valid() && run == [] && init == meter
      ensures meter.measCtr == |samples| && Idle(meter)
      ensures meter.startCnts == samples[|samples| - 1].start && meter.stopCnts == samples[|samples| - 1].stop
      ensures meter.ovrhdCnts == Overhead(w, SampleSum(w, samples), |samples|)
    {
      Pow2Values();
      hide Wrap, Pow2;
      WrapZero(NEST_BITS);
      meter := Meter(0, 0, 0, 0, 0, 0, 0);
      var tot := 0;
      WrapZero(w);
      for i := 0 to |samples|
        invariant meter.nestCtr == 0 && meter.measCtr == i
        invariant i > 0 ==> meter.startCnts == samples[i - 1].start && meter.stopCnts == samples[i - 1].stop
        invariant tot == Wrap(SampleSum(w, samples[..i]), w)
      {
        meter := meter.(maxCurCnts := 0);
        CounterSteps(i);
        Begin(samples[i].start);
        End(samples[i].stop);
        assert samples[..i + 1][..i] == samples[..i];
        WrapAdd(SampleSum(w, samples[..i]), Wrap(samples[i].stop - samples[i].start, w), w);
        tot := Wrap(tot + meter.maxCurCnts, w);
      }
      assert samples[..|samples|] == samples;
      var wide := if w < 32 then 32 else w;
      var mean := Wrap(tot + |samples| / 2, wide) / |samples|;
      meter := meter.(ovrhdCnts := Wrap(mean, w), maxCurCnts := 0, maxCnts := 0);
      init, run := meter, [];
    }
  }

  /** The counters of 16 bits do not wrap during calibration. */
  lemma CounterSteps(i: nat)
    requires i < MEAS_NBR_MAX
    ensures Wrap(i + 1, NEST_BITS) == i + 1 && Wrap(1, NEST_BITS) == 1 && Wrap(0, NEST_BITS) == 0
    ensures Wrap(1 - 1, NEST_BITS) == 0 && Wrap(0 + 1, NEST_BITS) == 1
  {
    Pow2Values();
    hide Wrap, Pow2;
    WrapSmall(i + 1, NEST_BITS);
    WrapSmall(1, NEST_BITS);
    WrapZero(NEST_BITS);
  }

  function Quotient(x: nat, n: nat): nat
    requires n > 0
  {
    x / n
  }

  /** The overhead found from `n` samples with the given sum. */
  function Overhead(w: nat, sum: nat, n: nat): nat
    requires n > 0
  {
    var wide := if w < 32 then 32 else w;
    Wrap(Quotient(Wrap(Wrap(sum, w) + n / 2, wide), n), w)
  }

  lemma WordSizes(w: nat)
    ensures Pow2(32) == 0x1_0000_0000
    ensures w < 32 ==> Pow2(w) <= 0x8000_0000
    ensures w >= 32 ==> Pow2(w) >= 0x1_0000_0000
    ensures w >= 8 ==> Pow2(w) >= 256
  {
    hide *;
    Pow2Values();
    if w < 32 {
      Pow2Monotone(w, 31);
    } else {
      Pow2Monotone(32, w);
    }
    if w >= 8 {
      Pow2Monotone(8, w);
    }
  }

  /** What the code computes from the sum as the timer's type keeps it; adding n / 2 can wrap to less than n. */
  lemma OverheadIs(w: nat, sum: nat, n: nat)
    requires 1 <= n <= MEAS_NBR_MAX
    ensures var kept := Wrap(sum, w);
            Overhead(w, sum, n) == if w < 32 || kept + n / 2 < Pow2(w) then Quotient(kept + n / 2, n) else 0
  {
    hide Wrap, Pow2, Quotient;
    WordSizes(w);
    if w < 32 {
      NarrowOverhead(w, Wrap(sum, w), n);
    } else {
      WideOverhead(w, Wrap(sum, w), n);
    }
  }

  lemma NarrowOverhead(w: nat, kept: nat, n: nat)
    requires 1 <= n <= MEAS_NBR_MAX && kept < Pow2(w) <= 0x8000_0000 && Pow2(32) == 0x1_0000_0000
    ensures Wrap(Quotient(Wrap(kept + n / 2, 32), n), w) == Quotient(kept + n / 2, n)
  {
    hide Wrap, Pow2, Quotient;
    WrapSmall(kept + n / 2, 32);
    MeanFits(kept, n);
    WrapSmall(Quotient(kept + n / 2, n), w);
  }

  lemma WideOverhead(w: nat, kept: nat, n: nat)
    requires w >= 32 && 1 <= n <= MEAS_NBR_MAX <= Pow2(w) && kept < Pow2(w)
    ensures Wrap(Quotient(Wrap(kept + n / 2, w), n), w)
         == if kept + n / 2 < Pow2(w) then Quotient(kept + n / 2, n) else 0
  {
    var m := Pow2(w);
    hide Wrap, Pow2, Quotient;
    if kept + n / 2 < m {
      WrapSmall(kept + n / 2, w);
      MeanFits(kept, n);
      WrapSmall(Quotient(kept + n / 2, n), w);
    } else {
      var rest := kept + n / 2 - m;
      ShlOne(w);
      WrapShl(1, rest, w);
      WrapSmall(rest, w);
      QuotientZero(rest, n);
      WrapZero(w);
    }
  }

  lemma QuotientZero(x: nat, n: nat)
    requires x < n
    ensures Quotient(x, n) == 0
  {
  }

  /** The mean is rounded to nearest, halves up. */
  predicate IsNearestMean(mean: nat, sum: nat, n: nat) {
    n * mean <= sum + n / 2 < n * mean + n
  }

  /**
   The overhead is the mean of the samples rounded to nearest exactly when their sum fits the
   timer's type, of 8 bits or more, and in one of 32 bits or more fits it even with n / 2 added.
   */
  lemma OverheadIsMean(w: nat, sum: nat, n: nat)
    requires 1 <= n <= MEAS_NBR_MAX
    ensures var fits := sum < Pow2(w) && (w >= 32 ==> sum + n / 2 < Pow2(w));
            && (fits ==> IsNearestMean(Overhead(w, sum, n), sum, n))
            && (8 <= w ==> (fits <==> IsNearestMean(Overhead(w, sum, n), sum, n)))
            && (fits ==> -(n / 2) <= n * Overhead(w, sum, n) - sum <= n / 2)
  {
    hide *;
    var kept := Wrap(sum, w);
    WordSizes(w);
    KeptOf(w, sum);
    OverheadIs(w, sum, n);
    MeanNearest(kept, n, Quotient(kept + n / 2, n));
    NearestExactly(sum, kept, n, Pow2(w), Overhead(w, sum, n), w >= 32);
  }

  lemma NearestExactly(sum: nat, kept: nat, n: nat, m: nat, mean: nat, wide: bool)
    requires 1 <= n <= MEAS_NBR_MAX && kept < m
    requires wide ==> m >= 0x1_0000_0000
    requires (sum < m ==> kept == sum) && (sum >= m ==> sum >= kept + m)
    requires if !wide || kept + n / 2 < m then IsNearestMean(mean, kept, n) else mean == 0
    ensures sum < m && (wide ==> sum + n / 2 < m) ==> IsNearestMean(mean, sum, n) && -(n / 2) <= n * mean - sum <= n / 2
    ensures m >= 256 && IsNearestMean(mean, sum, n) ==> sum < m && (wide ==> sum + n / 2 < m)
  {
  }

  lemma KeptOf(w: nat, sum: nat)
    ensures sum < Pow2(w) <==> Wrap(sum, w) == sum
    ensures sum >= Pow2(w) ==> sum >= Wrap(sum, w) + Pow2(w)
  {
    hide *;
    if sum < Pow2(w) {
      WrapSmall(sum, w);
    } else {
      ShiftIsMul(sum, w);
      var q := sum / Pow2(w);
      assert sum == q * Pow2(w) + Wrap(sum, w) by { DivMod(sum, Pow2(w)); }
      if q <= 0 {
        MulAtMost(q, 0, Pow2(w));
      }
      MulAtMost(1, q, Pow2(w));
    }
  }

  lemma DivMod(x: nat, m: nat)
    requires m > 0
    ensures x == (x / m) * m + x % m
  {
  }

  lemma {:induction false} EqualSamplesSum(w: nat, samples: seq<Sample>, d: nat)
    requires d < Pow2(w) && forall i | 0 <= i < |samples| :: samples[i].stop - samples[i].start == d
    ensures SampleSum(w, samples) == |samples| * d
  {
    if samples != [] {
      WrapSmall(d, w);
      hide Wrap;
      EqualSamplesSum(w, samples[..|samples| - 1], d);
      Distribute(d, |samples| - 1, 1);
    }
  }

  /** When every start and stop takes the same time, that time is the overhead. */
  lemma EqualSamples(w: nat, samples: seq<Sample>, d: nat)
    requires 1 <= |samples| <= MEAS_NBR_MAX
    requires forall i | 0 <= i < |samples| :: samples[i].stop - samples[i].start == d
    requires var sum := |samples| * d; sum < Pow2(w) && (w >= 32 ==> sum + |samples| / 2 < Pow2(w))
    ensures Overhead(w, SampleSum(w, samples), |samples|) == d
  {
    var n := |samples|;
    hide Overhead, SampleSum, Wrap, Pow2;
    MulAtMost(1, n, d);
    EqualSamplesSum(w, samples, d);
    OverheadIsMean(w, n * d, n);
    var mean := Overhead(w, n * d, n);
    hide *;
    Distribute(n, mean, 1);
    Distribute(n, d, 1);
    assert n * mean < n * d + n && n * d < n * mean + n;
    MulLess(mean, d + 1, n);
    MulLess(d, mean + 1, n);
  }

  lemma MeanNearest(sum: nat, n: nat, mean: nat)
    requires n > 0 && mean == Quotient(sum + n / 2, n)
    ensures IsNearestMean(mean, sum, n)
  {
    assert sum + n / 2 == n * mean + (sum + n / 2) % n;
  }

  lemma MeanFits(sum: nat, n: nat)
    requires n > 0
    ensures Quotient(sum + n / 2, n) <= sum
  {
    var mean := (sum + n / 2) / n;
    assert mean * n <= sum + n / 2;
    MulAtMost(1, n, sum);
    Distribute(n, sum, 1);
    MulLess(mean, sum + 1, n);
  }
}
