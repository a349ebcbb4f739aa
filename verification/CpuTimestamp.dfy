/**
 The CPU timestamps of cpu_core: a free-running timer of `w` bits is extended to 32- and 64-bit
 timestamps by adding up the timer deltas between calls.

 True time is an unbounded tick count that only the specification sees; the timer shows its low
 `w` bits. All statements hold for every timer width.
 */
module CpuTimestamp {
  import opened Arith

  /** An accumulated timestamp and the timer value at its last update. */
  datatype Stamp = Stamp(accum: nat, tmrPrev: nat)

  /** One update: the delta is taken in the timer's type, the sum in the timestamp's. */
  function Advance(w: nat, size: nat, s: Stamp, tmrCur: nat): Stamp {
    Stamp(Wrap(s.accum + Wrap(tmrCur - s.tmrPrev, w), size), tmrCur)
  }

  /** A call on behalf of the timestamp of `size` bits, with the true time of its timer read. */
  datatype Event = Event(size: nat, time: nat)

  /** The calls that move the timestamp of `size` bits; wide timers need no accumulation. */
  predicate Touches(w: nat, size: nat, e: Event) {
    w < size == e.size
  }

  /** The timestamp of `size` bits after initialisation at time `start` and a run of calls. */
  function Run(w: nat, size: nat, start: nat, run: seq<Event>): Stamp {
    if run == [] then Stamp(0, Wrap(start, w)) else
    var s := Run(w, size, start, run[..|run| - 1]);
    var last := run[|run| - 1];
    if Touches(w, size, last) then Advance(w, size, s, Wrap(last.time, w)) else s
  }

  /** True time of the last update. */
  function Latest(w: nat, size: nat, start: nat, run: seq<Event>): nat {
    if run == [] then start else
    var last := run[|run| - 1];
    if Touches(w, size, last) then last.time else Latest(w, size, start, run[..|run| - 1])
  }

  /** Complete timer wraps that went unseen: per gap between updates, the gap divided by 2^w. */
  function Missed(w: nat, size: nat, start: nat, run: seq<Event>): int {
    if run == [] then 0 else
    var last := run[|run| - 1];
    var before := Missed(w, size, start, run[..|run| - 1]);
    if Touches(w, size, last)
    then before + Shr(last.time - Latest(w, size, start, run[..|run| - 1]), w)
    else before
  }

  ghost predicate TimesGrow(start: nat, run: seq<Event>) {
    && (forall i | 0 <= i < |run| :: start <= run[i].time)
    && (forall i, j | 0 <= i < j < |run| :: run[i].time <= run[j].time)
  }

  /** The delta is the true gap less the wraps inside it. */
  lemma DeltaIsGap(w: nat, from: nat, to: nat)
    ensures Wrap(Wrap(to, w) - Wrap(from, w), w) == to - from - Shl(Shr(to - from, w), w)
  {
    hide *;
    WrapSub(to, from, w);
    Decompose(to - from, w);
  }

  /**
   After any mix of calls the timestamp is the true elapsed time less 2^w ticks for every missed
   wrap, in the timestamp's own width.
   */
  lemma {:induction false} StampIsElapsedLessMissed(w: nat, size: nat, start: nat, run: seq<Event>)
    ensures var s := Run(w, size, start, run);
            var latest := Latest(w, size, start, run);
            && s.tmrPrev == Wrap(latest, w)
            && s.accum == Wrap(latest - start - Shl(Missed(w, size, start, run), w), size)
  {
    hide Wrap, Shl, Shr;
    if run == [] {
      WrapZero(size);
      ShlZero(w);
    } else {
      var init, last := run[..|run| - 1], run[|run| - 1];
      StampIsElapsedLessMissed(w, size, start, init);
      if Touches(w, size, last) {
        AdvanceAddsGap(w, size, Run(w, size, start, init), start,
                       Latest(w, size, start, init), Missed(w, size, start, init), last.time);
      }
    }
  }

  lemma AdvanceAddsGap(w: nat, size: nat, s: Stamp, start: nat, before: nat, missed: int, now: nat)
    requires s.tmrPrev == Wrap(before, w)
    requires s.accum == Wrap(before - start - Shl(missed, w), size)
    ensures Advance(w, size, s, Wrap(now, w)).accum
         == Wrap(now - start - Shl(missed + Shr(now - before, w), w), size)
  {
    hide Wrap, Shl, Shr;
    var wraps := Shr(now - before, w);
    DeltaIsGap(w, before, now);
    ShlAdd(missed, wraps, w);
    WrapAdd(before - start - Shl(missed, w), now - before - Shl(wraps, w), size);
  }

  lemma {:induction false} ShlZero(w: nat)
    ensures Shl(0, w) == 0
  {
    if w > 0 {
      ShlZero(w - 1);
    }
  }

  /** Successive updates are less than one timer period apart. */
  ghost predicate UpdatedInTime(w: nat, size: nat, start: nat, run: seq<Event>) {
    run == [] ||
    var init, last := run[..|run| - 1], run[|run| - 1];
    && UpdatedInTime(w, size, start, init)
    && (Touches(w, size, last) ==> last.time - Latest(w, size, start, init) < Pow2(w))
  }

  lemma {:induction false} NoneMissed(w: nat, size: nat, start: nat, run: seq<Event>)
    requires TimesGrow(start, run)
    ensures Missed(w, size, start, run) >= 0
    ensures Missed(w, size, start, run) == 0 <==> UpdatedInTime(w, size, start, run)
  {
    if run != [] {
      var init, last := run[..|run| - 1], run[|run| - 1];
      NoneMissed(w, size, start, init);
      LatestBounded(w, size, start, run, |init|);
      if Touches(w, size, last) {
        ShrZero(last.time - Latest(w, size, start, init), w);
      }
    }
  }

  lemma {:induction false} LatestBounded(w: nat, size: nat, start: nat, run: seq<Event>, i: nat)
    requires TimesGrow(start, run) && i < |run|
    ensures Latest(w, size, start, run[..i]) <= run[i].time
  {
    if i > 0 {
      assert run[..i][..i - 1] == run[..i - 1];
      LatestBounded(w, size, start, run, i - 1);
    }
  }

  lemma {:induction false} ShrZero(x: nat, w: nat)
    ensures Shr(x, w) >= 0
    ensures Shr(x, w) == 0 <==> x < Pow2(w)
  {
    if w > 0 {
      ShrZero(x / 2, w - 1);
    }
  }

  /** Updated in time, the timestamp is the true elapsed time modulo 2^size. */
  lemma StampIsElapsed(w: nat, size: nat, start: nat, run: seq<Event>)
    requires TimesGrow(start, run) && UpdatedInTime(w, size, start, run)
    ensures Run(w, size, start, run).accum == Wrap(Latest(w, size, start, run) - start, size)
  {
    StampIsElapsedLessMissed(w, size, start, run);
    NoneMissed(w, size, start, run);
    ShlZero(w);
  }

  /**
   The exact condition for a timer narrower than the timestamp: the timestamp is right exactly
   when the number of missed wraps is a multiple of 2^(size - w).
   */
  lemma StampRightExactly(w: nat, size: nat, start: nat, run: seq<Event>)
    requires w <= size
    ensures Run(w, size, start, run).accum == Wrap(Latest(w, size, start, run) - start, size)
       <==> Divides(size - w, Missed(w, size, start, run))
  {
    hide Run, Missed, Latest;
    var elapsed := Latest(w, size, start, run) - start;
    var lost := Shl(Missed(w, size, start, run), w);
    StampIsElapsedLessMissed(w, size, start, run);
    CongruentDivides(elapsed, elapsed - lost, size);
    DividesShl(Missed(w, size, start, run), w, size - w);
  }

  lemma {:induction false} DividesShl(x: int, w: nat, k: nat)
    ensures Divides(w + k, Shl(x, w)) <==> Divides(k, x)
    decreases w
  {
    if w > 0 {
      hide Divides;
      DividesShl(x, w - 1, k);
      DividesDouble(w + k - 1, Shl(x, w - 1));
    }
  }

  lemma DividesDouble(k: nat, y: int)
    ensures Divides(k + 1, 2 * y) <==> Divides(k, y)
  {
    assert (2 * y) / 2 == y;
  }

  /** The module state, with a ghost record of the calls so far. */
  class Timestamps {
    const w: nat            // timer width in bits
    var accum32: nat
    var tmrPrev32: nat
    var accum64: nat
    var tmrPrev64: nat
    ghost var start: nat
    ghost var run: seq<Event>

    ghost predicate Valid()
      reads this
    {
      && Stamp(accum32, tmrPrev32) == Run(w, 32, start, run)
      && Stamp(accum64, tmrPrev64) == Run(w, 64, start, run)
    }

    /** CPU_TS_Init at true time `now`; `tmr` is what the timer shows then. */
    constructor (w: nat, tmr: nat, ghost now: nat)
      requires tmr == Wrap(now, w)
      ensures Valid() && this.w == w && start == now && run == []
    {
      this.w := w;
      accum32, tmrPrev32 := 0, tmr;
      accum64, tmrPrev64 := 0, tmr;
      start, run := now, [];
    }

    /** CPU_TS_Get32: extends the timer when it is narrower than 32 bits, else cuts it to 32. */
    method Get32(tmr: nat, ghost now: nat) returns (ts: nat)
      requires Valid() && tmr == Wrap(now, w)
      modifies this
      ensures Valid() && start == old(start) && run == old(run) + [Event(32, now)]
      ensures w >= 32 ==> ts == Wrap(now, 32)
      ensures w < 32 ==> ts == Wrap(now - start - Shl(Missed(w, 32, start, run), w), 32)
    {
      hide Wrap, Shl;
      if w >= 32 {
        ts := Wrap(tmr, 32);
        WrapWrap(now, w, 32);
      } else {
        var delta := Wrap(tmr - tmrPrev32, w);
        accum32 := Wrap(accum32 + delta, 32);
        tmrPrev32 := tmr;
        ts := accum32;
      }
      Record(Event(32, now));
      StampIsElapsedLessMissed(w, 32, start, run);
    }

    method Get64(tmr: nat, ghost now: nat) returns (ts: nat)
      requires Valid() && tmr == Wrap(now, w)
      modifies this
      ensures Valid() && start == old(start) && run == old(run) + [Event(64, now)]
      ensures w >= 64 ==> ts == Wrap(now, 64)
      ensures w < 64 ==> ts == Wrap(now - start - Shl(Missed(w, 64, start, run), w), 64)
    {
      hide Wrap, Shl;
      if w >= 64 {
        ts := Wrap(tmr, 64);
        WrapWrap(now, w, 64);
      } else {
        var delta := Wrap(tmr - tmrPrev64, w);
        accum64 := Wrap(accum64 + delta, 64);
        tmrPrev64 := tmr;
        ts := accum64;
      }
      Record(Event(64, now));
      StampIsElapsedLessMissed(w, 64, start, run);
    }

    /** CPU_TS_Update: one timer read per accumulated timestamp, the 32-bit one first. */
    method Update(tmr32: nat, tmr64: nat, ghost now32: nat, ghost now64: nat)
      requires Valid() && tmr32 == Wrap(now32, w) && tmr64 == Wrap(now64, w)
      modifies this
      ensures Valid() && start == old(start)
      ensures run == old(run)
                   + (if w < 32 then [Event(32, now32)] else [])
                   + (if w < 64 then [Event(64, now64)] else [])
    {
      if w < 32 {
        var _ := Get32(tmr32, now32);
      }
      if w < 64 {
        var _ := Get64(tmr64, now64);
      }
    }

    ghost method Record(e: Event)
      modifies `run
      ensures run == old(run) + [e]
      ensures forall size :: (
                Run(w, size, start, run)
                == if Touches(w, size, e)
                   then Advance(w, size, Run(w, size, start, old(run)), Wrap(e.time, w))
                   else Run(w, size, start, old(run)))
    {
      run := run + [e];
      assert run[..|run| - 1] == old(run);
    }
  }
}
