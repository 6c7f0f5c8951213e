/** The state each task carries and what every hook does to it, as functions on
    values; the consistency the hooks maintain; and runs of one task. */
module BurstState {
  import opened Words
  import opened Wrappers
  import opened FixedPoint
  import opened BurstCache

  /** The scheduling attributes of a task the module only reads. */
  datatype Attr = Attr(policy: nat, idle: bool, kthread: bool, staticPrio: int) {
    /** `bore_task_is_eligible`: SCHED_NORMAL, SCHED_BATCH or SCHED_IDLE, and no idle thread. */
    predicate Eligible() {
      policy in {0, 3, 5} && !idle
    }

    predicate Protected() {
      kthread || staticPrio < 120
    }

    /** `static_prio` of a kernel task. */
    predicate NormalPrio() {
      100 <= staticPrio < 140
    }
  }

  /** `struct bore_ctx`. */
  datatype Ctx = Ctx(
    burst: Word64,
    prev: Word16,
    curr: Word16,
    penalty: Word16,
    stop: bool,
    futex: bool,
    subtree: Word64,
    group: Word64)

  const ZERO_CTX := Ctx(0, 0, 0, 0, false, false, 0, 0)

  // ------------------------------------------------------------------- priority

  /** `effective_prio_bore`, on the 32-bit words of its `int` variables. */
  function EffectivePrio(t: Tunables, a: Attr, penalty: Word16): nat {
    var base := U32(a.staticPrio - 100);
    ClampPrio(if t.bore != 0 then U32(base + penalty / 256 % 256) else base) % 256
  }

  /** Into 0..39 by two sign masks. */
  function ClampPrio(prio: Word32): Word32 {
    var low := ClampLow(prio);
    U32(low - ClampLow(U32(low - 39)))
  }

  lemma ClampPrioMeaning(prio: Word32)
    ensures ClampPrio(prio) == Min(39, Max(0, S32(prio)))
  {
    hide ClampLow;
  }

  /** The priority is the static one, raised by the score, clamped to 0..39. */
  lemma PrioMeaning(t: Tunables, a: Attr, penalty: Word16)
    requires 0 <= a.staticPrio < 0x4000_0000
    ensures EffectivePrio(t, a, penalty) ==
            Min(39, Max(0, a.staticPrio - 100 + if t.bore != 0 then penalty / 256 else 0))
  {
    hide ClampPrio, U32, S32;
    var base := U32(a.staticPrio - 100);
    ScoreMeaning(penalty);
    SignedSum(a.staticPrio - 100, penalty / 256);
    var prio := if t.bore != 0 then U32(base + penalty / 256) else base;
    ClampPrioMeaning(prio);
  }

  lemma ScoreMeaning(penalty: Word16)
    ensures penalty / 256 % 256 == penalty / 256 < 256
  {
  }

  lemma SignedSum(prio: int, score: nat)
    requires -100 <= prio < 0x4000_0000 && score < 256
    ensures S32(U32(U32(prio) + score)) == prio + score && S32(U32(prio)) == prio
  {
  }

  // ------------------------------------------------------------------- penalties

  /** `update_penalty` without the priority: a branch-free maximum under a mask. */
  function MaskedMax(a: Attr, curr: Word16, prev: Word16): nat {
    var diff := U32(curr - prev);
    var maxVal := U16(U32(curr - NegativePart(diff)));
    And(maxVal, U32(if a.Protected() then 0 else -1))
  }

  function PenaltyFor(a: Attr, curr: Word16, prev: Word16): Word16 {
    if a.Protected() then 0 else Max(curr, prev)
  }

  lemma MaskedMaxMeaning(a: Attr, curr: Word16, prev: Word16)
    ensures MaskedMax(a, curr, prev) == PenaltyFor(a, curr, prev)
    ensures a.kthread || a.staticPrio < 120 ==> MaskedMax(a, curr, prev) == 0
    ensures !a.kthread && a.staticPrio >= 120 ==>
              var m := MaskedMax(a, curr, prev); curr <= m && prev <= m && (m == curr || m == prev)
  {
    hide NegativePart, And;
    AndMask32(Max(curr, prev));
  }

  function UpdatePenalty(a: Attr, c: Ctx): Ctx {
    MaskedMaxMeaning(a, c.curr, c.prev);
    c.(penalty := MaskedMax(a, c.curr, c.prev))
  }

  /** What `update_penalty` writes through `new_prio`: the new priority, if it changed. */
  function PrioWrite(t: Tunables, a: Attr, before: Ctx, after: Ctx): Option<nat> {
    var old', new' := EffectivePrio(t, a, before.penalty), EffectivePrio(t, a, after.penalty);
    if new' != old' then Some(new') else None
  }

  // ----------------------------------------------------------------------- hooks

  function Restart(t: Tunables, a: Attr, c: Ctx): Ctx
    requires t.ShiftDefined()
  {
    UpdatePenalty(a, c.(prev := U16(BinarySmooth(t, c.curr, c.prev)), curr := 0, burst := 0))
  }

  /** `probe_bore_update_curr`: the context after the tick. */
  function Tick(t: Tunables, a: Attr, c: Ctx, delta: Word64): Ctx {
    if t.bore == 0 || c.stop then c
    else
      var c' := Charged(t, c, delta);
      if c'.curr <= c'.prev then c' else UpdatePenalty(a, c')
  }

  /** The burst and its penalty after `delta` more nanoseconds. */
  function Charged(t: Tunables, c: Ctx, delta: Word64): Ctx {
    var burst := U64(c.burst + delta);
    c.(burst := burst, curr := U16(CalcBurstPenalty(t, burst)))
  }

  /** The priority `probe_bore_update_curr` reports. */
  function TickWrite(t: Tunables, a: Attr, c: Ctx, delta: Word64): Option<nat> {
    if t.bore == 0 || c.stop then None
    else
      var c' := Charged(t, c, delta);
      if c'.curr <= c'.prev then None else PrioWrite(t, a, c', UpdatePenalty(a, c'))
  }

  /** `probe_bore_dequeue_task_fair`; DEQUEUE_SLEEP is bit 0 of the flags. */
  function Sleep(t: Tunables, a: Attr, c: Ctx, flags: nat): Ctx
    requires t.ShiftDefined()
  {
    if t.bore == 0 || And(flags, 1) == 0 then c else Restart(t, a, c)
  }

  /** `probe_bore_yield_task_fair`. */
  function Yield(t: Tunables, a: Attr, c: Ctx): Ctx
    requires t.ShiftDefined()
  {
    if t.bore == 0 then c else Restart(t, a, c)
  }

  /** The end of `probe_bore_task_fork`, once the penalty to inherit is known. */
  function ForkCtx(a: Attr, c: Ctx, inherited: Word16): Ctx {
    UpdatePenalty(a, c.(
      prev := if c.prev < inherited then inherited else c.prev,
      curr := 0, burst := 0, stop := false, futex := false))
  }

  /** A priority is reported exactly when it changed, and it is the new one. */
  lemma PrioWriteMeaning(t: Tunables, a: Attr, before: Ctx, after: Ctx)
    ensures var old', new' := EffectivePrio(t, a, before.penalty), EffectivePrio(t, a, after.penalty);
            && (PrioWrite(t, a, before, after) == None <==> new' == old')
            && (new' != old' ==> PrioWrite(t, a, before, after) == Some(new'))
  {
    hide EffectivePrio;
  }

  /** The tick, field by field: with the scheduler off or updates stopped nothing
      happens; otherwise the burst grows, its penalty is computed, and only where
      that exceeds the previous one does it become the penalty. */
  lemma TickMeaning(t: Tunables, a: Attr, c: Ctx, delta: Word64)
    ensures t.bore == 0 || c.stop ==> Tick(t, a, c, delta) == c && TickWrite(t, a, c, delta) == None
    ensures t.bore != 0 && !c.stop ==>
              var c' := Tick(t, a, c, delta);
              var unprotected := !a.kthread && a.staticPrio >= 120;
              && c'.burst == (c.burst + delta) % 0x1_0000_0000_0000_0000
              && c'.curr == CalcBurstPenalty(t, c'.burst)
              && c' == c.(burst := c'.burst, curr := c'.curr, penalty := c'.penalty)
              && (c'.curr <= c.prev ==> c'.penalty == c.penalty)
              && (c'.curr > c.prev ==> c'.penalty == if unprotected then c'.curr else 0)
    ensures var c' := Tick(t, a, c, delta);
            && (TickWrite(t, a, c, delta) == None <==>
                  EffectivePrio(t, a, c'.penalty) == EffectivePrio(t, a, c.penalty))
            && (TickWrite(t, a, c, delta).Some? ==>
                  TickWrite(t, a, c, delta).value == EffectivePrio(t, a, c'.penalty))
  {
    hide CalcBurstPenalty, MaskedMax, EffectivePrio;
    ChargedCurr(t, c, delta);
    var c' := Charged(t, c, delta);
    MaskedMaxMeaning(a, c'.curr, c'.prev);
  }

  /** What the end of a burst leaves: nothing of it but the smoothed penalty. */
  predicate Ended(t: Tunables, a: Attr, before: Ctx, after: Ctx)
    requires t.ShiftDefined()
  {
    && after.burst == 0 && after.curr == 0
    && after.prev == BinarySmooth(t, before.curr, before.prev)
    && after.penalty == (if a.kthread || a.staticPrio < 120 then 0 else after.prev)
    && after == before.(burst := 0, curr := 0, prev := after.prev, penalty := after.penalty)
  }

  lemma RestartEnds(t: Tunables, a: Attr, c: Ctx)
    requires t.ShiftDefined()
    ensures Ended(t, a, c, Restart(t, a, c))
  {
    hide Restart, BinarySmooth;
    RestartFields(t, a, c);
  }

  lemma LowBit(flags: nat)
    ensures And(flags, 1) == flags % 2
  {
  }

  /** A dequeue ends the burst exactly with the scheduler on and the sleep flag,
      the lowest bit, set. */
  lemma SleepMeaning(t: Tunables, a: Attr, c: Ctx, flags: nat)
    requires t.ShiftDefined()
    ensures t.bore == 0 || flags % 2 == 0 ==> Sleep(t, a, c, flags) == c
    ensures t.bore != 0 && flags % 2 == 1 ==> Ended(t, a, c, Sleep(t, a, c, flags))
  {
    hide Restart, BinarySmooth, And;
    LowBit(flags);
    RestartEnds(t, a, c);
  }

  lemma SleepCases(t: Tunables, a: Attr, c: Ctx, flags: nat)
    requires t.ShiftDefined()
    ensures Sleep(t, a, c, flags) == if t.bore == 0 || And(flags, 1) == 0 then c else Restart(t, a, c)
  {
    hide Restart, And;
  }

  /** A yield ends the burst whenever the scheduler is on. */
  lemma YieldMeaning(t: Tunables, a: Attr, c: Ctx)
    requires t.ShiftDefined()
    ensures t.bore == 0 ==> Yield(t, a, c) == c
    ensures t.bore != 0 ==> Ended(t, a, c, Yield(t, a, c))
  {
    hide Restart, BinarySmooth;
    RestartEnds(t, a, c);
  }

  // ----------------------------------------------------------------- consistency

  /** What every hook relies on and keeps: the penalties are those of the burst. */
  predicate Consistent(t: Tunables, a: Attr, c: Ctx) {
    && c.curr == CalcBurstPenalty(t, c.burst)
    && c.penalty == PenaltyFor(a, c.curr, c.prev)
    && c.prev <= MAX_BURST_PENALTY
    && !c.stop
  }

  lemma ConsistentBounds(t: Tunables, a: Attr, c: Ctx)
    requires Consistent(t, a, c)
    ensures c.curr <= MAX_BURST_PENALTY && c.penalty <= MAX_BURST_PENALTY
    ensures EffectivePrio(t, a, c.penalty) <= 39 || a.staticPrio < 0 || a.staticPrio >= 0x4000_0000
    ensures a.NormalPrio() && a.Protected() ==> EffectivePrio(t, a, c.penalty) == a.staticPrio - 100
  {
    PenaltyCapped(t, c.burst);
    hide CalcBurstPenalty, EffectivePrio;
    if 0 <= a.staticPrio < 0x4000_0000 {
      PrioMeaning(t, a, c.penalty);
    }
  }

  lemma ZeroIsConsistent(t: Tunables, a: Attr)
    requires Sound(t)
    ensures Consistent(t, a, ZERO_CTX)
  {
    hide CalcBurstPenalty;
    SoundAt(t, 0, 0);
  }

  lemma ChargedCurr(t: Tunables, c: Ctx, delta: Word64)
    ensures Charged(t, c, delta).curr == CalcBurstPenalty(t, U64(c.burst + delta)) <= MAX_BURST_PENALTY
  {
    hide CalcBurstPenalty;
    PenaltyCapped(t, U64(c.burst + delta));
  }

  /** The early return of the tick keeps the penalty right exactly when the
      task is protected, the return is not taken, or the old penalty did not
      exceed the previous one either.  No assumption on wrap-around. */
  lemma TickConsistentIff(t: Tunables, a: Attr, c: Ctx, delta: Word64)
    requires t.bore != 0 && Consistent(t, a, c)
    ensures Consistent(t, a, Tick(t, a, c, delta)) <==>
            || a.Protected()
            || CalcBurstPenalty(t, U64(c.burst + delta)) > c.prev
            || c.curr <= c.prev
  {
    hide CalcBurstPenalty, MaskedMax;
    ChargedCurr(t, c, delta);
    var c' := Charged(t, c, delta);
    MaskedMaxMeaning(a, c'.curr, c'.prev);
  }

  /** Because the penalty is monotone, the early return is sound on every tick
      that does not wrap the burst time. */
  lemma TickKeepsConsistent(t: Tunables, a: Attr, c: Ctx, delta: Word64)
    requires Sound(t) && Consistent(t, a, c) && c.burst + delta < 0x1_0000_0000_0000_0000
    ensures Consistent(t, a, Tick(t, a, c, delta))
  {
    hide CalcBurstPenalty, MaskedMax;
    if t.bore != 0 {
      TickConsistentIff(t, a, c, delta);
      SoundAt(t, c.burst, c.burst + delta);
    }
  }

  /** A burst time that wraps does leave a stale penalty: one more nanosecond
      after 2^64 - 1 on an unprotected task with the default settings. */
  lemma WrappedBurstIsStale(a: Attr)
    requires !a.Protected()
    ensures var c := Ctx(0xFFFF_FFFF_FFFF_FFFF, 0, MAX_BURST_PENALTY, MAX_BURST_PENALTY, false, false, 0, 0);
            Consistent(DEFAULTS, a, c) && !Consistent(DEFAULTS, a, Tick(DEFAULTS, a, c, 1))
  {
    hide CalcBurstPenalty, MaskedMax;
    var c := Ctx(0xFFFF_FFFF_FFFF_FFFF, 0, MAX_BURST_PENALTY, MAX_BURST_PENALTY, false, false, 0, 0);
    LongestBurst();
    TickConsistentIff(DEFAULTS, a, c, 1);
    PenaltyAtZero(DEFAULTS);
  }

  lemma LongestBurst()
    ensures CalcBurstPenalty(DEFAULTS, 0xFFFF_FFFF_FFFF_FFFF) == MAX_BURST_PENALTY
  {
    hide Log2p1, PenaltyOfGreed, Div;
    Pow2Constants();
    LogOctave(0xFFFF_FFFF_FFFF_FFFF, 63);
    DivUnique(256 * 0xFFFF_FFFF_FFFF_FFFF, 0x8000_0000_0000_0000, 511, 0x7FFF_FFFF_FFFF_FF00);
    PenaltyExact(DEFAULTS, 0xFFFF_FFFF_FFFF_FFFF);
  }

  lemma RestartFields(t: Tunables, a: Attr, c: Ctx)
    requires t.ShiftDefined()
    ensures var p := BinarySmooth(t, c.curr, c.prev);
            && p <= c.curr
            && Restart(t, a, c) == c.(prev := p, curr := 0, burst := 0, penalty := PenaltyFor(a, 0, p))
  {
    hide MaskedMax, BinarySmooth;
    SmoothBetween(t, c.curr, c.prev);
    MaskedMaxMeaning(a, 0, BinarySmooth(t, c.curr, c.prev));
  }

  lemma RestartKeepsConsistent(t: Tunables, a: Attr, c: Ctx)
    requires Sound(t) && t.ShiftDefined() && Consistent(t, a, c)
    ensures Consistent(t, a, Restart(t, a, c))
    ensures Restart(t, a, c).prev == BinarySmooth(t, c.curr, c.prev)
  {
    hide CalcBurstPenalty, Restart, BinarySmooth;
    PenaltyCapped(t, c.burst);
    SoundAt(t, 0, 0);
    RestartFields(t, a, c);
  }

  lemma ForkKeepsConsistent(t: Tunables, a: Attr, c: Ctx, inherited: Word16)
    requires Sound(t) && Consistent(t, a, c) && inherited <= MAX_BURST_PENALTY
    ensures Consistent(t, a, ForkCtx(a, c, inherited))
  {
    hide CalcBurstPenalty, MaskedMax;
    SoundAt(t, 0, 0);
    MaskedMaxMeaning(a, 0, if c.prev < inherited then inherited else c.prev);
  }

  // ------------------------------------------------------------- runs of one task

  function SumOf(deltas: seq<Word64>): nat {
    if deltas == [] then 0 else deltas[0] + SumOf(deltas[1..])
  }

  function TickAll(t: Tunables, a: Attr, c: Ctx, deltas: seq<Word64>): Ctx
    decreases |deltas|
  {
    if deltas == [] then c else TickAll(t, a, Tick(t, a, c, deltas[0]), deltas[1..])
  }

  lemma TickOnce(t: Tunables, a: Attr, c: Ctx, delta: Word64)
    requires Sound(t) && t.bore != 0 && Consistent(t, a, c)
    requires c.burst + delta < 0x1_0000_0000_0000_0000
    ensures var c' := Tick(t, a, c, delta);
            && Consistent(t, a, c')
            && c' == c.(burst := c.burst + delta, curr := c'.curr, penalty := c'.penalty)
            && c.curr <= c'.curr && c.penalty <= c'.penalty
  {
    hide CalcBurstPenalty, MaskedMax;
    TickKeepsConsistent(t, a, c, delta);
    ChargedCurr(t, c, delta);
    SoundAt(t, c.burst, c.burst + delta);
  }

  /** The granularity of the ticks does not matter: a list of ticks leaves the
      same context as one tick of their sum. */
  lemma {:induction false} TicksCoalesce(t: Tunables, a: Attr, c: Ctx, deltas: seq<Word64>)
    requires Sound(t) && Consistent(t, a, c)
    requires c.burst + SumOf(deltas) < 0x1_0000_0000_0000_0000
    ensures TickAll(t, a, c, deltas) == Tick(t, a, c, SumOf(deltas))
    decreases |deltas|
  {
    hide CalcBurstPenalty, MaskedMax, Consistent, Tick;
    if t.bore == 0 {
      TicksOff(t, a, c, deltas);
    } else if deltas == [] {
      TickOfNothing(t, a, c);
    } else {
      var d, rest := deltas[0], deltas[1..];
      TickOnce(t, a, c, d);
      TicksCoalesce(t, a, Tick(t, a, c, d), rest);
      TicksJoin(t, a, c, d, SumOf(rest));
    }
  }

  lemma {:induction false} TicksOff(t: Tunables, a: Attr, c: Ctx, deltas: seq<Word64>)
    requires t.bore == 0
    ensures TickAll(t, a, c, deltas) == c && forall d: Word64 :: Tick(t, a, c, d) == c
    decreases |deltas|
  {
    if deltas != [] {
      TicksOff(t, a, c, deltas[1..]);
    }
  }

  lemma SameByBurst(t: Tunables, a: Attr, c: Ctx, c': Ctx)
    requires Consistent(t, a, c) && Consistent(t, a, c')
    requires c' == c.(curr := c'.curr, penalty := c'.penalty)
    ensures c == c'
  {
    hide CalcBurstPenalty;
  }

  lemma TickOfNothing(t: Tunables, a: Attr, c: Ctx)
    requires Sound(t) && t.bore != 0 && Consistent(t, a, c)
    ensures Tick(t, a, c, 0) == c
  {
    hide CalcBurstPenalty, Consistent, Tick;
    TickOnce(t, a, c, 0);
    SameByBurst(t, a, c, Tick(t, a, c, 0));
  }

  lemma TicksJoin(t: Tunables, a: Attr, c: Ctx, d: Word64, d': Word64)
    requires Sound(t) && t.bore != 0 && Consistent(t, a, c)
    requires c.burst + d + d' < 0x1_0000_0000_0000_0000
    ensures Tick(t, a, Tick(t, a, c, d), d') == Tick(t, a, c, d + d')
  {
    hide CalcBurstPenalty, Consistent, Tick;
    TickOnce(t, a, c, d);
    TickOnce(t, a, Tick(t, a, c, d), d');
    TickOnce(t, a, c, d + d');
    SameByBurst(t, a, Tick(t, a, c, d + d'), Tick(t, a, Tick(t, a, c, d), d'));
  }

  /** The caller's view of the priority after applying the writes of the ticks. */
  function Replay(t: Tunables, a: Attr, c: Ctx, prio: nat, deltas: seq<Word64>): nat
    decreases |deltas|
  {
    if deltas == [] then prio
    else
      var w := TickWrite(t, a, c, deltas[0]);
      Replay(t, a, Tick(t, a, c, deltas[0]), if w.Some? then w.value else prio, deltas[1..])
  }

  lemma TickWriteTracks(t: Tunables, a: Attr, c: Ctx, delta: Word64)
    ensures var w := TickWrite(t, a, c, delta);
            (if w.Some? then w.value else EffectivePrio(t, a, c.penalty))
            == EffectivePrio(t, a, Tick(t, a, c, delta).penalty)
  {
    hide CalcBurstPenalty, MaskedMax, EffectivePrio;
  }

  lemma PrioMonotone(t: Tunables, a: Attr, p: Word16, p': Word16)
    requires a.NormalPrio() && p <= p'
    ensures EffectivePrio(t, a, p) <= EffectivePrio(t, a, p')
  {
    hide EffectivePrio;
    PrioMeaning(t, a, p);
    PrioMeaning(t, a, p');
  }

  /** Within one burst the penalty and the priority value never fall, and a
      caller that applies every reported priority always holds the current one. */
  lemma {:induction false} BurstOnlyClimbs(t: Tunables, a: Attr, c: Ctx, deltas: seq<Word64>)
    requires Sound(t) && a.NormalPrio() && Consistent(t, a, c)
    requires c.burst + SumOf(deltas) < 0x1_0000_0000_0000_0000
    ensures c.penalty <= TickAll(t, a, c, deltas).penalty
    ensures EffectivePrio(t, a, c.penalty) <= EffectivePrio(t, a, TickAll(t, a, c, deltas).penalty)
    ensures Replay(t, a, c, EffectivePrio(t, a, c.penalty), deltas)
            == EffectivePrio(t, a, TickAll(t, a, c, deltas).penalty)
    decreases |deltas|
  {
    hide EffectivePrio, Consistent, Tick, TickWrite;
    if deltas != [] {
      var c' := Tick(t, a, c, deltas[0]);
      if t.bore == 0 {
        TicksOff(t, a, c, deltas);
      } else {
        TickOnce(t, a, c, deltas[0]);
      }
      TickKeepsConsistent(t, a, c, deltas[0]);
      TickWriteTracks(t, a, c, deltas[0]);
      PrioMonotone(t, a, c.penalty, c'.penalty);
      BurstFits(t, a, c, deltas[0]);
      BurstOnlyClimbs(t, a, c', deltas[1..]);
    }
  }

  lemma BurstFits(t: Tunables, a: Attr, c: Ctx, delta: Word64)
    requires c.burst + delta < 0x1_0000_0000_0000_0000
    ensures Tick(t, a, c, delta).burst <= c.burst + delta
  {
    hide CalcBurstPenalty, MaskedMax;
  }

  /** Ending a burst never raises the penalty or the priority value. */
  lemma RestartOnlyFalls(t: Tunables, a: Attr, c: Ctx)
    requires Sound(t) && t.ShiftDefined() && a.NormalPrio() && Consistent(t, a, c)
    ensures Restart(t, a, c).penalty <= c.penalty
    ensures EffectivePrio(t, a, Restart(t, a, c).penalty) <= EffectivePrio(t, a, c.penalty)
  {
    hide CalcBurstPenalty, Restart, BinarySmooth, EffectivePrio;
    RestartFields(t, a, c);
    PrioMonotone(t, a, Restart(t, a, c).penalty, c.penalty);
  }

  /** `n` bursts of the same length, each ended by going to sleep. */
  function Bursts(t: Tunables, a: Attr, c: Ctx, length: Word64, n: nat): Ctx
    requires t.ShiftDefined()
    decreases n
  {
    if n == 0 then c else Bursts(t, a, Restart(t, a, Tick(t, a, c, length)), length, n - 1)
  }

  /** One burst from rest, ended by going to sleep, is one smoothing step towards
      its penalty, also where the arithmetic wraps. */
  lemma BurstFromRest(t: Tunables, a: Attr, c: Ctx, length: Word64)
    requires t.ShiftDefined() && t.bore != 0 && c.burst == 0 && !c.stop
    ensures CalcBurstPenalty(t, length) <= MAX_BURST_PENALTY
    ensures var c' := Restart(t, a, Tick(t, a, c, length));
            && c'.burst == 0 && !c'.stop && Tick(t, a, c, length).burst == length
            && c'.prev == BinarySmooth(t, CalcBurstPenalty(t, length), c.prev)
  {
    hide CalcBurstPenalty, Restart, BinarySmooth, MaskedMax;
    ChargedCurr(t, c, length);
    RestartFields(t, a, Tick(t, a, c, length));
  }

  /** The smoothing step of the arithmetic layer is what repeated bursts do to a
      task, so its convergence is convergence of the task. */
  lemma {:induction false} BurstsSettle(t: Tunables, a: Attr, c: Ctx, length: Word64, n: nat)
    requires t.ShiftDefined() && t.bore != 0 && c.burst == 0 && !c.stop
    ensures var target := CalcBurstPenalty(t, length);
            target <= MAX_BURST_PENALTY && Bursts(t, a, c, length, n).prev == PrevAfter(t, target, c.prev, n)
    decreases n
  {
    hide CalcBurstPenalty, Restart, BinarySmooth, Tick;
    BurstFromRest(t, a, c, length);
    if n > 0 {
      BurstsSettle(t, a, Restart(t, a, Tick(t, a, c, length)), length, n - 1);
    }
  }

  /** A task whose bursts keep ending at one penalty has that as its previous
      penalty after finitely many sleeps, and for ever; with the default
      smoothness after fourteen. */
  lemma SleepsConverge(t: Tunables, a: Attr, c: Ctx, length: Word64, n: nat)
    requires t.ShiftDefined() && t.bore != 0 && c.burst == 0 && !c.stop
    requires n >= Max(1, CalcBurstPenalty(t, length) - c.prev) || (t.smoothness == 1 && n == 14)
    ensures Bursts(t, a, c, length, n).prev == CalcBurstPenalty(t, length)
  {
    hide CalcBurstPenalty, Bursts, PrevAfter;
    BurstsSettle(t, a, c, length, n);
    var target := CalcBurstPenalty(t, length);
    if n >= Max(1, target - c.prev) {
      SmoothConverges(t, target, c.prev, n);
    } else {
      FourteenBursts(t, target, c.prev);
    }
  }
}
