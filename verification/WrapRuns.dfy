/** Runs of the whole system under arbitrary settings: exactly when the early
    return of the tick leaves stale penalties in reachable states. */
module WrapRuns {
  import opened Words
  import opened Wrappers
  import opened FixedPoint
  import opened BurstState
  import opened BoreSystem

  /** In every state a legal run reaches, the penalties of `p` are those of its burst. */
  ghost predicate AlwaysConsistent<T(!new)>(t: Tunables, s: Sys<T>, p: T)
    requires t.ShiftDefined() && s.Valid() && p in s.ctx
  {
    forall acts: seq<Action<T>> | LegalRun(t, s, acts) ::
      var s' := Run(t, s, acts);
      p in s'.ctx && Consistent(t, s'.attr[p], s'.ctx[p])
  }

  lemma TwoSteps<T>(t: Tunables, s: Sys<T>, first: Action<T>, second: Action<T>, rest: seq<Action<T>>)
    requires t.ShiftDefined() && s.Valid() && Legal(s, first) && Legal(Next(t, s, first), second)
    requires LegalRun(t, Next(t, Next(t, s, first), second), rest)
    ensures LegalRun(t, s, [first, second] + rest)
    ensures Run(t, s, [first, second] + rest) == Run(t, Next(t, Next(t, s, first), second), rest)
  {
    hide Next, Legal, Links.Valid;
    var acts, tail := [first, second] + rest, [second] + rest;
    assert acts[1..] == tail && tail[1..] == rest;
    assert LegalRun(t, Next(t, s, first), tail);
  }

  /** A hook call on one task changes that task's context as the step says. */
  lemma OneTask<T>(t: Tunables, s: Sys<T>, p: T, step: TaskAction)
    requires t.ShiftDefined() && s.Valid() && p in s.ctx && LegalStep(s.ctx[p], step)
    ensures Legal(s, OnTask(p, step))
    ensures var s' := Next(t, s, OnTask(p, step));
            p in s'.ctx && s'.ctx[p] == TaskStep(t, s.attr[p], s.ctx[p], step) && s'.attr == s.attr
  {
    hide TaskStep, Links.Valid;
  }

  /** `n` bursts of length `high`, then one of length `low` that goes on to `high`. */
  function StaleActs<T>(p: T, low: Word64, high: Word64, n: nat): (acts: seq<Action<T>>)
    requires low < high
  {
    if n == 0 then [OnTask(p, DoTick(low)), OnTask(p, DoTick(high - low))] + []
    else [OnTask(p, DoTick(high)), OnTask(p, DoYield)] + StaleActs(p, low, high, n - 1)
  }

  /** Once the previous penalty is that of the longer burst, growing from the
      shorter burst with its larger penalty to the longer one takes the early
      return, and the larger penalty stays. */
  lemma StaleTick(t: Tunables, a: Attr, c: Ctx, low: Word64, high: Word64)
    requires t.bore != 0 && !a.Protected() && c.burst == 0 && !c.stop && low < high
    requires CalcBurstPenalty(t, high) < CalcBurstPenalty(t, low)
    requires c.prev == CalcBurstPenalty(t, high)
    ensures Tick(t, a, c, low).burst == low
    ensures !Consistent(t, a, Tick(t, a, Tick(t, a, c, low), high - low))
  {
    hide CalcBurstPenalty, MaskedMax;
    PenaltyCapped(t, low);
    PenaltyCapped(t, high);
    MaskedMaxMeaning(a, CalcBurstPenalty(t, low), c.prev);
  }

  /** The penalty in the 16 bits it is stored in. */
  function StoredPenalty(t: Tunables, burst: Word64): (p: Word16)
    ensures p == CalcBurstPenalty(t, burst)
  {
    PenaltyCapped(t, burst);
    CalcBurstPenalty(t, burst)
  }

  lemma StaleEnd<T>(t: Tunables, s: Sys<T>, p: T, low: Word64, high: Word64)
    requires t.ShiftDefined() && t.bore != 0 && s.Valid() && p in s.ctx && !s.attr[p].Protected()
    requires s.ctx[p].burst == 0 && !s.ctx[p].stop && low < high
    requires CalcBurstPenalty(t, high) < CalcBurstPenalty(t, low)
    requires s.ctx[p].prev == CalcBurstPenalty(t, high)
    ensures var acts := StaleActs(p, low, high, 0);
            LegalRun(t, s, acts) &&
            var s' := Run(t, s, acts); p in s'.ctx && !Consistent(t, s'.attr[p], s'.ctx[p])
  {
    hide CalcBurstPenalty, Tick, Consistent, Next, Legal, Links.Valid;
    StaleTick(t, s.attr[p], s.ctx[p], low, high);
    OneTask(t, s, p, DoTick(low));
    var s1 := Next(t, s, OnTask(p, DoTick(low)));
    OneTask(t, s1, p, DoTick(high - low));
    TwoSteps(t, s, OnTask(p, DoTick(low)), OnTask(p, DoTick(high - low)), []);
  }

  /** A burst and a yield from rest, as steps of the system. */
  lemma BurstAndYield<T>(t: Tunables, s: Sys<T>, p: T, length: Word64) returns (s': Sys<T>)
    requires t.ShiftDefined() && t.bore != 0 && s.Valid() && p in s.ctx
    requires s.ctx[p].burst == 0 && !s.ctx[p].stop
    ensures Legal(s, OnTask(p, DoTick(length)))
    ensures var s1 := Next(t, s, OnTask(p, DoTick(length)));
            Legal(s1, OnTask(p, DoYield)) && s' == Next(t, s1, OnTask(p, DoYield))
    ensures s'.Valid() && p in s'.ctx && s'.attr == s.attr
    ensures s'.ctx[p].burst == 0 && !s'.ctx[p].stop && CalcBurstPenalty(t, length) <= MAX_BURST_PENALTY
    ensures s'.ctx[p].prev == BinarySmooth(t, CalcBurstPenalty(t, length), s.ctx[p].prev)
  {
    hide CalcBurstPenalty, BinarySmooth, Tick, Restart, Next, Legal, Links.Valid;
    BurstFromRest(t, s.attr[p], s.ctx[p], length);
    OneTask(t, s, p, DoTick(length));
    var s1 := Next(t, s, OnTask(p, DoTick(length)));
    OneTask(t, s1, p, DoYield);
    s' := Next(t, s1, OnTask(p, DoYield));
  }

  lemma {:induction false} StaleRun<T>(t: Tunables, s: Sys<T>, p: T, low: Word64, high: Word64, n: nat)
    requires t.ShiftDefined() && t.bore != 0 && s.Valid() && p in s.ctx && !s.attr[p].Protected()
    requires s.ctx[p].burst == 0 && !s.ctx[p].stop && low < high
    requires CalcBurstPenalty(t, high) < CalcBurstPenalty(t, low)
    requires PrevAfter(t, StoredPenalty(t, high), s.ctx[p].prev, n) == CalcBurstPenalty(t, high)
    ensures var acts := StaleActs(p, low, high, n);
            LegalRun(t, s, acts) &&
            var s' := Run(t, s, acts); p in s'.ctx && !Consistent(t, s'.attr[p], s'.ctx[p])
    decreases n
  {
    hide CalcBurstPenalty, BinarySmooth, Consistent, Next, Legal, Links.Valid, LegalRun, Run;
    if n == 0 {
      StaleEnd(t, s, p, low, high);
    } else {
      var s' := BurstAndYield(t, s, p, high);
      StaleRun(t, s', p, low, high, n - 1);
      TwoSteps(t, s, OnTask(p, DoTick(high)), OnTask(p, DoYield), StaleActs(p, low, high, n - 1));
    }
  }

  lemma SoundIsConsistent<T>(t: Tunables, s: Sys<T>, p: T, acts: seq<Action<T>>)
    requires Sound(t) && t.ShiftDefined() && Initial(s) && p in s.ctx && LegalRun(t, s, acts)
    ensures var s' := Run(t, s, acts); p in s'.ctx && Consistent(t, s'.attr[p], s'.ctx[p])
  {
    hide CalcBurstPenalty, Consistent, Run, LegalRun, Links.Valid, Sound;
    InitialHolds(t, s);
    RunKeeps(t, s, acts);
    RunNodes(t, s, acts);
  }

  lemma RestIsStale<T(!new)>(t: Tunables, s: Sys<T>, p: T)
    requires t.ShiftDefined() && Initial(s) && p in s.ctx && CalcBurstPenalty(t, 0) != 0
    ensures !AlwaysConsistent(t, s, p)
  {
    hide CalcBurstPenalty, Links.Valid;
    assert LegalRun(t, s, []) && Run(t, s, []) == s;
  }

  lemma StaleIsReached<T(!new)>(t: Tunables, s: Sys<T>, p: T, low: Word64, high: Word64)
    requires t.ShiftDefined() && t.bore != 0 && Initial(s) && p in s.ctx && !s.attr[p].Protected()
    requires low < high && CalcBurstPenalty(t, high) < CalcBurstPenalty(t, low)
    ensures !AlwaysConsistent(t, s, p)
  {
    hide CalcBurstPenalty, Consistent, Run, LegalRun, Links.Valid, PrevAfter;
    PenaltyCapped(t, high);
    SmoothConverges(t, StoredPenalty(t, high), 0, MAX_BURST_PENALTY);
    StaleRun(t, s, p, low, high, MAX_BURST_PENALTY);
    assert LegalRun(t, s, StaleActs(p, low, high, MAX_BURST_PENALTY));
  }

  /** For every setting with the scheduler on, and any task that is not
      protected: no run from the initial state makes its penalties stale exactly
      when the penalty is 0 at rest and monotone in the burst time. */
  lemma ConsistentIffSound<T(!new)>(t: Tunables, s: Sys<T>, p: T)
    requires t.bore != 0 && t.ShiftDefined()
    requires Initial(s) && p in s.ctx && !s.attr[p].Protected()
    ensures AlwaysConsistent(t, s, p) <==> Sound(t)
  {
    hide CalcBurstPenalty, Consistent, Run, LegalRun, Links.Valid;
    if Sound(t) {
      forall acts: seq<Action<T>> | LegalRun(t, s, acts)
        ensures var s' := Run(t, s, acts); p in s'.ctx && Consistent(t, s'.attr[p], s'.ctx[p])
      {
        SoundIsConsistent(t, s, p, acts);
      }
    } else if CalcBurstPenalty(t, 0) != 0 {
      RestIsStale(t, s, p);
    } else {
      var low: Word64, high: Word64 :| low <= high && CalcBurstPenalty(t, low) > CalcBurstPenalty(t, high);
      StaleIsReached(t, s, p, low, high);
    }
  }

  /** The same condition as a check of the settings: over all of them by finitely
      many comparisons, by one product where the scale is moderate, and by the
      wrapped products where it is larger. */
  lemma ConsistentIffChecked<T(!new)>(t: Tunables, s: Sys<T>, p: T)
    requires t.bore != 0 && t.ShiftDefined()
    requires Initial(s) && p in s.ctx && !s.attr[p].Protected()
    ensures AlwaysConsistent(t, s, p) <==> CalcBurstPenalty(t, 0) == 0 && GrowsByStep(t)
    ensures t.offset < OFFSET_LIMIT && ModerateScale(t) ==> (AlwaysConsistent(t, s, p) <==> t.NoWrap())
    ensures 9 <= t.offset < OFFSET_LIMIT && t.scale >= CAPPED_PRODUCT ==>
              (AlwaysConsistent(t, s, p) <==> StaysCapped(t))
  {
    hide CalcBurstPenalty, Links.Valid, AlwaysConsistent, PenaltyIsMonotone, GrowsByStep, StaysCapped;
    ConsistentIffSound(t, s, p);
    MonotoneIffGrowsByStep(t);
    if t.offset < OFFSET_LIMIT {
      PenaltyAtZero(t);
      if ModerateScale(t) {
        MonotoneIffNoWrap(t);
      }
      if 9 <= t.offset && t.scale >= CAPPED_PRODUCT {
        MonotoneIffStaysCapped(t);
      }
    }
  }
}
