/** One cache followed through a run of the whole system: its word changes only by
    the look-ups of forks, so the spacing of rescans proved for one cache holds
    while any number of tasks tick, sleep, fork and are relinked around it. */
module CacheRuns {
  import opened Words
  import opened Wrappers
  import opened FixedPoint
  import opened BurstCache
  import opened BurstState
  import opened BoreSystem

  /** The look-up a step makes in the cache `slot` of `owner`, if it makes one. */
  function LookupOf<T>(t: Tunables, s: Sys<T>, act: Action<T>, owner: T, slot: Slot): Option<Lookup>
    requires s.Valid() && Legal(s, act) && owner in s.ctx
  {
    if !act.DoFork? || t.bore == 0 || !s.attr[act.child].Eligible() then None
    else
      var src := ForkSource(t, s, act.child, act.current);
      if src == None || src.value.owner != owner || src.value.slot != slot then None
      else Some(Lookup(s.now, s.ctx[owner].penalty, Candidates(s.attr, s.ctx, src.value.list)))
  }

  predicate Clears<T>(act: Action<T>, owner: T) {
    act.OnTask? && act.p == owner && act.step.DoInit?
  }

  predicate NeverCleared<T>(acts: seq<Action<T>>, owner: T)
    decreases |acts|
  {
    acts == [] || (!Clears(acts[0], owner) && NeverCleared(acts[1..], owner))
  }

  function Lookups<T>(t: Tunables, s: Sys<T>, acts: seq<Action<T>>, owner: T, slot: Slot): seq<Lookup>
    requires t.ShiftDefined() && s.Valid() && LegalRun(t, s, acts) && owner in s.ctx
    decreases |acts|
  {
    if acts == [] then []
    else
      var l := LookupOf(t, s, acts[0], owner, slot);
      (if l.Some? then [l.value] else []) + Lookups(t, Next(t, s, acts[0]), acts[1..], owner, slot)
  }

  function SlotAfter(t: Tunables, word: Word64, l: Option<Lookup>): Word64 {
    if l == None then word else Consult(t, word, l.value.own, l.value.cs, l.value.now)
  }

  lemma ForkKeepsSlots(a: Attr, c: Ctx, inherited: Word16, slot: Slot)
    ensures SlotWord(ForkCtx(a, c, inherited), slot) == SlotWord(c, slot)
  {
    hide ForkCtx;
    ForkFields(a, c, inherited);
  }

  lemma TaskStepKeepsSlots(t: Tunables, a: Attr, c: Ctx, step: TaskAction, slot: Slot)
    requires t.ShiftDefined() && !step.DoInit?
    ensures SlotWord(TaskStep(t, a, c, step), slot) == SlotWord(c, slot)
  {
    hide Tick, Restart;
    if step.DoTick? {
      TickKeepsCaches(t, a, c, step.delta);
    } else {
      RestartFields(t, a, c);
    }
  }

  lemma ConsultSlot<T>(t: Tunables, s: Sys<T>, src: Option<Source<T>>, owner: T, slot: Slot)
    requires s.Valid() && owner in s.ctx && (src.Some? ==> GoodSource(s, src.value))
    ensures SlotWord(AfterConsult(t, s, src)[owner], slot) ==
            if src.Some? && src.value.owner == owner && src.value.slot == slot
            then ConsultedWord(t, s, src.value) else SlotWord(s.ctx[owner], slot)
  {
    hide ConsultedWord, Links.Valid, GoodSource;
  }

  lemma ForkSlot<T>(t: Tunables, s: Sys<T>, p: T, current: T, owner: T, slot: Slot)
    requires s.Valid() && p in s.ctx && current in s.ctx && owner in s.ctx
    ensures SlotWord(Fork(t, s, p, current)[owner], slot) ==
            SlotAfter(t, SlotWord(s.ctx[owner], slot), LookupOf(t, s, DoFork(p, current), owner, slot))
  {
    hide ForkSource, ForkCtx, AfterConsult, Inherited, Consult, Candidates, Links.Valid;
    if t.bore != 0 && s.attr[p].Eligible() {
      var src := ForkSource(t, s, p, current);
      ConsultSlot(t, s, src, owner, slot);
      ForkKeepsSlots(s.attr[p], AfterConsult(t, s, src)[p], Inherited(t, s, src), slot);
    }
  }

  /** A step changes the word only by its look-up. */
  lemma StepSlot<T>(t: Tunables, s: Sys<T>, act: Action<T>, owner: T, slot: Slot)
    requires t.ShiftDefined() && s.Valid() && Legal(s, act) && owner in s.ctx && !Clears(act, owner)
    ensures SlotWord(Next(t, s, act).ctx[owner], slot) ==
            SlotAfter(t, SlotWord(s.ctx[owner], slot), LookupOf(t, s, act, owner, slot))
    ensures s.now <= Next(t, s, act).now
  {
    hide Fork, TaskStep, SlotWord, LegalStep, Links.Valid;
    match act
    case OnTask(p, step) =>
      if p == owner {
        TaskStepKeepsSlots(t, s.attr[p], s.ctx[p], step, slot);
      }
    case DoFork(p, current) => ForkSlot(t, s, p, current, owner, slot);
    case Relink(_, _) =>
  }

  lemma {:induction false} WordAfterFirst(t: Tunables, word: Word64, l: Lookup, ls: seq<Lookup>)
    ensures WordAfter(t, word, [l] + ls) == WordAfter(t, Consult(t, word, l.own, l.cs, l.now), ls)
    decreases |ls|
  {
    hide Consult;
    var all := [l] + ls;
    if ls == [] {
      assert all[..|all| - 1] == [];
    } else {
      var before := ls[..|ls| - 1];
      assert all[..|all| - 1] == [l] + before;
      WordAfterFirst(t, word, l, before);
    }
  }

  predicate NotBefore(ls: seq<Lookup>, now: Word64) {
    forall i :: 0 <= i < |ls| ==> now <= ls[i].now
  }

  lemma {:induction false} LookupsInOrder<T>(t: Tunables, s: Sys<T>, acts: seq<Action<T>>, owner: T, slot: Slot)
    requires t.ShiftDefined() && s.Valid() && LegalRun(t, s, acts) && owner in s.ctx
    requires NeverCleared(acts, owner)
    ensures var ls := Lookups(t, s, acts, owner, slot); NonDecreasing(ls) && NotBefore(ls, s.now)
    decreases |acts|
  {
    hide Next, Legal, Clears, Links.Valid, SlotWord;
    if acts != [] {
      StepSlot(t, s, acts[0], owner, slot);
      LookupsInOrder(t, Next(t, s, acts[0]), acts[1..], owner, slot);
    }
  }

  /** In every run that does not clear the owner, the cache ends with the word its
      look-ups leave. */
  lemma {:induction false} RunSlot<T>(t: Tunables, s: Sys<T>, acts: seq<Action<T>>, owner: T, slot: Slot)
    requires t.ShiftDefined() && s.Valid() && LegalRun(t, s, acts) && owner in s.ctx
    requires NeverCleared(acts, owner)
    ensures owner in Run(t, s, acts).ctx
    ensures SlotWord(Run(t, s, acts).ctx[owner], slot) ==
            WordAfter(t, SlotWord(s.ctx[owner], slot), Lookups(t, s, acts, owner, slot))
    decreases |acts|
  {
    hide Next, Legal, Clears, Links.Valid, SlotWord, LookupOf, Consult;
    if acts != [] {
      var s' := Next(t, s, acts[0]);
      var l := LookupOf(t, s, acts[0], owner, slot);
      StepSlot(t, s, acts[0], owner, slot);
      RunSlot(t, s', acts[1..], owner, slot);
      var rest := Lookups(t, s', acts[1..], owner, slot);
      if l.Some? {
        WordAfterFirst(t, SlotWord(s.ctx[owner], slot), l.value, rest);
      } else {
        assert [] + rest == rest;
      }
    }
  }

  predicate NotAfter(ls: seq<Lookup>, now: Word64) {
    forall i :: 0 <= i < |ls| ==> ls[i].now <= now
  }

  lemma {:induction false} LookupsBeforeEnd<T>(t: Tunables, s: Sys<T>, acts: seq<Action<T>>, owner: T, slot: Slot)
    requires t.ShiftDefined() && s.Valid() && LegalRun(t, s, acts) && owner in s.ctx
    requires NeverCleared(acts, owner)
    ensures s.now <= Run(t, s, acts).now
    ensures NotAfter(Lookups(t, s, acts, owner, slot), Run(t, s, acts).now)
    decreases |acts|
  {
    hide Next, Legal, Clears, Links.Valid, SlotWord;
    if acts != [] {
      StepSlot(t, s, acts[0], owner, slot);
      LookupsBeforeEnd(t, Next(t, s, acts[0]), acts[1..], owner, slot);
    }
  }

  /** Over every run of the system: the rescans of one cache are spaced, and once
      it was rescanned, an unexpired word at the end is at most one lifetime old. */
  lemma CacheOverRuns<T>(t: Tunables, s: Sys<T>, acts: seq<Action<T>>, owner: T, slot: Slot, now: Word64)
    requires t.ShiftDefined() && s.Valid() && LegalRun(t, s, acts) && owner in s.ctx
    requires NeverCleared(acts, owner) && t.lifetime >= 65535
    requires now >= Run(t, s, acts).now
    ensures owner in Run(t, s, acts).ctx
    ensures var rs := Rescans(t, SlotWord(s.ctx[owner], slot), Lookups(t, s, acts, owner, slot));
            rs != [] ==>
              && rs[|rs| - 1] - rs[0] >= (|rs| - 1) * (t.lifetime - 65534)
              && (!Expired(t, SlotWord(Run(t, s, acts).ctx[owner], slot), now) ==>
                    now - rs[|rs| - 1] <= t.lifetime)
  {
    hide Next, Legal, Links.Valid, SlotWord, Lookups, WordAfter, Run, LegalRun, Expired;
    var word, ls := SlotWord(s.ctx[owner], slot), Lookups(t, s, acts, owner, slot);
    LookupsInOrder(t, s, acts, owner, slot);
    LookupsBeforeEnd(t, s, acts, owner, slot);
    RunSlot(t, s, acts, owner, slot);
    RescansAreSpaced(t, word, ls);
    if Rescans(t, word, ls) != [] && !Expired(t, WordAfter(t, word, ls), now) {
      ServedFresh(t, word, ls, now);
    }
  }
}
