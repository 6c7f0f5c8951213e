/** All tasks together: what a fork inherits and from which cache, the steps of
    the scheduler hooks, and what every run keeps. */
module BoreSystem {
  import opened Words
  import opened Wrappers
  import opened FixedPoint
  import opened BurstCache
  import opened TaskTree
  import opened BurstState

  /** The two caches of a context. */
  datatype Slot = Subtree | Group

  function SlotWord(c: Ctx, slot: Slot): Word64 {
    if slot == Subtree then c.subtree else c.group
  }

  function WithSlot(c: Ctx, slot: Slot, word: Word64): Ctx {
    if slot == Subtree then c.(subtree := word) else c.(group := word)
  }

  /** The pointers between tasks: the process tree, and the thread groups. */
  datatype Links<!T(==)> = Links(
    tree: Tree<T>,
    leader: map<T, Option<T>>,
    threads: map<T, seq<T>>)
  {
    predicate Valid() {
      && tree.Valid()
      && leader.Keys == tree.nodes && threads.Keys == tree.nodes
      && (forall p :: p in tree.nodes && leader[p].Some? ==> leader[p].value in tree.nodes)
      && (forall p :: p in tree.nodes ==> forall i :: 0 <= i < |threads[p]| ==> threads[p][i] in tree.nodes)
    }
  }

  /** The tasks of the system, their contexts, and the clock. */
  datatype Sys<!T(==)> = Sys(
    now: Word64,
    links: Links<T>,
    attr: map<T, Attr>,
    ctx: map<T, Ctx>)
  {
    predicate Valid() {
      links.Valid() && attr.Keys == links.tree.nodes && ctx.Keys == links.tree.nodes
    }
  }

  // ------------------------------------------------------------------ inheritance

  /** Whose cache a fork consults, and the tasks a rescan of it goes over. */
  datatype Source<!T> = Source(owner: T, slot: Slot, list: seq<T>)

  function Candidates<T>(attr: map<T, Attr>, ctx: map<T, Ctx>, xs: seq<T>): (cs: seq<Candidate>)
    requires forall x :: x in xs ==> x in attr && x in ctx
    ensures |cs| == |xs|
  {
    seq(|xs|, i requires 0 <= i < |xs| => Candidate(attr[xs[i]].Eligible(), ctx[xs[i]].penalty))
  }

  function ChainEnds<T>(tree: Tree<T>, xs: seq<T>): (es: seq<T>)
    requires tree.Valid() && forall x :: x in xs ==> x in tree.nodes
    ensures |es| == |xs| && forall i :: 0 <= i < |xs| ==> es[i] == Down(tree, xs[i])
    ensures forall e :: e in es ==> e in tree.nodes
  {
    seq(|xs|, i requires 0 <= i < |xs| => Down(tree, xs[i]))
  }

  predicate GoodSource<T>(s: Sys<T>, src: Source<T>)
    requires s.Valid()
  {
    src.owner in s.links.tree.nodes && forall x :: x in src.list ==> x in s.links.tree.nodes
  }

  /** `inherit_from_parent`. */
  function ParentSource<T>(s: Sys<T>, parent: T, cloneParent: bool): (src: Option<Source<T>>)
    requires s.Valid() && parent in s.links.tree.nodes
    ensures src.Some? ==> GoodSource(s, src.value)
  {
    var start := if cloneParent then s.links.tree.parent[parent] else Some(parent);
    if start == None then None else Some(Source(start.value, Subtree, s.links.tree.kids[start.value]))
  }

  /** `inherit_from_ancestor_hub`: the hub's cache, over its children's chain ends. */
  function HubSource<T>(s: Sys<T>, parent: T, cloneParent: bool): (src: Option<Source<T>>)
    requires s.Valid() && parent in s.links.tree.nodes
    ensures src.Some? ==> GoodSource(s, src.value)
  {
    var start := if cloneParent then s.links.tree.parent[parent] else Some(parent);
    if start == None then None
    else
      var hub := Up(s.links.tree, start.value, if cloneParent then 1 else 0);
      Some(Source(hub, Subtree, ChainEnds(s.links.tree, s.links.tree.kids[hub])))
  }

  /** `inherit_from_thread_group`: the leader's cache, over the threads of the group. */
  function GroupSource<T>(s: Sys<T>, p: T): (src: Option<Source<T>>)
    requires s.Valid() && p in s.links.tree.nodes
    ensures src.Some? ==> GoodSource(s, src.value)
  {
    if s.links.leader[p] == None then None
    else Some(Source(s.links.leader[p].value, Group, s.links.threads[s.links.leader[p].value]))
  }

  /** The cache a fork of `p` by `current` consults, if any. */
  function ForkSource<T>(t: Tunables, s: Sys<T>, p: T, current: T): (src: Option<Source<T>>)
    requires s.Valid() && p in s.links.tree.nodes && current in s.links.tree.nodes
    ensures src.Some? ==> GoodSource(s, src.value)
  {
    if s.links.leader[p] == s.links.leader[current] && p != current then GroupSource(s, current)
    else if t.inheritType == 2 then HubSource(s, current, false)
    else if t.inheritType == 1 then ParentSource(s, current, false)
    else None
  }

  /** The word in the source's cache after it was consulted. */
  function ConsultedWord<T>(t: Tunables, s: Sys<T>, src: Source<T>): Word64
    requires s.Valid() && GoodSource(s, src)
  {
    var c := s.ctx[src.owner];
    Consult(t, SlotWord(c, src.slot), c.penalty, Candidates(s.attr, s.ctx, src.list), s.now)
  }

  /** The contexts after a look-up: only the consulted cache may change. */
  function AfterConsult<T>(t: Tunables, s: Sys<T>, src: Option<Source<T>>): (ctx: map<T, Ctx>)
    requires s.Valid() && (src.Some? ==> GoodSource(s, src.value))
    ensures ctx.Keys == s.ctx.Keys
  {
    if src == None then s.ctx
    else
      var owner := src.value.owner;
      s.ctx[owner := WithSlot(s.ctx[owner], src.value.slot, ConsultedWord(t, s, src.value))]
  }

  function Inherited<T>(t: Tunables, s: Sys<T>, src: Option<Source<T>>): Word16
    requires s.Valid() && (src.Some? ==> GoodSource(s, src.value))
  {
    if src == None then 0 else PenaltyOf(ConsultedWord(t, s, src.value))
  }

  /** `probe_bore_task_fork`. */
  function Fork<T>(t: Tunables, s: Sys<T>, p: T, current: T): (ctx: map<T, Ctx>)
    requires s.Valid() && p in s.links.tree.nodes && current in s.links.tree.nodes
    ensures ctx.Keys == s.ctx.Keys
  {
    if t.bore == 0 || !s.attr[p].Eligible() then s.ctx
    else
      var src := ForkSource(t, s, p, current);
      var ctx := AfterConsult(t, s, src);
      ctx[p := ForkCtx(s.attr[p], ctx[p], Inherited(t, s, src))]
  }

  // ----------------------------------------------- what a fork does, case by case

  /** What a scan reads of each task on its list. */
  lemma CandidatesMeaning<T>(s: Sys<T>, xs: seq<T>, i: nat)
    requires s.Valid() && i < |xs| && forall x :: x in xs ==> x in s.attr && x in s.ctx
    ensures var c, a := Candidates(s.attr, s.ctx, xs)[i], s.attr[xs[i]];
            && c.penalty == s.ctx[xs[i]].penalty
            && (c.eligible <==> (a.policy == 0 || a.policy == 3 || a.policy == 5) && !a.idle)
  {
    hide Links.Valid;
  }

  /** A parent's children feed its own subtree cache; with CLONE_PARENT the
      parent's parent takes its place, if there is one. */
  lemma ParentSourceMeaning<T>(s: Sys<T>, parent: T, cloneParent: bool)
    requires s.Valid() && parent in s.links.tree.nodes
    ensures var src, tree := ParentSource(s, parent, cloneParent), s.links.tree;
            && (!cloneParent ==> src == Some(Source(parent, Subtree, tree.kids[parent])))
            && (cloneParent && tree.parent[parent] == None ==> src == None)
            && (cloneParent && tree.parent[parent].Some? ==>
                  var above := tree.parent[parent].value;
                  src.Some? && src.value.owner == above && src.value.slot == Subtree
                  && src.value.list == tree.kids[above])
  {
    hide Tree.Valid;
  }

  /** The hub found from the parent, with no child tolerated on it, or from its own
      parent with one; the chain ends below the hub's children feed its subtree cache. */
  lemma HubSourceMeaning<T>(s: Sys<T>, parent: T, cloneParent: bool)
    requires s.Valid() && parent in s.links.tree.nodes
    ensures var src, tree := HubSource(s, parent, cloneParent), s.links.tree;
            && (src == None <==> cloneParent && tree.parent[parent] == None)
            && (src.Some? ==>
                  var hub := if cloneParent then Up(tree, tree.parent[parent].value, 1) else Up(tree, parent, 0);
                  && src.value.owner == hub && src.value.slot == Subtree
                  && |src.value.list| == |tree.kids[hub]|
                  && forall i :: 0 <= i < |tree.kids[hub]| ==> src.value.list[i] == Down(tree, tree.kids[hub][i]))
  {
    hide Up, Down;
  }

  /** The threads of a group feed the group cache of its leader. */
  lemma GroupSourceMeaning<T>(s: Sys<T>, p: T)
    requires s.Valid() && p in s.links.tree.nodes
    ensures s.links.leader[p] == None ==> GroupSource(s, p) == None
    ensures s.links.leader[p].Some? ==>
              var leader := s.links.leader[p].value;
              GroupSource(s, p) == Some(Source(leader, Group, s.links.threads[leader]))
  {
    hide Tree.Valid;
  }

  /** A new thread of the forking task's group consults the group; otherwise the
      inherit type 2 means the hub, 1 the parent, and any other nothing. */
  lemma ForkSourceMeaning<T>(t: Tunables, s: Sys<T>, p: T, current: T)
    requires s.Valid() && p in s.links.tree.nodes && current in s.links.tree.nodes
    ensures var src := ForkSource(t, s, p, current);
            var sameGroup := s.links.leader[p] == s.links.leader[current] && p != current;
            && (sameGroup ==> src == GroupSource(s, current))
            && (!sameGroup && t.inheritType == 2 ==> src == HubSource(s, current, false))
            && (!sameGroup && t.inheritType == 1 ==> src == ParentSource(s, current, false))
            && (!sameGroup && t.inheritType != 1 && t.inheritType != 2 ==> src == None)
  {
    hide GroupSource, HubSource, ParentSource;
  }

  /** The word a look-up leaves in the cache it consults, and hands out. */
  lemma ConsultedMeaning<T>(t: Tunables, s: Sys<T>, src: Source<T>)
    requires s.Valid() && GoodSource(s, src)
    ensures var own := s.ctx[src.owner];
            var word := if src.slot == Subtree then own.subtree else own.group;
            var age := (s.now - TimestampOf(word) * 0x1_0000) % 0x1_0000_0000_0000_0000;
            var sample := Sample(Candidates(s.attr, s.ctx, src.list));
            var mean := Mean(|sample|, Sum(sample));
            && (age <= t.lifetime ==> ConsultedWord(t, s, src) == word)
            && (age > t.lifetime ==>
                  && TimestampOf(ConsultedWord(t, s, src)) == s.now / 0x1_0000
                  && PenaltyOf(ConsultedWord(t, s, src)) == if mean < own.penalty then own.penalty else mean)
  {
    hide Consult, Sample, Sum, Mean, Candidates, TimestampOf, PenaltyOf, Links.Valid;
    var own := s.ctx[src.owner];
    ConsultMeaning(t, SlotWord(own, src.slot), own.penalty, Candidates(s.attr, s.ctx, src.list), s.now);
  }

  /** With the scheduler off, or for a child of another policy or an idle thread, a
      fork does nothing. */
  lemma ForkIdle<T>(t: Tunables, s: Sys<T>, p: T, current: T)
    requires s.Valid() && p in s.ctx && current in s.ctx
    requires var a := s.attr[p]; t.bore == 0 || a.idle || (a.policy != 0 && a.policy != 3 && a.policy != 5)
    ensures Fork(t, s, p, current) == s.ctx
  {
    hide ForkSource, AfterConsult, Inherited, ForkCtx, Links.Valid;
  }

  /** Otherwise the consulted cache alone changes outside the child, and the child
      starts afresh with the larger of its previous and the inherited penalty. */
  lemma ForkMeaning<T>(t: Tunables, s: Sys<T>, p: T, current: T)
    requires s.Valid() && p in s.ctx && current in s.ctx
    requires var a := s.attr[p]; t.bore != 0 && !a.idle && (a.policy == 0 || a.policy == 3 || a.policy == 5)
    ensures var src, after := ForkSource(t, s, p, current), Fork(t, s, p, current);
            var word := if src.Some? then ConsultedWord(t, s, src.value) else 0;
            var c, c', a := s.ctx[p], after[p], s.attr[p];
            && (forall q :: q in s.ctx && q != p && (src.Some? ==> q != src.value.owner) ==> after[q] == s.ctx[q])
            && (src.Some? && src.value.owner != p ==>
                  var o := src.value.owner;
                  after[o] == if src.value.slot == Subtree then s.ctx[o].(subtree := word)
                              else s.ctx[o].(group := word))
            && c'.burst == 0 && c'.curr == 0 && !c'.stop && !c'.futex
            && c'.prev == (if c.prev < PenaltyOf(word) then PenaltyOf(word) else c.prev)
            && c'.penalty == (if a.kthread || a.staticPrio < 120 then 0 else c'.prev)
            && c'.subtree == (if src.Some? && src.value.owner == p && src.value.slot == Subtree then word else c.subtree)
            && c'.group == (if src.Some? && src.value.owner == p && src.value.slot == Group then word else c.group)
  {
    hide ForkSource, ConsultedWord, ForkCtx, PenaltyOf, Links.Valid, GoodSource;
    ZeroWord();
    var src := ForkSource(t, s, p, current);
    ForkFields(s.attr[p], AfterConsult(t, s, src)[p], Inherited(t, s, src));
  }

  // ------------------------------------------------------------------------ steps

  /** A hook call that concerns one task only. */
  datatype TaskAction = DoTick(delta: Word64) | DoSleep(flags: nat) | DoYield | DoInit

  /** A hook call, or a change the kernel makes between hook calls. */
  datatype Action<!T(==)> =
    | OnTask(p: T, step: TaskAction)
    | DoFork(child: T, current: T)
    | Relink(now: Word64, links: Links<T>)

  /** Ticks do not wrap the burst time. */
  predicate LegalStep(c: Ctx, step: TaskAction) {
    step.DoTick? ==> c.burst + step.delta < 0x1_0000_0000_0000_0000
  }

  /** The clock does not go back, and a change of links leaves a well-formed
      tree over the same pool of tasks. */
  predicate Legal<T>(s: Sys<T>, act: Action<T>)
    requires s.Valid()
  {
    match act
    case OnTask(p, step) => p in s.ctx && LegalStep(s.ctx[p], step)
    case DoFork(p, current) => p in s.ctx && current in s.ctx
    case Relink(now, links) =>
      s.now <= now && links.tree.nodes == s.links.tree.nodes && links.Valid()
  }

  function TaskStep(t: Tunables, a: Attr, c: Ctx, step: TaskAction): Ctx
    requires t.ShiftDefined()
  {
    match step
    case DoTick(delta) => Tick(t, a, c, delta)
    case DoSleep(flags) => Sleep(t, a, c, flags)
    case DoYield => Yield(t, a, c)
    case DoInit => ZERO_CTX
  }

  function Next<T>(t: Tunables, s: Sys<T>, act: Action<T>): (s': Sys<T>)
    requires t.ShiftDefined() && s.Valid() && Legal(s, act)
    ensures s'.Valid() && s'.links.tree.nodes == s.links.tree.nodes && s'.attr == s.attr
    ensures s'.ctx.Keys == s.ctx.Keys
  {
    hide TaskStep, Fork, LegalStep, Links.Valid;
    match act
    case OnTask(p, step) => s.(ctx := s.ctx[p := TaskStep(t, s.attr[p], s.ctx[p], step)])
    case DoFork(p, current) => s.(ctx := Fork(t, s, p, current))
    case Relink(now, links) => s.(now := now, links := links)
  }

  /** A hook call leaves the clock and the links alone. */
  lemma NextFields<T>(t: Tunables, s: Sys<T>, act: Action<T>)
    requires t.ShiftDefined() && s.Valid() && Legal(s, act) && !act.Relink?
    ensures Next(t, s, act).links == s.links && Next(t, s, act).now == s.now
    ensures Next(t, s, act).ctx ==
            match act
            case OnTask(p, step) => s.ctx[p := TaskStep(t, s.attr[p], s.ctx[p], step)]
            case DoFork(p, current) => Fork(t, s, p, current)
  {
    hide TaskStep, Fork, LegalStep, Links.Valid;
  }

  predicate LegalRun<T>(t: Tunables, s: Sys<T>, acts: seq<Action<T>>)
    requires t.ShiftDefined() && s.Valid()
    decreases |acts|
  {
    acts == [] || (Legal(s, acts[0]) && LegalRun(t, Next(t, s, acts[0]), acts[1..]))
  }

  function Run<T>(t: Tunables, s: Sys<T>, acts: seq<Action<T>>): (s': Sys<T>)
    requires t.ShiftDefined() && s.Valid() && LegalRun(t, s, acts)
    ensures s'.Valid() && s'.attr == s.attr
    decreases |acts|
  {
    if acts == [] then s else Run(t, Next(t, s, acts[0]), acts[1..])
  }

  // ------------------------------------------------------------ what every run keeps

  predicate GoodWord(now: Word64, word: Word64) {
    TimestampOf(word) * 0x1_0000 <= now && PenaltyOf(word) <= MAX_BURST_PENALTY
  }

  predicate GoodCtx(t: Tunables, now: Word64, a: Attr, c: Ctx) {
    Consistent(t, a, c) && GoodWord(now, c.subtree) && GoodWord(now, c.group)
  }

  /** Every task is consistent, and every cache holds a penalty within the cap
      and a time in the past, so that expiry never subtracts below zero. */
  predicate Invariant<T>(t: Tunables, s: Sys<T>)
    requires s.Valid()
  {
    forall p :: p in s.ctx ==> GoodCtx(t, s.now, s.attr[p], s.ctx[p])
  }

  /** The state `init_bore_tasks` leaves. */
  predicate Initial<T>(s: Sys<T>) {
    s.Valid() && forall p :: p in s.ctx ==> s.ctx[p] == ZERO_CTX
  }

  lemma ZeroIsGood(t: Tunables, now: Word64, a: Attr)
    requires Sound(t)
    ensures GoodCtx(t, now, a, ZERO_CTX)
  {
    hide Consistent;
    ZeroIsConsistent(t, a);
  }

  lemma InitialHolds<T>(t: Tunables, s: Sys<T>)
    requires Sound(t) && Initial(s)
    ensures Invariant(t, s)
  {
    hide GoodCtx;
    forall p | p in s.ctx
      ensures GoodCtx(t, s.now, s.attr[p], s.ctx[p])
    {
      ZeroIsGood(t, s.now, s.attr[p]);
    }
  }

  function BootTree<T(==)>(root: T, child: T): Tree<T>
    requires root != child
  {
    Tree({root, child}, map[root := None, child := Some(root)],
         map[root := [child], child := []], map[root := 0, child := 1])
  }

  /** A root with one child, as loading the module leaves them. */
  function Boot<T(==)>(root: T, child: T, a: Attr): Sys<T>
    requires root != child
  {
    var links := Links(BootTree(root, child), map[root := Some(root), child := Some(child)],
                       map[root := [root], child := [child]]);
    Sys(0, links, map[root := a, child := a], map[root := ZERO_CTX, child := ZERO_CTX])
  }

  lemma BootTreeIsValid<T>(root: T, child: T)
    requires root != child
    ensures BootTree(root, child).Valid() && BootTree(root, child).Linked()
  {
  }

  lemma BootIsValid<T>(root: T, child: T, a: Attr)
    requires root != child
    ensures Boot(root, child, a).Valid() && Boot(root, child, a).links.tree.Linked()
  {
    hide Tree.Valid, Tree.Linked;
    BootTreeIsValid(root, child);
  }

  lemma ShortRun<T>(t: Tunables, s: Sys<T>, first: Action<T>, second: Action<T>)
    requires t.ShiftDefined() && s.Valid() && Legal(s, first) && second.DoFork?
    requires second.child in s.ctx && second.current in s.ctx
    ensures LegalRun(t, s, [first, second])
  {
    hide Next, Links.Valid, LegalStep;
    var s' := Next(t, s, first);
    assert Legal(s', second);
    assert [second][1..] == [];
    assert LegalRun(t, Next(t, s', second), []);
    assert LegalRun(t, s', [second]);
    assert [first, second][1..] == [second];
  }

  /** The assumptions of the results on runs can be met: this system starts well
      formed and linked, and may tick and fork under the default settings. */
  lemma BootRuns<T>(root: T, child: T, a: Attr)
    requires root != child
    ensures Sound(DEFAULTS) && DEFAULTS.ShiftDefined()
    ensures Initial(Boot(root, child, a)) && Boot(root, child, a).links.tree.Linked()
    ensures LegalRun(DEFAULTS, Boot(root, child, a), [OnTask(root, DoTick(1)), DoFork(child, root)])
  {
    hide Sys.Valid, Tree.Valid, Tree.Linked, LegalRun;
    BootIsValid(root, child, a);
    NoWrapIsSound(DEFAULTS);
    ShortRun(DEFAULTS, Boot(root, child, a), OnTask(root, DoTick(1)), DoFork(child, root));
  }

  lemma CandidatesAtMost<T>(s: Sys<T>, xs: seq<T>, bound: nat)
    requires s.Valid() && forall x :: x in xs ==> x in s.links.tree.nodes
    requires forall p :: p in s.ctx ==> s.ctx[p].penalty <= bound
    ensures var cs := Candidates(s.attr, s.ctx, xs);
            forall i :: 0 <= i < |cs| ==> cs[i].penalty <= bound
  {
  }

  /** A look-up hands out no more than the bound, and so does the cache afterwards. */
  lemma ConsultedAtMost<T>(t: Tunables, s: Sys<T>, src: Source<T>, bound: nat)
    requires s.Valid() && GoodSource(s, src)
    requires forall p :: p in s.ctx ==> s.ctx[p].penalty <= bound
    requires PenaltyOf(SlotWord(s.ctx[src.owner], src.slot)) <= bound
    ensures PenaltyOf(ConsultedWord(t, s, src)) <= bound
  {
    hide Consult, PenaltyOf, SlotWord, Candidates;
    var c := s.ctx[src.owner];
    CandidatesAtMost(s, src.list, bound);
    ConsultAtMost(t, SlotWord(c, src.slot), c.penalty, Candidates(s.attr, s.ctx, src.list), s.now, bound);
  }

  lemma ConsultedGood<T>(t: Tunables, s: Sys<T>, src: Source<T>)
    requires s.Valid() && GoodSource(s, src)
    requires forall p :: p in s.ctx ==> s.ctx[p].penalty <= MAX_BURST_PENALTY
    requires GoodWord(s.now, SlotWord(s.ctx[src.owner], src.slot))
    ensures GoodWord(s.now, ConsultedWord(t, s, src))
    ensures PenaltyOf(ConsultedWord(t, s, src)) <= MAX_BURST_PENALTY
  {
    ConsultedAtMost(t, s, src, MAX_BURST_PENALTY);
    hide Consult, PenaltyOf, TimestampOf, SlotWord, Candidates;
    var c := s.ctx[src.owner];
    ConsultTime(t, SlotWord(c, src.slot), c.penalty, Candidates(s.attr, s.ctx, src.list), s.now);
  }

  lemma SlotIsGood(t: Tunables, now: Word64, a: Attr, c: Ctx, slot: Slot, word: Word64)
    requires GoodCtx(t, now, a, c)
    ensures GoodWord(now, SlotWord(c, slot))
    ensures GoodWord(now, word) ==> GoodCtx(t, now, a, WithSlot(c, slot, word))
  {
    hide CalcBurstPenalty, GoodWord;
  }

  /** After the look-up the system is as good as before. */
  lemma AfterConsultGood<T>(t: Tunables, s: Sys<T>, src: Option<Source<T>>)
    requires s.Valid() && Invariant(t, s) && (src.Some? ==> GoodSource(s, src.value))
    ensures Inherited(t, s, src) <= MAX_BURST_PENALTY
    ensures forall q :: q in s.ctx ==> GoodCtx(t, s.now, s.attr[q], AfterConsult(t, s, src)[q])
  {
    hide ConsultedWord, GoodCtx, GoodWord, WithSlot, SlotWord, Links.Valid;
    if src.Some? {
      PenaltiesCapped(t, s);
      var owner, slot := src.value.owner, src.value.slot;
      var word := ConsultedWord(t, s, src.value);
      SlotIsGood(t, s.now, s.attr[owner], s.ctx[owner], slot, word);
      ConsultedGood(t, s, src.value);
    }
  }

  lemma PenaltiesCapped<T>(t: Tunables, s: Sys<T>)
    requires s.Valid() && Invariant(t, s)
    ensures forall q :: q in s.ctx ==> s.ctx[q].penalty <= MAX_BURST_PENALTY
  {
    hide Consistent;
    forall q | q in s.ctx
      ensures s.ctx[q].penalty <= MAX_BURST_PENALTY
    {
      ConsistentBounds(t, s.attr[q], s.ctx[q]);
    }
  }

  lemma ForkIsGood(t: Tunables, now: Word64, a: Attr, c: Ctx, inherited: Word16)
    requires Sound(t) && GoodCtx(t, now, a, c) && inherited <= MAX_BURST_PENALTY
    ensures GoodCtx(t, now, a, ForkCtx(a, c, inherited))
  {
    hide Consistent, ForkCtx, GoodWord;
    ForkKeepsConsistent(t, a, c, inherited);
    ForkFields(a, c, inherited);
  }

  lemma ForkFields(a: Attr, c: Ctx, inherited: Word16)
    ensures var prev := Max(c.prev, inherited);
            ForkCtx(a, c, inherited) ==
            Ctx(0, prev, 0, PenaltyFor(a, 0, prev), false, false, c.subtree, c.group)
  {
    hide MaskedMax;
    MaskedMaxMeaning(a, 0, if c.prev < inherited then inherited else c.prev);
  }

  lemma ForkKeeps<T>(t: Tunables, s: Sys<T>, p: T, current: T)
    requires Sound(t) && t.ShiftDefined() && s.Valid() && Invariant(t, s)
    requires p in s.ctx && current in s.ctx
    ensures forall q :: q in s.ctx ==> GoodCtx(t, s.now, s.attr[q], Fork(t, s, p, current)[q])
  {
    hide ForkSource, AfterConsult, Inherited, GoodCtx, ForkCtx;
    var src := ForkSource(t, s, p, current);
    AfterConsultGood(t, s, src);
    ForkIsGood(t, s.now, s.attr[p], AfterConsult(t, s, src)[p], Inherited(t, s, src));
  }

  lemma TickKeepsCaches(t: Tunables, a: Attr, c: Ctx, delta: Word64)
    ensures Tick(t, a, c, delta).subtree == c.subtree && Tick(t, a, c, delta).group == c.group
  {
    hide CalcBurstPenalty, MaskedMax;
  }

  lemma TaskStepGood(t: Tunables, now: Word64, a: Attr, c: Ctx, step: TaskAction)
    requires Sound(t) && t.ShiftDefined() && GoodCtx(t, now, a, c) && LegalStep(c, step)
    ensures GoodCtx(t, now, a, TaskStep(t, a, c, step))
  {
    hide Consistent, Tick, Restart, GoodWord;
    if step.DoTick? {
      TickKeepsConsistent(t, a, c, step.delta);
      TickKeepsCaches(t, a, c, step.delta);
    } else if step.DoInit? {
      ZeroIsGood(t, now, a);
    } else {
      RestartKeepsConsistent(t, a, c);
      RestartFields(t, a, c);
    }
  }

  lemma LaterIsGood(t: Tunables, now: Word64, now': Word64, a: Attr, c: Ctx)
    requires now <= now' && GoodCtx(t, now, a, c)
    ensures GoodCtx(t, now', a, c)
  {
    hide Consistent;
  }

  lemma RelinkKeeps<T>(t: Tunables, s: Sys<T>, now: Word64)
    requires s.Valid() && Invariant(t, s) && s.now <= now
    ensures forall p :: p in s.ctx ==> GoodCtx(t, now, s.attr[p], s.ctx[p])
  {
    hide GoodCtx;
    forall p | p in s.ctx
      ensures GoodCtx(t, now, s.attr[p], s.ctx[p])
    {
      LaterIsGood(t, s.now, now, s.attr[p], s.ctx[p]);
    }
  }

  /** Every legal step of every hook keeps the invariant. */
  lemma StepKeeps<T>(t: Tunables, s: Sys<T>, act: Action<T>)
    requires Sound(t) && t.ShiftDefined() && s.Valid() && Invariant(t, s) && Legal(s, act)
    ensures Invariant(t, Next(t, s, act))
  {
    hide GoodCtx, TaskStep, Fork, LegalStep, Links.Valid;
    match act
    case OnTask(p, step) => TaskStepGood(t, s.now, s.attr[p], s.ctx[p], step);
    case DoFork(p, current) => ForkKeeps(t, s, p, current);
    case Relink(now, _) => RelinkKeeps(t, s, now);
  }

  /** Every state reachable from the initial one, by any interleaving of hooks
      over any number of tasks while the links change arbitrarily, satisfies
      the invariant. */
  lemma {:induction false} RunKeeps<T>(t: Tunables, s: Sys<T>, acts: seq<Action<T>>)
    requires Sound(t) && t.ShiftDefined() && s.Valid() && Invariant(t, s) && LegalRun(t, s, acts)
    ensures Invariant(t, Run(t, s, acts))
    decreases |acts|
  {
    hide Invariant, Next, Legal, Links.Valid;
    if acts != [] {
      StepKeeps(t, s, acts[0]);
      RunKeeps(t, Next(t, s, acts[0]), acts[1..]);
    }
  }

  /** The reachable states, spelled out for one task. */
  lemma Reachable<T>(t: Tunables, s: Sys<T>, acts: seq<Action<T>>, p: T)
    requires Sound(t) && t.ShiftDefined() && Initial(s) && LegalRun(t, s, acts) && p in s.ctx
    requires s.attr[p].NormalPrio()
    ensures var s' := Run(t, s, acts);
            p in s'.ctx && var c := s'.ctx[p];
            && c.curr == CalcBurstPenalty(t, c.burst)
            && c.penalty == PenaltyFor(s.attr[p], c.curr, c.prev)
            && (s.attr[p].kthread || s.attr[p].staticPrio < 120 ==> c.penalty == 0)
            && (!s.attr[p].kthread && s.attr[p].staticPrio >= 120 ==>
                  c.curr <= c.penalty && c.prev <= c.penalty && (c.penalty == c.curr || c.penalty == c.prev))
            && c.curr <= MAX_BURST_PENALTY && c.prev <= MAX_BURST_PENALTY && c.penalty <= MAX_BURST_PENALTY
            && EffectivePrio(t, s.attr[p], c.penalty) <= 39
            && (s.attr[p].Protected() ==> EffectivePrio(t, s.attr[p], c.penalty) == s.attr[p].staticPrio - 100)
  {
    hide CalcBurstPenalty, EffectivePrio;
    InitialHolds(t, s);
    RunKeeps(t, s, acts);
    RunNodes(t, s, acts);
    ConsistentBounds(t, s.attr[p], Run(t, s, acts).ctx[p]);
  }

  lemma {:induction false} RunNodes<T>(t: Tunables, s: Sys<T>, acts: seq<Action<T>>)
    requires t.ShiftDefined() && s.Valid() && LegalRun(t, s, acts)
    ensures Run(t, s, acts).ctx.Keys == s.ctx.Keys
    decreases |acts|
  {
    if acts != [] {
      RunNodes(t, Next(t, s, acts[0]), acts[1..]);
    }
  }

  // --------------------------------------------------- inheritance creates no penalty

  predicate CtxBounded(c: Ctx, bound: nat) {
    && c.prev <= bound && c.curr <= bound && c.penalty <= bound
    && PenaltyOf(c.subtree) <= bound && PenaltyOf(c.group) <= bound
  }

  predicate Bounded<T>(s: Sys<T>, bound: nat) {
    forall p :: p in s.ctx ==> CtxBounded(s.ctx[p], bound)
  }

  lemma SlotIsBounded(c: Ctx, slot: Slot, word: Word64, bound: nat)
    requires CtxBounded(c, bound)
    ensures PenaltyOf(SlotWord(c, slot)) <= bound && c.penalty <= bound
    ensures PenaltyOf(word) <= bound ==> CtxBounded(WithSlot(c, slot, word), bound)
  {
    hide PenaltyOf;
  }

  lemma AfterConsultBounded<T>(t: Tunables, s: Sys<T>, src: Option<Source<T>>, bound: nat)
    requires s.Valid() && Bounded(s, bound) && (src.Some? ==> GoodSource(s, src.value))
    ensures Inherited(t, s, src) <= bound
    ensures forall q :: q in s.ctx ==> CtxBounded(AfterConsult(t, s, src)[q], bound)
  {
    hide ConsultedWord, CtxBounded, WithSlot, SlotWord, PenaltyOf, Links.Valid;
    if src.Some? {
      var owner := src.value.owner;
      forall q | q in s.ctx ensures s.ctx[q].penalty <= bound {
        SlotIsBounded(s.ctx[q], src.value.slot, 0, bound);
      }
      SlotIsBounded(s.ctx[owner], src.value.slot, ConsultedWord(t, s, src.value), bound);
      ConsultedAtMost(t, s, src.value, bound);
    }
  }

  lemma ForkIsBounded(a: Attr, c: Ctx, inherited: Word16, bound: nat)
    requires CtxBounded(c, bound) && inherited <= bound
    ensures CtxBounded(ForkCtx(a, c, inherited), bound)
  {
    hide ForkCtx, PenaltyOf;
    ForkFields(a, c, inherited);
  }

  lemma ForkBounded<T>(t: Tunables, s: Sys<T>, p: T, current: T, bound: nat)
    requires s.Valid() && Bounded(s, bound) && p in s.ctx && current in s.ctx
    ensures forall q :: q in s.ctx ==> CtxBounded(Fork(t, s, p, current)[q], bound)
  {
    hide ForkSource, AfterConsult, Inherited, CtxBounded, ForkCtx;
    var src := ForkSource(t, s, p, current);
    AfterConsultBounded(t, s, src, bound);
    ForkIsBounded(s.attr[p], AfterConsult(t, s, src)[p], Inherited(t, s, src), bound);
  }

  lemma TaskStepBounded(t: Tunables, a: Attr, c: Ctx, step: TaskAction, bound: nat)
    requires t.ShiftDefined() && CtxBounded(c, bound) && !step.DoTick?
    ensures CtxBounded(TaskStep(t, a, c, step), bound)
  {
    hide Restart, BinarySmooth, PenaltyOf;
    RestartFields(t, a, c);
    ZeroWord();
  }

  lemma ZeroWord()
    ensures PenaltyOf(0) == 0
  {
  }

  predicate IsTick<T>(act: Action<T>) {
    act.OnTask? && act.step.DoTick?
  }

  /** Forks, sleeps, yields and initialisation raise no penalty above a bound on
      all the penalties and caches in the system; no assumption on the settings. */
  lemma OnlyTicksRaise<T>(t: Tunables, s: Sys<T>, act: Action<T>, bound: nat)
    requires t.ShiftDefined() && s.Valid() && Legal(s, act) && Bounded(s, bound)
    requires !IsTick(act)
    ensures Bounded(Next(t, s, act), bound)
  {
    hide CtxBounded, TaskStep, Fork, LegalStep, Links.Valid;
    match act
    case OnTask(p, step) => TaskStepBounded(t, s.attr[p], s.ctx[p], step, bound);
    case DoFork(p, current) => ForkBounded(t, s, p, current, bound);
    case Relink(_, _) =>
  }

  predicate TickFree<T>(acts: seq<Action<T>>)
    decreases |acts|
  {
    acts == [] || (!IsTick(acts[0]) && TickFree(acts[1..]))
  }

  /** Hence no run without ticks creates penalty. */
  lemma {:induction false} RunWithoutTicks<T>(t: Tunables, s: Sys<T>, acts: seq<Action<T>>, bound: nat)
    requires t.ShiftDefined() && s.Valid() && LegalRun(t, s, acts) && Bounded(s, bound)
    requires TickFree(acts)
    ensures Bounded(Run(t, s, acts), bound)
    decreases |acts|
  {
    hide Bounded, Next, Legal, IsTick, Links.Valid;
    if acts != [] {
      OnlyTicksRaise(t, s, acts[0], bound);
      RunWithoutTicks(t, Next(t, s, acts[0]), acts[1..], bound);
    }
  }

  // -------------------------------------------------------- the hub caches cohere

  /** Every childless task sampled into a hub's cache consults that same cache
      when it forks, and no task is sampled twice. */
  lemma HubSampleCoheres<T>(s: Sys<T>, current: T, i: nat)
    requires s.Valid() && current in s.links.tree.nodes
    requires var src := HubSource(s, current, false).value;
             i < |src.list| && s.links.tree.kids[src.list[i]] == []
    ensures var src := HubSource(s, current, false).value;
            && (s.links.tree.IsHub(src.owner) ==> HubSource(s, src.list[i], false) == Some(src))
            && (forall j :: 0 <= j < |src.list| && j != i ==> src.list[j] != src.list[i])
  {
    hide Up, Down;
    var hub := Up(s.links.tree, current, 0);
    LeafReturns(s.links.tree, hub, i);
    ChainEndOnce(s.links.tree, hub, i);
  }
}
