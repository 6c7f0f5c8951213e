/** The hooks as the module runs them: contexts updated in place, the reciprocal
    table filled by a loop, list scans and tree walks over linked tasks.  Every
    method is tied to the functions on values of the modules it imports. */
module BoreHooks {
  import opened Words
  import opened Wrappers
  import opened FixedPoint
  import opened BurstCache
  import opened TaskTree
  import opened BurstState
  import opened BoreSystem

  /** `struct bore_ctx`, updated in place. */
  class BoreCtx {
    var burst: Word64
    var prev: Word16
    var curr: Word16
    var penalty: Word16
    var stop: bool
    var futex: bool
    var subtree: Word64
    var group: Word64

    function Value(): Ctx
      reads this
    {
      Ctx(burst, prev, curr, penalty, stop, futex, subtree, group)
    }

    constructor ()
      ensures Value() == ZERO_CTX
    {
      burst, prev, curr, penalty := 0, 0, 0, 0;
      stop, futex, subtree, group := false, false, 0, 0;
    }

    /** `memset` of the whole context. */
    method Clear()
      modifies this
      ensures Value() == ZERO_CTX
    {
      burst, prev, curr, penalty := 0, 0, 0, 0;
      stop, futex, subtree, group := false, false, 0, 0;
    }

    /** `update_penalty`; the result is what it writes through `new_prio`. */
    method Update(t: Tunables, a: Attr) returns (newPrio: Option<nat>)
      modifies this
      ensures Value() == UpdatePenalty(a, old(Value()))
      ensures newPrio == PrioWrite(t, a, old(Value()), Value())
      ensures newPrio == None <==> EffectivePrio(t, a, penalty) == EffectivePrio(t, a, old(penalty))
      ensures newPrio.Some? ==> newPrio.value == EffectivePrio(t, a, penalty)
    {
      hide EffectivePrio, MaskedMax;
      MaskedMaxMeaning(a, curr, prev);
      var prevPrio := EffectivePrio(t, a, penalty);
      penalty := MaskedMax(a, curr, prev);
      var calculated := EffectivePrio(t, a, penalty);
      newPrio := if calculated != prevPrio then Some(calculated) else None;
    }

    /** `restart_burst_bore`. */
    method RestartBurst(t: Tunables, a: Attr) returns (newPrio: Option<nat>)
      requires t.ShiftDefined()
      modifies this
      ensures Value() == Restart(t, a, old(Value()))
      ensures newPrio == PrioWrite(t, a, old(Value()), Value())
      ensures newPrio == None <==> EffectivePrio(t, a, penalty) == EffectivePrio(t, a, old(penalty))
    {
      hide EffectivePrio, MaskedMax, BinarySmooth;
      var newPenalty := BinarySmooth(t, curr, prev);
      prev := U16(newPenalty);
      curr := 0;
      burst := 0;
      newPrio := Update(t, a);
    }

    /** `update_burst_cache` on one of the two caches, given the table. */
    method Store(slot: Slot, lut: array<Word32>, count: nat, total: Word32, now: Word64, ghost cs: seq<Candidate>)
      requires TableReady(lut) && count == |Sample(cs)| && total == Sum(Sample(cs))
      modifies this
      ensures Value() == WithSlot(old(Value()), slot, Refresh(old(penalty), cs, now))
    {
      hide AverageByReciprocal, RefreshPenalty, Sample, Sum;
      var average := AverageByReciprocal(count, total, lut[count]);
      RefreshByReciprocal(penalty, cs, now);
      var word := Pack(now / 0x1_0000, Max(average, penalty));
      if slot == Subtree {
        subtree := word;
      } else {
        group := word;
      }
    }
  }

  ghost predicate TableReady(lut: array<Word32>)
    reads lut
  {
    lut.Length == SAMPLE_LIMIT + 1 && forall i :: 0 <= i < lut.Length ==> lut[i] == Reciprocal(i)
  }

  /** The parts of `task_struct` the module reads.  `depth` is a certificate that
      the parent pointers end. */
  class Task {
    const attr: Attr
    const ctx: BoreCtx
    var realParent: Task?
    var groupLeader: Task?
    var children: seq<Task>
    var threads: seq<Task>
    ghost var depth: nat

    constructor (attr: Attr, ctx: BoreCtx)
      ensures this.attr == attr && this.ctx == ctx
      ensures realParent == null && children == []
    {
      this.attr, this.ctx := attr, ctx;
      realParent, groupLeader, children, threads, depth := null, null, [], [], 0;
    }
  }

  function Reference(k: Task?): Option<Task> {
    if k == null then None else Some(k)
  }

  ghost function TreeOf(tasks: set<Task>): Tree<Task>
    reads tasks
  {
    Tree(tasks,
         map k | k in tasks :: Reference(k.realParent),
         map k | k in tasks :: k.children,
         map k | k in tasks :: k.depth)
  }

  ghost function LinksOf(tasks: set<Task>): Links<Task>
    reads tasks
  {
    Links(TreeOf(tasks),
          map k | k in tasks :: Reference(k.groupLeader),
          map k | k in tasks :: k.threads)
  }

  function Contexts(tasks: set<Task>): set<BoreCtx> {
    set k | k in tasks :: k.ctx
  }

  function Attrs(tasks: set<Task>): map<Task, Attr> {
    map k | k in tasks :: k.attr
  }

  ghost function CtxMap(tasks: set<Task>): map<Task, Ctx>
    reads Contexts(tasks)
  {
    map k | k in tasks :: k.ctx.Value()
  }

  /** The whole system as a value. */
  ghost function View(tasks: set<Task>, now: Word64): Sys<Task>
    reads tasks, Contexts(tasks)
  {
    Sys(now, LinksOf(tasks), Attrs(tasks), CtxMap(tasks))
  }

  /** `s` is what the links and contexts of `tasks` are now. */
  ghost predicate Shows(tasks: set<Task>, s: Sys<Task>)
    reads tasks, Contexts(tasks)
  {
    s == View(tasks, s.now) && s.Valid()
  }

  /** No two tasks share a context. */
  predicate Separate(tasks: set<Task>) {
    forall a, b :: a in tasks && b in tasks && a != b ==> a.ctx != b.ctx
  }

  lemma ShownTask(tasks: set<Task>, s: Sys<Task>, k: Task)
    requires Shows(tasks, s) && k in s.links.tree.nodes
    ensures s.links.tree.nodes == tasks == s.attr.Keys == s.ctx.Keys == s.links.leader.Keys == s.links.threads.Keys
    ensures s.links.tree.parent.Keys == tasks == s.links.tree.kids.Keys == s.links.tree.depth.Keys
    ensures s.links.tree.Valid()
    ensures s.links.tree.parent[k] == Reference(k.realParent) && s.links.tree.kids[k] == k.children
    ensures s.links.leader[k] == Reference(k.groupLeader) && s.links.threads[k] == k.threads
    ensures s.attr[k] == k.attr && s.ctx[k] == k.ctx.Value()
    ensures k.realParent != null ==> k.realParent in tasks
    ensures k.groupLeader != null ==> k.groupLeader in tasks
    ensures forall i :: 0 <= i < |k.children| ==> k.children[i] in tasks
    ensures forall i :: 0 <= i < |k.threads| ==> k.threads[i] in tasks
  {
    assert s.links.tree.parent[k] == Reference(k.realParent);
    assert s.links.tree.kids[k] == k.children;
    assert s.links.leader[k] == Reference(k.groupLeader);
    assert s.links.threads[k] == k.threads;
  }

  /** What a scan reads of the tasks on a list is their candidates. */
  lemma ShownCandidates(tasks: set<Task>, s: Sys<Task>, list: seq<Task>)
    requires Shows(tasks, s) && forall k :: k in list ==> k in s.attr && k in s.ctx
    ensures forall i :: 0 <= i < |list| ==>
              Candidates(s.attr, s.ctx, list)[i] == Candidate(list[i].attr.Eligible(), list[i].ctx.penalty)
  {
    forall i | 0 <= i < |list|
      ensures Candidates(s.attr, s.ctx, list)[i] == Candidate(list[i].attr.Eligible(), list[i].ctx.penalty)
    {
      assert list[i] in s.attr;
      ShownTask(tasks, s, list[i]);
    }
  }

  /** Changing one context changes the shown state at one task. */
  lemma OneContext(tasks: set<Task>, p: Task, before: map<Task, Ctx>)
    requires p in tasks && before.Keys == tasks
    requires forall k :: k in tasks && k != p ==> k.ctx.Value() == before[k]
    ensures CtxMap(tasks) == before[p := p.ctx.Value()]
  {
  }

  // ---------------------------------------------------------------- the tree walks

  /** The loop of `inherit_from_ancestor_hub` that climbs to the hub. */
  method FindHub(start: Task, soleChildCount: nat, ghost tasks: set<Task>, ghost s: Sys<Task>)
    returns (hub: Task)
    requires Shows(tasks, s) && s.links.tree.Valid() && start in s.links.tree.nodes
    ensures Shows(tasks, s)
    ensures hub in s.links.tree.nodes && hub == Up(s.links.tree, start, soleChildCount)
  {
    var ancestor, sole := start, soleChildCount;
    ghost var tree := s.links.tree;
    hide Shows, Up, Tree.Valid;
    ShownTask(tasks, s, start);
    while ancestor.realParent != ancestor && ancestor.realParent != null
          && CountUpto2(|ancestor.children|) <= sole
      invariant Shows(tasks, s)
      invariant ancestor in tree.nodes && Up(tree, ancestor, sole) == Up(tree, start, soleChildCount)
      decreases tree.depth[ancestor]
    {
      ShownTask(tasks, s, ancestor);
      UpStep(tree, ancestor, sole);
      ancestor := ancestor.realParent;
      sole := 1;
      ShownTask(tasks, s, ancestor);
    }
    ShownTask(tasks, s, ancestor);
    UpStops(tree, ancestor, sole);
    hub := ancestor;
  }

  /** The inner loop of the same function: down a chain of only children. */
  method ChainEnd(start: Task, ghost tasks: set<Task>, ghost s: Sys<Task>) returns (end: Task)
    requires Shows(tasks, s) && s.links.tree.Valid() && start in s.links.tree.nodes
    ensures Shows(tasks, s)
    ensures end in s.links.tree.nodes && end == Down(s.links.tree, start)
  {
    var descendant := start;
    ghost var tree := s.links.tree;
    hide Shows, Down, Tree.Valid, Deeper;
    while CountUpto2(|descendant.children|) == 1
      invariant Shows(tasks, s)
      invariant descendant in tree.nodes && Down(tree, descendant) == Down(tree, start)
      decreases Deeper(tree, descendant)
    {
      ShownTask(tasks, s, descendant);
      DownStep(tree, descendant);
      descendant := descendant.children[0];
    }
    ShownTask(tasks, s, descendant);
    DownStops(tree, descendant);
    end := descendant;
  }

  // ---------------------------------------------------------------- the list scans

  // What a scan has counted and totalled after its first `i` tasks.
  ghost function CountAfter(cs: seq<Candidate>, i: nat): nat
    requires i <= |cs|
  {
    |Eligible(cs[..i])|
  }

  ghost function TotalAfter(cs: seq<Candidate>, i: nat): nat
    requires i <= |cs|
  {
    Sum(Eligible(cs[..i]))
  }

  lemma ScanStart(cs: seq<Candidate>)
    ensures CountAfter(cs, 0) == 0 && TotalAfter(cs, 0) == 0
  {
    assert cs[..0] == [];
  }

  /** What the loop body does with one more task, and that the total does not wrap. */
  lemma ScanOne(cs: seq<Candidate>, i: nat, total: Word32, c: Candidate)
    requires i < |cs| && cs[i] == c
    requires total == TotalAfter(cs, i) && CountAfter(cs, i) < SAMPLE_LIMIT
    ensures CountAfter(cs, i + 1) == CountAfter(cs, i) + if c.eligible then 1 else 0
    ensures TotalAfter(cs, i + 1) == if c.eligible then U32(total + c.penalty) else total
  {
    ScanStep(cs, i);
    SumFits(Eligible(cs[..i]));
  }

  lemma ScanEnd(cs: seq<Candidate>, i: nat)
    requires i <= |cs| && i <= SCAN_LIMIT && CountAfter(cs, i) <= SAMPLE_LIMIT
    requires i == |cs| || i == SCAN_LIMIT || CountAfter(cs, i) == SAMPLE_LIMIT
    ensures CountAfter(cs, i) == |Sample(cs)| && TotalAfter(cs, i) == Sum(Sample(cs))
  {
    ScanDone(cs, i);
  }

  /** The loop over `children` and over the threads of a group: stop at 63
      eligible tasks or after 126 tasks. */
  method ScanTasks(list: seq<Task>, ghost cs: seq<Candidate>) returns (count: nat, total: Word32)
    requires |cs| == |list|
    requires forall i :: 0 <= i < |list| ==>
               cs[i] == Candidate(list[i].attr.Eligible(), list[i].ctx.penalty)
    ensures count == |Sample(cs)| && total == Sum(Sample(cs))
  {
    hide CountAfter, TotalAfter, Sum, Sample, U32;
    var i, scanCount := 0, 0;
    count, total := 0, 0;
    ScanStart(cs);
    while i < |list|
      invariant i <= |list| && i == scanCount <= SCAN_LIMIT
      invariant count == CountAfter(cs, i) <= SAMPLE_LIMIT && total == TotalAfter(cs, i)
    {
      if count >= SAMPLE_LIMIT {
        break;
      }
      if scanCount >= SCAN_LIMIT {
        break;
      }
      scanCount := scanCount + 1;
      var child := list[i];
      ScanOne(cs, i, total, Candidate(child.attr.Eligible(), child.ctx.penalty));
      i := i + 1;
      if child.attr.Eligible() {
        count := count + 1;
        total := U32(total + child.ctx.penalty);
      }
    }
    ScanEnd(cs, i);
  }

  /** The loop over the children of a hub, each followed to its chain end. */
  method ScanChainEnds(list: seq<Task>, ghost tasks: set<Task>, ghost s: Sys<Task>, ghost cs: seq<Candidate>)
    returns (count: nat, total: Word32)
    requires Shows(tasks, s) && s.links.tree.Valid() && forall k :: k in list ==> k in s.links.tree.nodes
    requires |cs| == |list|
    requires forall i :: 0 <= i < |list| ==>
               var end := Down(s.links.tree, list[i]);
               cs[i] == Candidate(end.attr.Eligible(), end.ctx.penalty)
    ensures Shows(tasks, s)
    ensures count == |Sample(cs)| && total == Sum(Sample(cs))
  {
    hide CountAfter, TotalAfter, Sum, Sample, U32, Shows, Down, Tree.Valid;
    var i, scanCount := 0, 0;
    count, total := 0, 0;
    ScanStart(cs);
    while i < |list|
      invariant Shows(tasks, s)
      invariant i <= |list| && i == scanCount <= SCAN_LIMIT
      invariant count == CountAfter(cs, i) <= SAMPLE_LIMIT && total == TotalAfter(cs, i)
    {
      if count >= SAMPLE_LIMIT {
        break;
      }
      if scanCount >= SCAN_LIMIT {
        break;
      }
      scanCount := scanCount + 1;
      var directChild := list[i];
      var descendant := ChainEnd(directChild, tasks, s);
      ScanOne(cs, i, total, Candidate(descendant.attr.Eligible(), descendant.ctx.penalty));
      i := i + 1;
      if descendant.attr.Eligible() {
        count := count + 1;
        total := U32(total + descendant.ctx.penalty);
      }
    }
    ScanEnd(cs, i);
  }

  // ---------------------------------------------------------------------- the module

  class Bore {
    const t: Tunables
    const lut: array<Word32>

    ghost predicate Ready()
      reads lut
    {
      TableReady(lut) && t.ShiftDefined()
    }

    /** `init_bore_reciprocal_lut`. */
    constructor (t: Tunables)
      requires t.ShiftDefined()
      ensures this.t == t && Ready() && fresh(lut)
    {
      this.t := t;
      lut := new Word32[SAMPLE_LIMIT + 1](_ => 0);
      new;
      hide Div;
      var i := 1;
      while i <= SAMPLE_LIMIT
        invariant 1 <= i <= SAMPLE_LIMIT + 1
        invariant forall k :: 0 <= k < i ==> lut[k] == Reciprocal(k)
        modifies lut
      {
        lut[i] := U32(Div(0xFFFF_FFFF + i, i));
        i := i + 1;
      }
    }

    /** The contexts and the penalty after the cache of `src` was consulted in state `s`. */
    ghost predicate Consulted(tasks: set<Task>, s: Sys<Task>, src: Option<Source<Task>>, inherited: Word16)
      requires s.Valid() && (src.Some? ==> GoodSource(s, src.value))
      reads Contexts(tasks)
    {
      CtxMap(tasks) == AfterConsult(t, s, src) && inherited == Inherited(t, s, src)
    }

    lemma NothingConsulted(tasks: set<Task>, s: Sys<Task>)
      requires Shows(tasks, s)
      ensures Consulted(tasks, s, None, 0)
    {
    }

    lemma NotExpired(s: Sys<Task>, src: Source<Task>)
      requires s.Valid() && GoodSource(s, src)
      requires !Expired(t, SlotWord(s.ctx[src.owner], src.slot), s.now)
      ensures AfterConsult(t, s, Some(src)) == s.ctx
      ensures Inherited(t, s, Some(src)) == PenaltyOf(SlotWord(s.ctx[src.owner], src.slot))
    {
      hide Expired, PenaltyOf, Links.Valid, Candidates;
      assert WithSlot(s.ctx[src.owner], src.slot, SlotWord(s.ctx[src.owner], src.slot)) == s.ctx[src.owner];
    }

    lemma WasExpired(s: Sys<Task>, src: Source<Task>, cs: seq<Candidate>)
      requires s.Valid() && GoodSource(s, src) && cs == Candidates(s.attr, s.ctx, src.list)
      requires Expired(t, SlotWord(s.ctx[src.owner], src.slot), s.now)
      ensures var word := Refresh(s.ctx[src.owner].penalty, cs, s.now);
              && AfterConsult(t, s, Some(src)) ==
                 s.ctx[src.owner := WithSlot(s.ctx[src.owner], src.slot, word)]
              && Inherited(t, s, Some(src)) == PenaltyOf(word)
    {
      hide Expired, PenaltyOf, Sys.Valid, Candidates, GoodSource, Refresh;
    }

    /** The end of the three functions: refresh the cache of an expired source. */
    method Refill(ghost src: Source<Task>, owner: Task, slot: Slot, count: nat, total: Word32, now: Word64,
                  ghost tasks: set<Task>, ghost s: Sys<Task>, ghost cs: seq<Candidate>)
      returns (inherited: Word16)
      requires Ready() && Shows(tasks, s) && now == s.now && Separate(tasks)
      requires GoodSource(s, src) && owner == src.owner && slot == src.slot
      requires cs == Candidates(s.attr, s.ctx, src.list)
      requires count == |Sample(cs)| && total == Sum(Sample(cs))
      requires Expired(t, SlotWord(s.ctx[owner], slot), now)
      modifies owner.ctx
      ensures Consulted(tasks, s, Some(src), inherited)
    {
      hide Expired, Refresh, Sample, Sum, Candidates, PenaltyOf, GoodSource, AfterConsult, Inherited;
      WasExpired(s, src, cs);
      ShownTask(tasks, s, owner);
      owner.ctx.Store(slot, lut, count, total, now, cs);
      OneContext(tasks, owner, s.ctx);
      inherited := PenaltyOf(SlotWord(owner.ctx.Value(), slot));
    }

    /** What the three functions return from an unexpired cache. */
    method Reuse(ghost src: Source<Task>, owner: Task, slot: Slot, now: Word64,
                 ghost tasks: set<Task>, ghost s: Sys<Task>)
      returns (inherited: Word16)
      requires Shows(tasks, s) && now == s.now
      requires GoodSource(s, src) && owner == src.owner && slot == src.slot
      requires !Expired(t, SlotWord(s.ctx[owner], slot), now)
      ensures Consulted(tasks, s, Some(src), inherited)
    {
      hide Expired, PenaltyOf, Links.Valid, AfterConsult, Inherited;
      NotExpired(s, src);
      ShownTask(tasks, s, owner);
      ShownContexts(tasks, s);
      inherited := PenaltyOf(SlotWord(owner.ctx.Value(), slot));
    }

    predicate Listed(s: Sys<Task>, list: seq<Task>) {
      forall k :: k in list ==> k in s.attr && k in s.ctx
    }

    lemma ParentSourceIs(tasks: set<Task>, s: Sys<Task>, parent: Task, cloneParent: bool)
      requires Shows(tasks, s) && parent in s.links.tree.nodes
      ensures s.Valid() && s.links.tree.Valid()
      ensures var owner := if cloneParent then parent.realParent else parent;
              && ParentSource(s, parent, cloneParent) ==
                 (if owner == null then None else var o: Task := owner; Some(Source(o, Subtree, o.children)))
              && (owner != null ==> owner in tasks && Listed(s, owner.children))
    {
      ShownTask(tasks, s, parent);
      if cloneParent && parent.realParent != null {
        ShownTask(tasks, s, parent.realParent);
      }
    }

    /** The rescan of a list of tasks: the children of a parent, or the threads of a group. */
    method RescanList(ghost src: Source<Task>, owner: Task, slot: Slot, list: seq<Task>, now: Word64,
                      ghost tasks: set<Task>, ghost s: Sys<Task>)
      returns (inherited: Word16)
      requires Ready() && Shows(tasks, s) && now == s.now && Separate(tasks)
      requires s.Valid() && GoodSource(s, src) && Listed(s, list) && src == Source(owner, slot, list)
      requires Expired(t, SlotWord(s.ctx[owner], slot), now) && owner in tasks
      modifies Contexts(tasks)
      ensures Consulted(tasks, s, Some(src), inherited)
    {
      hide Shows, Sys.Valid, Expired, Sample, Sum, Consulted, Candidates, GoodSource, SlotWord;
      ghost var cs := Candidates(s.attr, s.ctx, list);
      ShownCandidates(tasks, s, list);
      var count, total := ScanTasks(list, cs);
      inherited := Refill(src, owner, slot, count, total, now, tasks, s, cs);
    }

    /** `inherit_from_parent`. */
    method InheritFromParent(parent: Task, cloneParent: bool, now: Word64,
                             ghost tasks: set<Task>, ghost s: Sys<Task>)
      returns (inherited: Word16)
      requires Ready() && Shows(tasks, s) && now == s.now && Separate(tasks)
      requires parent in s.links.tree.nodes
      modifies Contexts(tasks)
      ensures Consulted(tasks, s, ParentSource(s, parent, cloneParent), inherited)
    {
      hide Shows, Sys.Valid, Expired, Consulted, ParentSource, Listed, Separate;
      ParentSourceIs(tasks, s, parent, cloneParent);
      var owner: Task? := parent;
      if cloneParent {
        owner := parent.realParent;
      }
      if owner == null {
        NothingConsulted(tasks, s);
        return 0;
      }
      ghost var src: Source<Task> := ParentSource(s, parent, cloneParent).value;
      ShownTask(tasks, s, owner);
      if Expired(t, owner.ctx.subtree, now) {
        inherited := RescanList(src, owner, Subtree, owner.children, now, tasks, s);
      } else {
        inherited := Reuse(src, owner, Subtree, now, tasks, s);
      }
    }

    lemma ShownIsValid(tasks: set<Task>, s: Sys<Task>)
      requires Shows(tasks, s)
      ensures s.Valid() && s.links.tree.Valid()
      ensures s.attr.Keys == s.ctx.Keys == s.links.tree.nodes
    {
      hide Tree.Valid;
    }

    /** The list a hub's cache is refreshed from. */
    lemma ChainEndsListed(s: Sys<Task>, hub: Task)
      requires s.Valid() && s.links.tree.Valid() && hub in s.links.tree.nodes
      requires s.attr.Keys == s.ctx.Keys == s.links.tree.nodes
      ensures forall k :: k in s.links.tree.kids[hub] ==> k in s.links.tree.nodes
      ensures Listed(s, ChainEnds(s.links.tree, s.links.tree.kids[hub]))
    {
      hide Down, Links.Valid;
    }

    lemma HubSourceIs(tasks: set<Task>, s: Sys<Task>, parent: Task, cloneParent: bool)
      requires Shows(tasks, s) && parent in s.links.tree.nodes
      ensures s.Valid() && s.links.tree.Valid()
      ensures var start := if cloneParent then parent.realParent else parent;
              if start == null then HubSource(s, parent, cloneParent) == None
              else
                && start in s.links.tree.nodes
                && var hub := Up(s.links.tree, start, if cloneParent then 1 else 0);
                   && (forall k :: k in s.links.tree.kids[hub] ==> k in s.links.tree.nodes)
                   && var ends := ChainEnds(s.links.tree, s.links.tree.kids[hub]);
                      Listed(s, ends) && HubSource(s, parent, cloneParent) == Some(Source(hub, Subtree, ends))
    {
      hide Shows, Up, Down, Sys.Valid, Tree.Valid, Listed;
      ShownIsValid(tasks, s);
      ShownTask(tasks, s, parent);
      var start := if cloneParent then parent.realParent else parent;
      if start != null {
        ChainEndsListed(s, Up(s.links.tree, start, if cloneParent then 1 else 0));
      }
    }

    /** The rescan of `inherit_from_ancestor_hub`. */
    method RescanHub(ghost src: Source<Task>, hub: Task, now: Word64, ghost tasks: set<Task>, ghost s: Sys<Task>)
      returns (inherited: Word16)
      requires Ready() && Shows(tasks, s) && now == s.now && Separate(tasks)
      requires s.links.tree.Valid() && hub in s.links.tree.nodes && GoodSource(s, src) && Listed(s, src.list)
      requires hub.children == s.links.tree.kids[hub]
      requires forall k :: k in hub.children ==> k in s.links.tree.nodes
      requires src == Source(hub, Subtree, ChainEnds(s.links.tree, hub.children))
      requires Expired(t, SlotWord(s.ctx[hub], Subtree), now)
      modifies hub.ctx
      ensures Consulted(tasks, s, Some(src), inherited)
    {
      hide Shows, Sys.Valid, Expired, Sample, Sum, Consulted, Candidates, Down, Tree.Valid, GoodSource;
      ghost var ends := ChainEnds(s.links.tree, hub.children);
      ghost var cs := Candidates(s.attr, s.ctx, ends);
      ShownCandidates(tasks, s, ends);
      assert forall i :: 0 <= i < |ends| ==> ends[i] == Down(s.links.tree, hub.children[i]);
      var count, total := ScanChainEnds(hub.children, tasks, s, cs);
      inherited := Refill(src, hub, Subtree, count, total, now, tasks, s, cs);
    }

    /** `inherit_from_ancestor_hub`. */
    method InheritFromAncestorHub(parent: Task, cloneParent: bool, now: Word64,
                                  ghost tasks: set<Task>, ghost s: Sys<Task>)
      returns (inherited: Word16)
      requires Ready() && Shows(tasks, s) && now == s.now && Separate(tasks)
      requires parent in s.links.tree.nodes
      modifies Contexts(tasks)
      ensures Consulted(tasks, s, HubSource(s, parent, cloneParent), inherited)
    {
      hide Shows, Sys.Valid, Expired, Sample, Sum, Consulted, HubSource, Candidates, Up, Down, ChainEnds;
      HubSourceIs(tasks, s, parent, cloneParent);
      var ancestor: Task? := parent;
      var soleChildCount := 0;
      if cloneParent {
        ancestor := parent.realParent;
        soleChildCount := 1;
      }
      if ancestor == null {
        NothingConsulted(tasks, s);
        return 0;
      }
      var hub := FindHub(ancestor, soleChildCount, tasks, s);
      ghost var src: Source<Task> := HubSource(s, parent, cloneParent).value;
      ShownTask(tasks, s, hub);
      if Expired(t, hub.ctx.subtree, now) {
        inherited := RescanHub(src, hub, now, tasks, s);
      } else {
        inherited := Reuse(src, hub, Subtree, now, tasks, s);
      }
    }

    lemma GroupSourceIs(tasks: set<Task>, s: Sys<Task>, p: Task)
      requires Shows(tasks, s) && p in s.links.tree.nodes
      ensures s.Valid() && s.links.tree.Valid()
      ensures GroupSource(s, p) ==
              if p.groupLeader == null then None
              else var leader: Task := p.groupLeader; Some(Source(leader, Group, leader.threads))
      ensures p.groupLeader != null ==> p.groupLeader in tasks && Listed(s, p.groupLeader.threads)
    {
      ShownTask(tasks, s, p);
      if p.groupLeader != null {
        ShownTask(tasks, s, p.groupLeader);
      }
    }

    /** `inherit_from_thread_group`. */
    method InheritFromThreadGroup(p: Task, now: Word64, ghost tasks: set<Task>, ghost s: Sys<Task>)
      returns (inherited: Word16)
      requires Ready() && Shows(tasks, s) && now == s.now && Separate(tasks)
      requires p in s.links.tree.nodes
      modifies Contexts(tasks)
      ensures Consulted(tasks, s, GroupSource(s, p), inherited)
    {
      hide Shows, Sys.Valid, Expired, Consulted, GroupSource, Listed, Separate;
      GroupSourceIs(tasks, s, p);
      var leader := p.groupLeader;
      if leader == null {
        NothingConsulted(tasks, s);
        return 0;
      }
      ghost var src: Source<Task> := GroupSource(s, p).value;
      ShownTask(tasks, s, leader);
      if Expired(t, leader.ctx.group, now) {
        inherited := RescanList(src, leader, Group, leader.threads, now, tasks, s);
      } else {
        inherited := Reuse(src, leader, Group, now, tasks, s);
      }
    }

    // -------------------------------------------------------------------- the hooks

    /** `probe_bore_update_curr`. */
    method UpdateCurr(p: Task?, delta: Word64) returns (newPrio: Option<nat>)
      modifies if p == null then {} else {p.ctx}
      ensures p == null ==> newPrio == None
      ensures p != null ==>
        && p.ctx.Value() == Tick(t, p.attr, old(p.ctx.Value()), delta)
        && newPrio == TickWrite(t, p.attr, old(p.ctx.Value()), delta)
        && (newPrio == None <==>
              EffectivePrio(t, p.attr, p.ctx.penalty) == EffectivePrio(t, p.attr, old(p.ctx.penalty)))
        && (newPrio.Some? ==> newPrio.value == EffectivePrio(t, p.attr, p.ctx.penalty))
    {
      hide CalcBurstPenalty, EffectivePrio, MaskedMax;
      if t.bore == 0 || p == null {
        return None;
      }
      var ctx := p.ctx;
      if ctx.stop {
        return None;
      }
      ctx.burst := U64(ctx.burst + delta);
      ctx.curr := U16(CalcBurstPenalty(t, ctx.burst));
      if ctx.curr <= ctx.prev {
        return None;
      }
      newPrio := ctx.Update(t, p.attr);
    }

    /** `probe_bore_dequeue_task_fair`. */
    method DequeueTask(p: Task?, flags: nat)
      requires Ready()
      modifies if p == null then {} else {p.ctx}
      ensures p != null ==> p.ctx.Value() == Sleep(t, p.attr, old(p.ctx.Value()), flags)
      ensures p != null && (t.bore == 0 || flags % 2 == 0) ==> p.ctx.Value() == old(p.ctx.Value())
      ensures p != null && t.bore != 0 && flags % 2 == 1 ==> Ended(t, p.attr, old(p.ctx.Value()), p.ctx.Value())
    {
      hide BinarySmooth, MaskedMax, And, Ended, Restart, Sleep;
      if p != null {
        SleepMeaning(t, p.attr, p.ctx.Value(), flags);
        SleepCases(t, p.attr, p.ctx.Value(), flags);
      }
      if t.bore == 0 || p == null || And(flags, 1) == 0 {
        return;
      }
      var _ := p.ctx.RestartBurst(t, p.attr);
    }

    /** `probe_bore_yield_task_fair`. */
    method YieldTask(p: Task?)
      requires Ready()
      modifies if p == null then {} else {p.ctx}
      ensures p != null ==> p.ctx.Value() == Yield(t, p.attr, old(p.ctx.Value()))
      ensures p != null && t.bore == 0 ==> p.ctx.Value() == old(p.ctx.Value())
      ensures p != null && t.bore != 0 ==> Ended(t, p.attr, old(p.ctx.Value()), p.ctx.Value())
    {
      hide BinarySmooth, MaskedMax, Ended, Restart;
      if p != null {
        YieldMeaning(t, p.attr, p.ctx.Value());
      }
      if t.bore == 0 || p == null {
        return;
      }
      var _ := p.ctx.RestartBurst(t, p.attr);
    }

    /** `probe_bore_init_entity`. */
    method InitEntity(p: Task?)
      modifies if p == null then {} else {p.ctx}
      ensures p != null ==> p.ctx.Value() == ZERO_CTX == Ctx(0, 0, 0, 0, false, false, 0, 0)
    {
      if p != null {
        p.ctx.Clear();
      }
    }

    /** `probe_bore_set_load_weight`: the priority of an eligible task, which is
        its static one raised by its score and at most 39, replaces the caller's;
        a consistent protected task keeps its static priority. */
    method SetLoadWeight(p: Task?, prio: int) returns (newPrio: int)
      ensures t.bore == 0 || p == null || !p.attr.Eligible() ==> newPrio == prio
      ensures p != null ==>
        (p.attr.Eligible() <==> !p.attr.idle && (p.attr.policy == 0 || p.attr.policy == 3 || p.attr.policy == 5))
      ensures t.bore != 0 && p != null && p.attr.Eligible() ==>
        && newPrio == EffectivePrio(t, p.attr, p.ctx.penalty)
        && (p.attr.NormalPrio() ==>
              0 <= newPrio <= 39 && newPrio == Min(39, p.attr.staticPrio - 100 + p.ctx.penalty / 256))
        && (p.attr.NormalPrio() && p.attr.Protected() && Consistent(t, p.attr, p.ctx.Value()) ==>
              newPrio == p.attr.staticPrio - 100)
    {
      hide EffectivePrio, CalcBurstPenalty;
      if t.bore == 0 || p == null || !p.attr.Eligible() {
        return prio;
      }
      if p.attr.NormalPrio() {
        PrioMeaning(t, p.attr, p.ctx.penalty);
      }
      newPrio := EffectivePrio(t, p.attr, p.ctx.penalty);
    }

    lemma ForkSourceIs(tasks: set<Task>, s: Sys<Task>, p: Task, current: Task)
      requires Shows(tasks, s) && p in s.links.tree.nodes && current in s.links.tree.nodes
      ensures s.Valid()
      ensures ForkSource(t, s, p, current) ==
              if p.groupLeader == current.groupLeader && p != current then GroupSource(s, current)
              else if t.inheritType == 2 then HubSource(s, current, false)
              else if t.inheritType == 1 then ParentSource(s, current, false)
              else None
    {
      hide GroupSource, HubSource, ParentSource;
      ShownTask(tasks, s, p);
      ShownTask(tasks, s, current);
    }

    /** The choice `probe_bore_task_fork` makes between the three functions. */
    method InheritForFork(p: Task, current: Task, now: Word64, ghost tasks: set<Task>, ghost s: Sys<Task>)
      returns (inherited: Word16)
      requires Ready() && Shows(tasks, s) && now == s.now && Separate(tasks)
      requires p in s.links.tree.nodes && current in s.links.tree.nodes
      modifies Contexts(tasks)
      ensures Consulted(tasks, s, ForkSource(t, s, p, current), inherited)
    {
      hide Shows, Sys.Valid, Consulted, GroupSource, HubSource, ParentSource, ForkSource, Separate;
      ForkSourceIs(tasks, s, p, current);
      inherited := 0;
      if p.groupLeader == current.groupLeader && p != current {
        inherited := InheritFromThreadGroup(current, now, tasks, s);
      } else if t.inheritType == 2 {
        inherited := InheritFromAncestorHub(current, false, now, tasks, s);
      } else if t.inheritType == 1 {
        inherited := InheritFromParent(current, false, now, tasks, s);
      } else {
        NothingConsulted(tasks, s);
      }
    }

    lemma ForkedBy(tasks: set<Task>, s: Sys<Task>, p: Task, current: Task,
                   before: map<Task, Ctx>, inherited: Word16)
      requires s.Valid() && s.ctx.Keys == tasks && p in tasks && current in tasks
      requires t.bore != 0 && s.attr[p].Eligible()
      requires before == AfterConsult(t, s, ForkSource(t, s, p, current))
      requires inherited == Inherited(t, s, ForkSource(t, s, p, current))
      ensures Fork(t, s, p, current) == before[p := ForkCtx(s.attr[p], before[p], inherited)]
    {
    }

    /** The end of `probe_bore_task_fork`. */
    method FinishFork(p: Task, inherited: Word16, ghost tasks: set<Task>)
      requires p in tasks && Separate(tasks)
      modifies p.ctx
      ensures CtxMap(tasks) == old(CtxMap(tasks))[p := ForkCtx(p.attr, old(CtxMap(tasks))[p], inherited)]
    {
      hide MaskedMax;
      ghost var before := CtxMap(tasks);
      var ctx := p.ctx;
      if ctx.prev < inherited {
        ctx.prev := inherited;
      }
      ctx.curr := 0;
      ctx.burst := 0;
      ctx.stop := false;
      ctx.futex := false;
      var _ := ctx.Update(t, p.attr);
      OneContext(tasks, p, before);
    }

    /** `probe_bore_task_fork` from its guard on. */
    method ForkEligible(p: Task, current: Task, now: Word64, ghost tasks: set<Task>, ghost s: Sys<Task>)
      requires Ready() && Shows(tasks, s) && now == s.now && Separate(tasks)
      requires current in s.links.tree.nodes && p in s.links.tree.nodes
      requires t.bore != 0 && p.attr.Eligible()
      modifies Contexts(tasks)
      ensures s.Valid() && CtxMap(tasks) == Fork(t, s, p, current)
    {
      hide Shows, Sys.Valid, ForkSource, AfterConsult, Inherited, ForkCtx, Separate, CtxMap;
      ShownTask(tasks, s, p);
      ShownTask(tasks, s, current);
      ShownIsValid(tasks, s);
      var inherited := InheritForFork(p, current, now, tasks, s);
      ForkedBy(tasks, s, p, current, CtxMap(tasks), inherited);
      FinishFork(p, inherited, tasks);
    }

    lemma GuardedFork(tasks: set<Task>, s: Sys<Task>, p: Task, current: Task)
      requires Shows(tasks, s) && current in s.links.tree.nodes && p in s.links.tree.nodes
      requires t.bore == 0 || !p.attr.Eligible()
      ensures s.Valid() && Fork(t, s, p, current) == s.ctx
    {
      ShownIsValid(tasks, s);
      ShownTask(tasks, s, p);
      hide Shows, Tree.Valid, Links.Valid;
      ForkIdle(t, s, p, current);
    }

    /** `probe_bore_task_fork`: all contexts end as the fork step says, and none
        changes with the scheduler off or for a child the scheduler does not handle. */
    method TaskFork(p: Task?, current: Task, now: Word64, ghost tasks: set<Task>, ghost s: Sys<Task>)
      requires Ready() && Shows(tasks, s) && now == s.now && Separate(tasks)
      requires current in s.links.tree.nodes && (p != null ==> p in s.links.tree.nodes)
      modifies Contexts(tasks)
      ensures CtxMap(tasks) == if p == null then s.ctx else Fork(t, s, p, current)
      ensures t.bore == 0 || p == null || p.attr.idle
              || (p.attr.policy != 0 && p.attr.policy != 3 && p.attr.policy != 5) ==>
                CtxMap(tasks) == old(CtxMap(tasks))
    {
      hide Shows, Sys.Valid, Tree.Valid, Links.Valid, Fork, Separate, CtxMap, TableReady;
      ShownContexts(tasks, s);
      ShownIsValid(tasks, s);
      if t.bore == 0 || p == null || !p.attr.Eligible() {
        if p != null {
          GuardedFork(tasks, s, p, current);
        }
        return;
      }
      ForkEligible(p, current, now, tasks, s);
    }

    /** The tracepoints that concern one task. */
    method CallHook(p: Task, step: TaskAction)
      requires Ready()
      modifies p.ctx
      ensures p.ctx.Value() == TaskStep(t, p.attr, old(p.ctx.Value()), step)
    {
      hide Tick, Sleep, Yield;
      match step
      case DoTick(delta) => var _ := UpdateCurr(p, delta);
      case DoSleep(flags) => DequeueTask(p, flags);
      case DoYield => YieldTask(p);
      case DoInit => InitEntity(p);
    }

    /** A hook on one task, seen in the whole system. */
    method TaskHook(p: Task, step: TaskAction, ghost tasks: set<Task>, ghost s: Sys<Task>)
      requires Ready() && Shows(tasks, s) && Separate(tasks) && p in s.links.tree.nodes
      modifies p.ctx
      ensures p in s.ctx && CtxMap(tasks) == s.ctx[p := TaskStep(t, s.attr[p], s.ctx[p], step)]
    {
      hide TaskStep, Sys.Valid, TreeOf;
      ShownNodes(tasks, s);
      CallHook(p, step);
      OneContext(tasks, p, s.ctx);
    }

    /** The tracepoints as one step relation: whatever hook is called, the
        contexts afterwards are exactly those of the next state of the system,
        so what every step keeps holds of the tasks in memory. */
    method Dispatch(act: Action<Task>, now: Word64, ghost tasks: set<Task>, ghost s: Sys<Task>)
      requires Ready() && Shows(tasks, s) && now == s.now && Separate(tasks)
      requires s.Valid() && !act.Relink? && Legal(s, act)
      modifies Contexts(tasks)
      ensures CtxMap(tasks) == Next(t, s, act).ctx && LinksOf(tasks) == Next(t, s, act).links
      ensures Sound(t) && Invariant(t, s) ==> Invariant(t, Next(t, s, act))
    {
      hide Next, TaskStep, Fork, Invariant, Sys.Valid, LegalStep, Links.Valid, Separate;
      hide Shows, CtxMap, LinksOf;
      NextFields(t, s, act);
      ShownNodes(tasks, s);
      if Sound(t) && Invariant(t, s) {
        StepKeeps(t, s, act);
      }
      match act
      case OnTask(p, step) =>
        TaskHook(p, step, tasks, s);
      case DoFork(p, current) =>
        TaskFork(p, current, now, tasks, s);
    }
  }

  lemma ShownNodes(tasks: set<Task>, s: Sys<Task>)
    requires Shows(tasks, s)
    ensures s.links.tree.nodes == tasks == s.ctx.Keys && s.ctx == CtxMap(tasks) && s.attr == Attrs(tasks)
    ensures s.links == LinksOf(tasks)
  {
  }

  lemma ShownContexts(tasks: set<Task>, s: Sys<Task>)
    requires Shows(tasks, s)
    ensures CtxMap(tasks) == s.ctx
  {
  }
}
