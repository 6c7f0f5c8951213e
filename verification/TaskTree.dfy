/** The process tree as the burst caches walk it: up to the nearest "hub", and
    down from a child through only children. */
module TaskTree {
  import opened Wrappers

  /** `real_parent` and `children` of every task.  `depth` certifies that the
      parent pointers lead to a root, which has no parent or is its own. */
  datatype Tree<!T(==)> = Tree(
    nodes: set<T>,
    parent: map<T, Option<T>>,
    kids: map<T, seq<T>>,
    depth: map<T, nat>)
  {
    predicate Covers() {
      parent.Keys == nodes && kids.Keys == nodes && depth.Keys == nodes
    }

    predicate IsRoot(x: T)
      requires Covers() && x in nodes
    {
      parent[x] == None || parent[x] == Some(x)
    }

    predicate ParentsClimb()
      requires Covers()
    {
      forall x :: x in nodes ==>
        (if IsRoot(x) then depth[x] == 0
         else parent[x].value in nodes && depth[x] == depth[parent[x].value] + 1)
    }

    /** Each list names children of its owner, each once.  Threads that are not
        group leaders have a parent but stand on no list. */
    predicate ListsDescend()
      requires Covers()
    {
      forall x :: x in nodes ==>
        && (forall i :: 0 <= i < |kids[x]| ==>
              kids[x][i] in nodes && parent[kids[x][i]] == Some(x) && kids[x][i] != x)
        && (forall i, j :: 0 <= i < j < |kids[x]| ==> kids[x][i] != kids[x][j])
    }

    predicate Valid() {
      Covers() && ParentsClimb() && ListsDescend()
    }

    /** Every task but a root stands on its parent's list. */
    predicate Linked()
      requires Valid()
    {
      forall x :: x in nodes && !IsRoot(x) ==> x in kids[parent[x].value]
    }

    predicate IsHub(x: T)
      requires Valid() && x in nodes
    {
      IsRoot(x) || |kids[x]| >= 2
    }
  }

  // The kernel's list is circular through its head: position 0 is the head and
  // position i + 1 the i-th entry of a list of length `len`.
  function ListNext(len: nat, pos: nat): nat
    requires pos <= len
  {
    if pos == len then 0 else pos + 1
  }

  /** `count_children_upto2`. */
  function CountUpto2(len: nat): (n: nat)
    ensures n == if len < 2 then len else 2
  {
    var first := ListNext(len, 0);
    var second := ListNext(len, first);
    (if first != 0 then 1 else 0) + (if second != 0 then 1 else 0)
  }

  function ChildCount<T>(t: Tree<T>, x: T): nat
    requires t.Valid() && x in t.nodes
  {
    CountUpto2(|t.kids[x]|)
  }

  /** Where the walk up from `a` stops, tolerating `sole` children on the first node. */
  function Up<T>(t: Tree<T>, a: T, sole: nat): (h: T)
    requires t.Valid() && a in t.nodes
    ensures h in t.nodes
    decreases t.depth[a]
  {
    if !t.IsRoot(a) && ChildCount(t, a) <= sole then Up(t, t.parent[a].value, 1) else a
  }

  /** The nodes the walk up passes and leaves behind. */
  function Passed<T>(t: Tree<T>, a: T, sole: nat): (ps: seq<T>)
    requires t.Valid() && a in t.nodes
    ensures forall i :: 0 <= i < |ps| ==> ps[i] in t.nodes
    decreases t.depth[a]
  {
    if !t.IsRoot(a) && ChildCount(t, a) <= sole then [a] + Passed(t, t.parent[a].value, 1) else []
  }

  ghost function Deeper<T>(t: Tree<T>, x: T): set<T>
    requires t.Valid() && x in t.nodes
  {
    set y | y in t.nodes && t.depth[y] > t.depth[x]
  }

  lemma ChildIsDeeper<T>(t: Tree<T>, x: T, i: nat)
    requires t.Valid() && x in t.nodes && i < |t.kids[x]|
    ensures t.kids[x][i] in t.nodes && !t.IsRoot(t.kids[x][i])
    ensures t.parent[t.kids[x][i]] == Some(x)
    ensures t.depth[t.kids[x][i]] == t.depth[x] + 1
    ensures Deeper(t, t.kids[x][i]) < Deeper(t, x)
  {
    var c := t.kids[x][i];
    assert c in Deeper(t, x) && c !in Deeper(t, c);
  }

  /** The end of the chain of only children that starts at `d`. */
  function Down<T>(t: Tree<T>, d: T): (e: T)
    requires t.Valid() && d in t.nodes
    ensures e in t.nodes && ChildCount(t, e) != 1
    decreases Deeper(t, d)
  {
    if ChildCount(t, d) == 1 then
      ChildIsDeeper(t, d, 0);
      Down(t, t.kids[d][0])
    else d
  }

  /** One step of the walk up. */
  lemma UpStep<T>(t: Tree<T>, a: T, sole: nat)
    requires t.Valid() && a in t.nodes && !t.IsRoot(a) && ChildCount(t, a) <= sole
    ensures t.parent[a].value in t.nodes && t.depth[t.parent[a].value] < t.depth[a]
    ensures Up(t, a, sole) == Up(t, t.parent[a].value, 1)
  {
  }

  lemma UpStops<T>(t: Tree<T>, a: T, sole: nat)
    requires t.Valid() && a in t.nodes && (t.IsRoot(a) || ChildCount(t, a) > sole)
    ensures Up(t, a, sole) == a
  {
  }

  lemma DownStops<T>(t: Tree<T>, d: T)
    requires t.Valid() && d in t.nodes && ChildCount(t, d) != 1
    ensures Down(t, d) == d
  {
  }

  /** One step of the walk down. */
  lemma DownStep<T>(t: Tree<T>, d: T)
    requires t.Valid() && d in t.nodes && ChildCount(t, d) == 1
    ensures t.kids[d][0] in t.nodes && Deeper(t, t.kids[d][0]) < Deeper(t, d)
    ensures Down(t, d) == Down(t, t.kids[d][0])
  {
    ChildIsDeeper(t, d, 0);
  }

  // ------------------------------------------------------- what the walk up finds

  /** A walk that takes at least one step, or starts tolerating one child, stops at a hub. */
  lemma {:induction false} UpStopsAtHub<T>(t: Tree<T>, a: T, sole: nat)
    requires t.Valid() && a in t.nodes && sole <= 1
    ensures var h := Up(t, a, sole); t.IsHub(h) || (h == a && sole == 0 && |t.kids[a]| == 1)
    decreases t.depth[a]
  {
    if !t.IsRoot(a) && ChildCount(t, a) <= sole {
      UpStopsAtHub(t, t.parent[a].value, 1);
    }
  }

  /** Every task the walk leaves behind stands on its parent's list. */
  ghost predicate PathListed<T>(t: Tree<T>, a: T, sole: nat)
    requires t.Valid() && a in t.nodes
    decreases t.depth[a]
  {
    !t.IsRoot(a) && ChildCount(t, a) <= sole ==>
      a in t.kids[t.parent[a].value] && PathListed(t, t.parent[a].value, 1)
  }

  lemma {:induction false} LinkedListsPaths<T>(t: Tree<T>, a: T, sole: nat)
    requires t.Valid() && t.Linked() && a in t.nodes
    ensures PathListed(t, a, sole)
    decreases t.depth[a]
  {
    if !t.IsRoot(a) && ChildCount(t, a) <= sole {
      LinkedListsPaths(t, t.parent[a].value, 1);
    }
  }

  /** On a listed path every ancestor the walk leaves behind has exactly one child. */
  lemma {:induction false} PassedHaveOneChild<T>(t: Tree<T>, a: T, sole: nat, i: nat)
    requires t.Valid() && a in t.nodes && PathListed(t, a, sole) && 0 < i < |Passed(t, a, sole)|
    ensures |t.kids[Passed(t, a, sole)[i]]| == 1
    decreases t.depth[a]
  {
    var p := t.parent[a].value;
    if i == 1 {
      assert a in t.kids[p];
      assert Passed(t, a, sole)[1] == Passed(t, p, 1)[0];
    } else {
      PassedHaveOneChild(t, p, 1, i - 1);
    }
  }

  /** The walk climbs exactly as far as it passes. */
  lemma {:induction false} UpDepth<T>(t: Tree<T>, a: T, sole: nat)
    requires t.Valid() && a in t.nodes
    ensures t.depth[Up(t, a, sole)] + |Passed(t, a, sole)| == t.depth[a]
    decreases t.depth[a]
  {
    if !t.IsRoot(a) && ChildCount(t, a) <= sole {
      UpDepth(t, t.parent[a].value, 1);
    }
  }

  // ------------------------------------------------------ up and down are inverse

  /** The walk up from the end of an only-child chain leaves the chain at its top. */
  lemma {:induction false} ClimbChain<T>(t: Tree<T>, d: T)
    requires t.Valid() && d in t.nodes && !t.IsRoot(d)
    requires t.kids[Down(t, d)] == []
    ensures Up(t, Down(t, d), 0) == Up(t, t.parent[d].value, 1)
    decreases Deeper(t, d)
  {
    if ChildCount(t, d) == 1 {
      ChildIsDeeper(t, d, 0);
      ClimbChain(t, t.kids[d][0]);
    }
  }

  lemma ParentIs<T>(t: Tree<T>, d: T)
    requires t.Valid() && d in t.nodes && !t.IsRoot(d)
    ensures d in t.parent && t.parent[d].Some? && t.parent[d].value in t.nodes
    ensures t.depth.Keys == t.nodes == t.kids.Keys && t.depth[t.parent[d].value] < t.depth[d]
    ensures ChildCount(t, t.parent[d].value) <= 1 || t.IsHub(t.parent[d].value)
    ensures t.IsHub(t.parent[d].value) ==>
              t.IsRoot(t.parent[d].value) || ChildCount(t, t.parent[d].value) > 1
  {
  }

  lemma OnlyChild<T>(t: Tree<T>, p: T, d: T)
    requires t.Valid() && p in t.nodes && d in t.kids[p] && !t.IsHub(p)
    ensures !t.IsRoot(p) && t.kids[p] == [d] && ChildCount(t, p) == 1
  {
    hide Tree.ParentsClimb, Tree.ListsDescend;
    assert |t.kids[p]| == 1;
  }

  lemma PathGoesOn<T>(t: Tree<T>, p: T)
    requires t.Valid() && p in t.nodes && !t.IsRoot(p) && ChildCount(t, p) == 1 && PathListed(t, p, 1)
    ensures t.parent[p].value in t.nodes && p in t.kids[t.parent[p].value]
    ensures PathListed(t, t.parent[p].value, 1)
  {
  }

  lemma LeafPath<T>(t: Tree<T>, e: T)
    requires t.Valid() && e in t.nodes && !t.IsRoot(e) && t.kids[e] == []
    ensures t.parent[e].value in t.nodes && ChildCount(t, e) == 0 && Down(t, e) == e
    ensures Up(t, e, 0) == Up(t, t.parent[e].value, 1)
    ensures PathListed(t, e, 0) ==>
              e in t.kids[t.parent[e].value] && PathListed(t, t.parent[e].value, 1)
  {
  }

  /** Along a listed path the hub is reached through one of its own children, and
      the walk down from that child leads back. */
  lemma {:induction false} ClimbFinds<T>(t: Tree<T>, d: T, e: T) returns (c: T)
    requires t.Valid() && d in t.nodes && !t.IsRoot(d) && Down(t, d) == e
    requires d in t.kids[t.parent[d].value] && PathListed(t, t.parent[d].value, 1)
    ensures c in t.kids[Up(t, t.parent[d].value, 1)] && c in t.nodes && Down(t, c) == e
    decreases t.depth[d]
  {
    hide Tree.Valid, Up, Down, PathListed;
    ParentIs(t, d);
    var p := t.parent[d].value;
    if t.IsHub(p) {
      UpStops(t, p, 1);
      c := d;
    } else {
      OnlyChild(t, p, d);
      UpStep(t, p, 1);
      DownStep(t, p);
      PathGoesOn(t, p);
      c := ClimbFinds(t, p, e);
    }
  }

  /** The path up from the end of an only-child chain is listed if the top of the
      chain and the path above it are. */
  lemma {:induction false} ChainIsListed<T>(t: Tree<T>, d: T)
    requires t.Valid() && d in t.nodes && !t.IsRoot(d) && t.kids[Down(t, d)] == []
    requires d in t.kids[t.parent[d].value] && PathListed(t, t.parent[d].value, 1)
    ensures PathListed(t, Down(t, d), 0)
    decreases Deeper(t, d)
  {
    if ChildCount(t, d) == 1 {
      ChildIsDeeper(t, d, 0);
      ChainIsListed(t, t.kids[d][0]);
    }
  }

  lemma HubChild<T>(t: Tree<T>, h: T, c: T)
    requires t.Valid() && h in t.nodes && c in t.kids[h] && t.IsHub(h)
    ensures c in t.nodes && !t.IsRoot(c) && t.parent[c] == Some(h)
    ensures Up(t, h, 1) == h && PathListed(t, h, 1)
  {
  }

  ghost predicate EndsChainOf<T>(t: Tree<T>, h: T, e: T)
    requires t.Valid() && h in t.nodes
  {
    exists c :: c in t.kids[h] && c in t.nodes && Down(t, c) == e
  }

  /** On every well-formed tree, with threads on no list or without: a leaf e that
      is no root ends a chain below one of a hub h's own children exactly when the
      walk up from e ends at h and passes listed tasks only. */
  lemma UpInvertsDownIff<T>(t: Tree<T>, e: T, h: T)
    requires t.Valid() && e in t.nodes && h in t.nodes && !t.IsRoot(e) && t.kids[e] == []
    ensures t.IsHub(h) && EndsChainOf(t, h, e) <==> Up(t, e, 0) == h && PathListed(t, e, 0)
  {
    hide Tree.Valid, Up, Down, PathListed;
    ParentIs(t, e);
    LeafPath(t, e);
    if Up(t, e, 0) == h && PathListed(t, e, 0) {
      UpStopsAtHub(t, e, 0);
      var c := ClimbFinds(t, e, e);
    }
    if t.IsHub(h) && EndsChainOf(t, h, e) {
      var c :| c in t.kids[h] && c in t.nodes && Down(t, c) == e;
      HubChild(t, h, c);
      ClimbChain(t, c);
      ChainIsListed(t, c);
    }
  }

  /** In particular, where every task but a root is listed: for a leaf e that is
      not a root, the walk up from e ends at h exactly when h is a hub and e is
      the chain end below one of h's own children. */
  lemma UpInvertsDown<T>(t: Tree<T>, e: T, h: T)
    requires t.Valid() && t.Linked()
    requires e in t.nodes && h in t.nodes && !t.IsRoot(e) && t.kids[e] == []
    ensures Up(t, e, 0) == h <==> t.IsHub(h) && EndsChainOf(t, h, e)
  {
    LinkedListsPaths(t, e, 0);
    UpInvertsDownIff(t, e, h);
  }

  /** A root with one listed child, and a thread that only points to it. */
  function WithThread<T(==)>(root: T, child: T, thread: T): Tree<T>
    requires root != child && root != thread && child != thread
  {
    Tree({root, child, thread},
         map[root := None, child := Some(root), thread := Some(root)],
         map[root := [child], child := [], thread := []],
         map[root := 0, child := 1, thread := 1])
  }

  /** There the two walks are not inverse: a fork by the thread consults the root's
      cache, which never samples the thread. */
  lemma ThreadIsNotSampled<T>(root: T, child: T, thread: T)
    requires root != child && root != thread && child != thread
    ensures var t := WithThread(root, child, thread);
            && t.Valid() && !t.IsRoot(thread) && t.kids[thread] == []
            && t.IsHub(root) && Up(t, thread, 0) == root
            && !PathListed(t, thread, 0) && !EndsChainOf(t, root, thread)
  {
    var t := WithThread(root, child, thread);
    UpStops(t, root, 1);
    DownStops(t, child);
  }

  /** A fork with CLONE_PARENT consults the same hub as one without exactly when
      the forking task, if it is no root, has no children of its own. */
  lemma CloneParentAgreesIff<T>(t: Tree<T>, e: T)
    requires t.Valid() && e in t.nodes && !t.IsRoot(e)
    ensures Up(t, e, 0) == Up(t, t.parent[e].value, 1) <==> t.kids[e] == []
  {
    UpDepth(t, t.parent[e].value, 1);
  }

  // ------------------------------------------------------- where the two walks stop


  function AncestorAt<T>(t: Tree<T>, x: T, depth: nat): (a: T)
    requires t.Valid() && x in t.nodes && depth <= t.depth[x]
    ensures a in t.nodes && t.depth[a] == depth
    decreases t.depth[x]
  {
    if t.depth[x] == depth then x else AncestorAt(t, t.parent[x].value, depth)
  }

  lemma {:induction false} ChainAncestor<T>(t: Tree<T>, d: T)
    requires t.Valid() && d in t.nodes
    ensures t.depth[d] <= t.depth[Down(t, d)] && AncestorAt(t, Down(t, d), t.depth[d]) == d
    decreases Deeper(t, d)
  {
    if ChildCount(t, d) == 1 {
      ChildIsDeeper(t, d, 0);
      var k := t.kids[d][0];
      ChainAncestor(t, k);
      AncestorStep(t, Down(t, d), t.depth[k]);
    }
  }

  lemma {:induction false} AncestorStep<T>(t: Tree<T>, x: T, depth: nat)
    requires t.Valid() && x in t.nodes && 0 < depth <= t.depth[x]
    ensures var a := AncestorAt(t, x, depth);
            !t.IsRoot(a) && AncestorAt(t, x, depth - 1) == t.parent[a].value
    decreases t.depth[x]
  {
    if t.depth[x] != depth {
      AncestorStep(t, t.parent[x].value, depth);
    }
  }

  /** The walk up stops at the nearest ancestor, itself included, that is a root or
      has more children than tolerated: `sole` at the start, one from there on. */
  lemma {:induction false} UpMeaning<T>(t: Tree<T>, a: T, sole: nat)
    requires t.Valid() && a in t.nodes && sole <= 1
    ensures var h := Up(t, a, sole);
            && t.depth[h] <= t.depth[a] && AncestorAt(t, a, t.depth[h]) == h
            && (t.IsRoot(h) || |t.kids[h]| > if h == a then sole else 1)
    ensures forall d :: t.depth[Up(t, a, sole)] < d <= t.depth[a] ==>
              var x := AncestorAt(t, a, d);
              !t.IsRoot(x) && |t.kids[x]| <= if x == a then sole else 1
    decreases t.depth[a]
  {
    if !t.IsRoot(a) && ChildCount(t, a) <= sole {
      UpStep(t, a, sole);
      UpMeaning(t, t.parent[a].value, 1);
    } else {
      UpStops(t, a, sole);
    }
  }

  lemma {:induction false} DownPath<T>(t: Tree<T>, d: T, k: nat)
    requires t.Valid() && d in t.nodes && t.depth[d] <= k < t.depth[Down(t, d)]
    ensures |t.kids[AncestorAt(t, Down(t, d), k)]| == 1
    decreases Deeper(t, d)
  {
    if ChildCount(t, d) != 1 {
      DownStops(t, d);
      assert false;
    } else {
      ChainAncestor(t, d);
      if k > t.depth[d] {
        ChildIsDeeper(t, d, 0);
        DownStep(t, d);
        DownPath(t, t.kids[d][0], k);
      }
    }
  }

  /** The walk down stops at the first task, itself included, without exactly one
      child; every task on the way has exactly one. */
  lemma DownMeaning<T>(t: Tree<T>, d: T)
    requires t.Valid() && d in t.nodes
    ensures var e := Down(t, d);
            && t.depth[d] <= t.depth[e] && AncestorAt(t, e, t.depth[d]) == d && |t.kids[e]| != 1
    ensures forall k :: t.depth[d] <= k < t.depth[Down(t, d)] ==> |t.kids[AncestorAt(t, Down(t, d), k)]| == 1
  {
    ChainAncestor(t, d);
    forall k | t.depth[d] <= k < t.depth[Down(t, d)]
      ensures |t.kids[AncestorAt(t, Down(t, d), k)]| == 1
    {
      DownPath(t, d, k);
    }
  }

  // ------------------------------------------------------- no task sampled twice

  /** Different children of one task end different chains, so a refresh of a
      hub's cache never counts a task twice. */
  lemma ChainEndsDiffer<T>(t: Tree<T>, h: T, i: nat, j: nat)
    requires t.Valid() && h in t.nodes && i < j < |t.kids[h]|
    ensures Down(t, t.kids[h][i]) != Down(t, t.kids[h][j])
  {
    ChildIsDeeper(t, h, i);
    ChildIsDeeper(t, h, j);
    ChainAncestor(t, t.kids[h][i]);
    ChainAncestor(t, t.kids[h][j]);
  }

  lemma ChainEndOnce<T>(t: Tree<T>, h: T, i: nat)
    requires t.Valid() && h in t.nodes && i < |t.kids[h]|
    ensures forall j :: 0 <= j < |t.kids[h]| && j != i ==> Down(t, t.kids[h][j]) != Down(t, t.kids[h][i])
  {
    forall j | 0 <= j < |t.kids[h]| && j != i
      ensures Down(t, t.kids[h][j]) != Down(t, t.kids[h][i])
    {
      if i < j {
        ChainEndsDiffer(t, h, i, j);
      } else {
        ChainEndsDiffer(t, h, j, i);
      }
    }
  }

  /** A childless chain end below a hub finds that hub again, linked or not. */
  lemma LeafReturns<T>(t: Tree<T>, h: T, i: nat)
    requires t.Valid() && h in t.nodes && i < |t.kids[h]|
    requires t.kids[Down(t, t.kids[h][i])] == []
    ensures t.IsHub(h) ==> Up(t, Down(t, t.kids[h][i]), 0) == h
  {
    ChildIsDeeper(t, h, i);
    ClimbChain(t, t.kids[h][i]);
  }
}
