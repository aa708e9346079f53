/** What holds on the way down and up of an insertion or removal in the R-tree, and why each step
    keeps it. */
module RTreeUpdates {
  import opened Options
  import opened RTreeGeometry
  import opened RTreeShape
  import opened RTreeSearch

  lemma EmptyIndex(L: Cells, root: RNode, max: nat)
    requires root.isLeaf && root.height == 0 && L == map[root := Cell(null, [], [], None)]
    ensures Quiet(L, root, map[], max)
  {
    assert NodeOK(L, root, null, root);
    assert HomeOK(L, map[], root);
  }

  lemma PendingApart(L: Cells, table: Table, P: seq<RNode>, found: seq<Entry>, wanted: Entry -> bool)
    requires Scanning(L, table, P, found, wanted)
    ensures Apart(L, P) && forall i :: 0 <= i < |P| ==> P[i] in L
  {}

  lemma SharedCount<T>(s: seq<T>, g1: seq<T>, g2: seq<T>)
    requires multiset(g1) + multiset(g2) == multiset(s)
    ensures |g1| + |g2| == |s|
  {
    assert |multiset(s)| == |s| && |multiset(g1)| == |g1| && |multiset(g2)| == |g2|;
  }

  lemma NotOwnChild(L: Cells, root: RNode, n: RNode)
    requires Shape(L, root, null) && n in L
    ensures n !in L[n].kids
  {
    assert NodeOK(L, root, null, n);
  }

  lemma KidsPresent(L: Cells, root: RNode, pend: RNode?)
    requires Shape(L, root, pend)
    ensures forall n, k :: n in L && k in L[n].kids ==> k in L
  {
    forall n, k | n in L && k in L[n].kids
      ensures k in L
    {
      assert NodeOK(L, root, pend, n);
    }
  }

  lemma CountsFrame(L: Cells, M: Cells, root: RNode, max: nat)
    requires SameLinks(L, M) && Sized(L, max, null) && Filled(L, root, null)
    ensures Sized(M, max, null) && Filled(M, root, null)
  {
    assert forall n :: n in M ==> M[n].items == L[n].items && M[n].kids == L[n].kids;
  }

  lemma SplitSettled(L: Cells, root: RNode, max: nat, node: RNode, sib: RNode, M: Cells, S: set<RNode>)
    requires Shape(L, root, null) && Sized(L, max, node) && Filled(L, root, null) && Tight(L, S)
    requires SplitOf(L, node, sib, M) && node in S && ParentsIn(L, node, S) && sib !in S
    requires (forall n :: n in L ==> n in M && M[n].bounds == L[n].bounds) && HalvesFit(M, node, sib, max)
    ensures node in M && sib in M && Shape(M, root, sib)
    ensures var N := Bounded(Bounded(M, node), sib);
      && Shape(N, root, sib) && Sized(N, max, null) && Filled(N, root, null) && Tight(N, S)
      && SplitOf(L, node, sib, N) && Holds(N, node)
  {
    hide Shape, Sized, Filled, Tight, ItemsSplit, KidsSplit, Bounded;
    SplitTight(L, root, node, sib, M, S);
    SplitCounts(L, root, max, node, sib, M);
    var N := Bounded(Bounded(M, node), sib);
    LinksFrame(M, N, root, sib);
    CountsFrame(M, N, root, max);
    assert S - {sib} == S;
    SplitOfFrame(L, node, sib, M, N);
  }

  lemma SplitOfFrame(L: Cells, node: RNode, sib: RNode, M: Cells, N: Cells)
    requires SplitOf(L, node, sib, M) && SameLinks(M, N)
    ensures SplitOf(L, node, sib, N)
  {
    assert forall n :: n in N ==> N[n].items == M[n].items && N[n].kids == M[n].kids && N[n].parent == M[n].parent;
  }

  /** The way up: everything is in order but the bounds of the nodes in S, from node to the root,
      and the link to a sibling just split off from node. */
  ghost predicate Adjusting(L: Cells, root: RNode, table: Table, max: nat, node: RNode, sib: RNode?, S: set<RNode>) {
    Climbing(L, root, table, max, node, sib, S) && Tight(L, S)
  }

  /** The bounds of node are up to date. */
  ghost predicate Adjusted(L: Cells, root: RNode, table: Table, max: nat, node: RNode, sib: RNode?, S: set<RNode>) {
    Climbing(L, root, table, max, node, sib, S) && Tight(L, S - {node})
  }

  ghost predicate Climbing(L: Cells, root: RNode, table: Table, max: nat, node: RNode, sib: RNode?, S: set<RNode>) {
    && Shape(L, root, sib) && TableOK(L, table) && Sized(L, max, null) && Filled(L, root, null)
    && Chain(L, root, S, node)
    && (sib != null ==> sib !in S && sib.height == node.height && Holds(L, node))
    && (root.isLeaf || |L[root].kids| >= 2 || (node == root && sib != null))
  }

  lemma AdjustStart(L: Cells, root: RNode, table: Table, max: nat, node: RNode, sib: RNode?, S: set<RNode>)
    requires Adjusting(L, root, table, max, node, sib, S)
    ensures node in L && (forall k :: k in L[node].kids ==> k in L)
    ensures sib != null ==> sib in L && forall k :: k in L[sib].kids ==> k in L
    ensures var M := if sib == null then Bounded(L, node) else Bounded(Bounded(L, node), sib);
      Adjusted(M, root, table, max, node, sib, S)
  {
    hide CoverOf, ValidEntry, TableOK;
    assert NodeOK(L, root, sib, node);
    forall m | m in L && node in L[m].kids
      ensures m in S
    {
      ChainParent(L, root, sib, S, node, m);
    }
    Rebound(L, node, S);
    var M := Bounded(L, node);
    ClimbFrame(L, M, root, table, max, node, sib, S);
    if sib != null {
      forall m | m in M
        ensures sib !in M[m].kids
      {
        assert NodeOK(M, root, sib, m);
      }
      Rebound(M, sib, S - {node});
      ClimbFrame(M, Bounded(M, sib), root, table, max, node, sib, S);
    }
    KidsPresent(L, root, sib);
  }

  /** Only bounds changed. */
  lemma ClimbFrame(L: Cells, M: Cells, root: RNode, table: Table, max: nat, node: RNode, sib: RNode?, S: set<RNode>)
    requires Climbing(L, root, table, max, node, sib, S) && SameLinks(L, M)
    ensures Climbing(M, root, table, max, node, sib, S)
  {
    hide ValidEntry;
    LinksFrame(L, M, root, sib);
    ContentsFrame(L, M, root, table, max, null, null);
    ChainFrame(L, M, root, S, node);
  }

  lemma AdjustEnd(L: Cells, root: RNode, table: Table, max: nat, S: set<RNode>)
    requires Adjusted(L, root, table, max, root, null, S)
    ensures Quiet(L, root, table, max)
  {
    ChainAtRoot(L, root, null, S);
  }

  lemma ChainAtRoot(L: Cells, root: RNode, pend: RNode?, S: set<RNode>)
    requires Shape(L, root, pend) && Chain(L, root, S, root)
    ensures S == {root}
  {
    forall n | n in S
      ensures n == root
    {
      assert NodeOK(L, root, pend, n);
    }
  }

  lemma SibApart(L: Cells, root: RNode, table: Table, max: nat, node: RNode, sib: RNode, S: set<RNode>)
    requires Adjusted(L, root, table, max, node, sib, S)
    ensures sib != node && sib.height == node.height
  {}

  lemma GrowSettled(L: Cells, root: RNode, table: Table, max: nat, sib: RNode, top: RNode, S: set<RNode>, M: Cells)
    requires Adjusted(L, root, table, max, root, sib, S) && max >= 2
    requires root in L && sib in L && root != sib && top !in L && !top.isLeaf && top.height == root.height + 1
    requires top in M && M == L[root := L[root].(parent := top)][sib := L[sib].(parent := top)][top := M[top]]
    requires M[top].parent == null && M[top].items == [] && M[top].kids == [root, sib]
    ensures Quiet(Bounded(M, top), top, table, max)
  {
    hide CoverOf, ValidEntry;
    ChainAtRoot(L, root, sib, S);
    NewRoot(L, root, sib, top, M);
    TableFrame(L, M, table);
    TightFrame(L, M, root, sib, {top});
    forall m | m in M
      ensures top !in M[m].kids
    {
      assert NodeOK(M, top, null, m);
    }
    Rebound(M, top, {top});
    LinksFrame(M, Bounded(M, top), top, null);
    ContentsFrame(M, Bounded(M, top), top, table, max, null, null);
  }

  /** A sibling was attached to parent, which may be one over the limit. */
  ghost predicate Attached(L: Cells, root: RNode, table: Table, max: nat, parent: RNode, S: set<RNode>) {
    && Shape(L, root, null) && TableOK(L, table) && Sized(L, max, parent) && Filled(L, root, null) && Tight(L, S)
    && Chain(L, root, S, parent) && !parent.isLeaf && (root.isLeaf || |L[root].kids| >= 2)
  }

  lemma AttachSettled(L: Cells, root: RNode, table: Table, max: nat, node: RNode, sib: RNode, S: set<RNode>,
                      parent: RNode, M: Cells)
    requires Adjusted(L, root, table, max, node, sib, S) && node in L && node != root && sib in L && parent in L
    requires L[node].parent == parent && parent.height > node.height
    requires sib != parent
    requires M == L[sib := L[sib].(parent := parent)][parent := L[parent].(kids := L[parent].kids + [sib])]
    ensures Attached(M, root, table, max, parent, S - {node})
  {
    SibApart(L, root, table, max, node, sib, S);
    hide TableOK, Sized, Filled, Tight, Chain, Shape, Holds;
    AttachLinks(L, root, node, sib, S, parent, M);
    AttachContents(L, root, table, max, sib, parent, M);
    AttachTight(L, root, node, sib, S, parent, M);
  }

  lemma AttachLinks(L: Cells, root: RNode, node: RNode, sib: RNode, S: set<RNode>, parent: RNode, M: Cells)
    requires Shape(L, root, sib) && Chain(L, root, S, node) && sib !in S && sib.height == node.height
    requires node in L && node != root && node != sib && sib in L && parent in L && L[node].parent == parent
    requires sib != parent
    requires M == L[sib := L[sib].(parent := parent)][parent := L[parent].(kids := L[parent].kids + [sib])]
    ensures Shape(M, root, null) && Chain(M, root, S - {node}, parent) && !parent.isLeaf
    ensures root in L && |M[root].kids| >= |L[root].kids|
  {
    ParentAbove(L, root, sib, node);
    hide NodeOK, Chain, Shape;
    Attach(L, root, sib, parent, M);
    ChainUp(L, root, sib, S, node);
    AttachChain(L, root, sib, S - {node}, parent, M);
  }

  lemma ParentAbove(L: Cells, root: RNode, pend: RNode?, node: RNode)
    requires Shape(L, root, pend) && node in L && node != root && node != pend
    ensures root in L && L[node].parent != null && L[node].parent in L
    ensures L[node].parent.height == node.height + 1 && !L[node].parent.isLeaf
  {
    assert NodeOK(L, root, pend, node);
    assert NodeOK(L, root, pend, L[node].parent);
  }

  lemma AttachChain(L: Cells, root: RNode, sib: RNode, S: set<RNode>, parent: RNode, M: Cells)
    requires Chain(L, root, S, parent) && sib in L && parent in L && sib !in S && sib != parent
    requires M == L[sib := L[sib].(parent := parent)][parent := L[parent].(kids := L[parent].kids + [sib])]
    ensures Chain(M, root, S, parent)
  {
    ChainFrame(L, M, root, S, parent);
  }

  lemma AttachContents(L: Cells, root: RNode, table: Table, max: nat, sib: RNode, parent: RNode, M: Cells)
    requires TableOK(L, table) && Sized(L, max, null) && Filled(L, root, null) && sib in L && parent in L
    requires sib != parent
    requires M == L[sib := L[sib].(parent := parent)][parent := L[parent].(kids := L[parent].kids + [sib])]
    ensures TableOK(M, table) && Sized(M, max, parent) && Filled(M, root, null)
  {
    TableFrame(L, M, table);
  }

  lemma AttachTight(L: Cells, root: RNode, node: RNode, sib: RNode, S: set<RNode>, parent: RNode, M: Cells)
    requires Shape(L, root, sib) && Tight(L, S - {node}) && Chain(L, root, S, node) && sib in L && parent in L
    requires node in L && node != root && L[node].parent == parent && parent != node && sib != parent
    requires M == L[sib := L[sib].(parent := parent)][parent := L[parent].(kids := L[parent].kids + [sib])]
    ensures Tight(M, S - {node})
  {
    hide Shape, Tight, NodeOK, CoverOf;
    assert parent in S - {node};
    AppendedTight(L, root, sib, S - {node}, parent, M);
  }

  /** A stale node may get another child. */
  lemma AppendedTight(L: Cells, root: RNode, sib: RNode, stale: set<RNode>, parent: RNode, M: Cells)
    requires Shape(L, root, sib) && Tight(L, stale) && sib in L && parent in L && parent in stale && sib != parent
    requires M == L[sib := L[sib].(parent := parent)][parent := L[parent].(kids := L[parent].kids + [sib])]
    ensures Tight(M, stale)
  {
    hide Shape, Tight, NodeOK, CoverOf;
    TightFrame(L, M, root, sib, stale);
  }

  lemma AttachedParts(L: Cells, root: RNode, table: Table, max: nat, parent: RNode, S: set<RNode>)
    requires Attached(L, root, table, max, parent, S)
    ensures parent in L && parent in S && !parent.isLeaf && |L[parent].kids| <= max + 1
    ensures Shape(L, root, null) && Sized(L, max, parent) && Filled(L, root, null) && Tight(L, S)
    ensures ParentsIn(L, parent, S)
    ensures forall k :: k in L[parent].kids ==> k in L && L[k].bounds.Some?
  {
    assert NodeOK(L, root, null, parent);
    forall m | m in L && parent in L[m].kids
      ensures m in S
    {
      ChainParent(L, root, null, S, parent, m);
    }
    forall k | k in L[parent].kids
      ensures k in L && L[k].bounds.Some?
    {
      BoundsKnown(L, root, null, S, k);
    }
  }

  lemma AttachFits(L: Cells, root: RNode, table: Table, max: nat, parent: RNode, S: set<RNode>)
    requires Attached(L, root, table, max, parent, S) && parent in L && |L[parent].kids| <= max
    ensures Adjusting(L, root, table, max, parent, null, S)
  {
    assert NodeOK(L, root, null, parent);
  }

  lemma AttachSplit(L: Cells, root: RNode, table: Table, max: nat, parent: RNode, sib: RNode, M: Cells, S: set<RNode>)
    requires Attached(L, root, table, max, parent, S) && SplitOf(L, parent, sib, M)
    requires Shape(M, root, sib) && Sized(M, max, null) && Filled(M, root, null) && Tight(M, S) && Holds(M, parent)
    ensures Adjusting(M, root, table, max, parent, sib, S)
  {
    hide CoverOf, ValidEntry, Tight, Sized, Filled;
    SplitKids(L, parent, sib, M);
    TableFrame(L, M, table);
    assert NodeOK(L, root, null, parent);
    ChainFrame(L, M, root, S, parent);
  }

  lemma AdjustParent(L: Cells, root: RNode, table: Table, max: nat, node: RNode, sib: RNode?, S: set<RNode>)
    requires Adjusted(L, root, table, max, node, sib, S) && node != root
    ensures node in L && L[node].parent != null && L[node].parent in L
    ensures node.height < L[node].parent.height <= root.height
    ensures sib == null ==> Adjusting(L, root, table, max, L[node].parent, null, S - {node})
  {
    hide Tight, TableOK;
    assert NodeOK(L, root, sib, node);
    assert sib != null ==> sib !in S;
    assert NodeOK(L, root, sib, L[node].parent);
    ChainUp(L, root, sib, S, node);
  }

  ghost predicate NoDupIds(s: seq<Entry>) {
    forall i, j :: 0 <= i < j < |s| ==> s[i].id != s[j].id
  }

  /** The way up of a removal: bounds of the nodes in S, from current to the root, are still to be
      updated, and current may have become empty. */
  ghost predicate Pruning(L: Cells, root: RNode, table: Table, max: nat, current: RNode?, S: set<RNode>) {
    && Shape(L, root, null) && TableOK(L, table) && Sized(L, max, null) && Filled(L, root, current) && Tight(L, S)
    && (if current == null then S == {} else Chain(L, root, S, current))
    && (root.isLeaf || |L[root].kids| >= if current == null || current == root then 1 else 2)
  }

  /** The same with the bounds of current up to date. */
  ghost predicate Pruned(L: Cells, root: RNode, table: Table, max: nat, current: RNode, S: set<RNode>) {
    && Shape(L, root, null) && TableOK(L, table) && Sized(L, max, null) && Filled(L, root, current)
    && Tight(L, S - {current}) && Chain(L, root, S, current)
    && (root.isLeaf || |L[root].kids| >= if current == root then 1 else 2)
  }

  lemma RemoveStart(L: Cells, root: RNode, table: Table, max: nat, id: string)
    requires Quiet(L, root, table, max) && id in table
    ensures var (e, leaf) := table[id];
      && Shape(L, root, null) && leaf in L && leaf.isLeaf && e in L[leaf].items
      && Pruning(L[leaf := L[leaf].(items := Without(L[leaf].items, e))], root, table - {id}, max, leaf,
                 Path(L, root, leaf))
  {
    hide CoverOf, HomeOK;
    var (e, leaf) := table[id];
    assert IdOK(L, table, id);
    assert NodeOK(L, root, null, leaf);
    var S := Path(L, root, leaf);
    PathChain(L, root, leaf);
    DropItem(L, table, leaf, e);
    ItemsShape(L, root, null, leaf, Without(L[leaf].items, e));
    var M := L[leaf := L[leaf].(items := Without(L[leaf].items, e))];
    ChainFrame(L, M, root, S, leaf);
    TightFrame(L, M, root, null, S);
    NoMore(L[leaf].items, e);
  }

  lemma {:induction false} NoMore<T>(s: seq<T>, x: T)
    ensures |Without(s, x)| <= |s|
  {
    if s != [] {
      NoMore(s[1..], x);
    }
  }

  lemma PruneBounds(L: Cells, root: RNode, table: Table, max: nat, current: RNode, S: set<RNode>)
    requires Pruning(L, root, table, max, current, S)
    ensures current in S && current in L && (forall k :: k in L[current].kids ==> k in L)
    ensures if current.isLeaf then L[current].kids == [] else L[current].items == []
    ensures Pruned(Bounded(L, current), root, table, max, current, S)
  {
    hide CoverOf, ValidEntry, TableOK;
    assert NodeOK(L, root, null, current);
    forall m | m in L && current in L[m].kids
      ensures m in S
    {
      ChainParent(L, root, null, S, current, m);
    }
    Rebound(L, current, S);
    var M := Bounded(L, current);
    LinksFrame(L, M, root, null);
    ContentsFrame(L, M, root, table, max, null, current);
    ChainFrame(L, M, root, S, current);
  }

  lemma PruneKeep(L: Cells, root: RNode, table: Table, max: nat, current: RNode, S: set<RNode>)
    requires Pruned(L, root, table, max, current, S)
    requires current == root || Holds(L, current)
    ensures current in L && (L[current].parent != null ==> L[current].parent in L)
    ensures root in L && Pruning(L, root, table, max, L[current].parent, S - {current})
  {
    hide Tight, TableOK;
    assert NodeOK(L, root, null, current);
    if current == root {
      ChainAtRoot(L, root, null, S);
      assert S - {current} == {};
    } else {
      ChainUp(L, root, null, S, current);
    }
  }

  lemma PruneEmpty(L: Cells, root: RNode, table: Table, max: nat, current: RNode, S: set<RNode>)
    requires Pruned(L, root, table, max, current, S) && current != root && current in L && !Holds(L, current)
    ensures var p := L[current].parent;
      && p != null && p in L && p != current && current in L[p].kids
      && Pruning((L - {current})[p := L[p].(kids := Without(L[p].kids, current))], root, table, max, p, S - {current})
  {
    hide CoverOf, ValidEntry;
    var p := L[current].parent;
    var M := (L - {current})[p := L[p].(kids := Without(L[p].kids, current))];
    assert NodeOK(L, root, null, current);
    assert NodeOK(L, root, null, p);
    Prune(L, root, current, M);
    WithoutFacts(L[p].kids, current);
    ChainUp(L, root, null, S, current);
    forall n | n in L && current in L[n].kids
      ensures n == p
    {
      assert NodeOK(L, root, null, n);
    }
    PruneTight(L, S - {current}, current, p, M);
    assert S - {current} - {current} == S - {current};
    ChainFrame(L, M, root, S - {current}, p);
    TableFrame(L, M, table);
  }

  lemma RootKids(L: Cells, root: RNode, table: Table, max: nat)
    requires Pruning(L, root, table, max, null, {})
    ensures root in L && (root.isLeaf ==> L[root].kids == []) && (!root.isLeaf ==> |L[root].kids| >= 1)
    ensures forall k :: k in L[root].kids ==> k in L && k != root && k.height < root.height
  {
    assert NodeOK(L, root, null, root);
  }

  lemma CollapseStep(L: Cells, root: RNode, table: Table, max: nat, kid: RNode, M: Cells)
    requires Pruning(L, root, table, max, null, {}) && !root.isLeaf && root in L && L[root].kids == [kid]
    requires kid in L && kid != root && M == (L - {root})[kid := L[kid].(parent := null)]
    ensures Pruning(M, kid, table, max, null, {})
  {
    hide CoverOf, ValidEntry;
    assert NodeOK(L, root, null, root);
    assert NodeOK(L, root, null, kid);
    Collapse(L, root, kid, M);
    forall n | n in L
      ensures root !in L[n].kids
    {
      assert NodeOK(L, root, null, n);
    }
    CollapseTight(L, root, kid, M);
    TableFrame(L, M, table);
  }

  lemma SettledRoot(L: Cells, root: RNode, table: Table, max: nat)
    requires Pruning(L, root, table, max, null, {}) && root in L && (root.isLeaf || |L[root].kids| != 1)
    ensures Quiet(Bounded(L, root), root, table, max)
  {
    hide CoverOf, ValidEntry;
    assert Bounded(L, root) == L;
  }

  /** An item was added to leaf, which may be one over the limit. */
  ghost predicate Enlisted(L: Cells, root: RNode, table: Table, max: nat, leaf: RNode, S: set<RNode>) {
    && Shape(L, root, null) && TableOK(L, table) && Sized(L, max, leaf) && Filled(L, root, null) && Tight(L, S)
    && Chain(L, root, S, leaf) && leaf.isLeaf && (root.isLeaf || |L[root].kids| >= 2)
  }

  lemma QuietPath(L: Cells, root: RNode, table: Table, max: nat, n: RNode) returns (S: set<RNode>)
    requires Quiet(L, root, table, max) && n in L
    ensures Chain(L, root, S, n)
  {
    S := Path(L, root, n);
    PathChain(L, root, n);
  }

  lemma EnlistSettled(L: Cells, root: RNode, table: Table, max: nat, leaf: RNode, e: Entry, S: set<RNode>)
    requires Quiet(L, root, table, max) && leaf in L && leaf.isLeaf && ValidEntry(e) && e.id !in table
    requires Chain(L, root, S, leaf)
    ensures Enlisted(L[leaf := L[leaf].(items := L[leaf].items + [e])], root, table[e.id := (e, leaf)], max, leaf, S)
  {
    hide CoverOf, ValidEntry, HomeOK, IdOK;
    var M := L[leaf := L[leaf].(items := L[leaf].items + [e])];
    AddItem(L, root, table, max, leaf, e);
    ItemsShape(L, root, null, leaf, L[leaf].items + [e]);
    TightFrame(L, M, root, null, S);
    ChainFrame(L, M, root, S, leaf);
  }

  lemma EnlistedParts(L: Cells, root: RNode, table: Table, max: nat, leaf: RNode, S: set<RNode>)
    requires Enlisted(L, root, table, max, leaf, S)
    ensures leaf in S && leaf in L && |L[leaf].items| <= max + 1 && L[leaf].kids == []
    ensures Shape(L, root, null) && Sized(L, max, leaf) && Filled(L, root, null) && Tight(L, S) && ParentsIn(L, leaf, S)
  {
    assert NodeOK(L, root, null, leaf);
    forall m | m in L && leaf in L[m].kids
      ensures m in S
    {
      ChainParent(L, root, null, S, leaf, m);
    }
  }

  lemma SplitIdsApart(L: Cells, root: RNode, table: Table, max: nat, leaf: RNode, sib: RNode, S: set<RNode>, M: Cells)
    requires Enlisted(L, root, table, max, leaf, S) && SplitOf(L, leaf, sib, M) && leaf in M && sib in M
    ensures NoDupIds(M[leaf].items) && NoDupIds(M[sib].items)
  {
    var g, g1, g2 := L[leaf].items, M[leaf].items, M[sib].items;
    assert HomeOK(L, table, leaf);
    SharedOut(g, g1, g2);
    forall i, j | 0 <= i < j < |g1|
      ensures g1[i].id != g1[j].id
    {
      assert g1[i] in g1 && g1[j] in g1;
    }
    forall i, j | 0 <= i < j < |g2|
      ensures g2[i].id != g2[j].id
    {
      assert g2[i] in g2 && g2[j] in g2;
    }
  }

  lemma FullSettled(L: Cells, root: RNode, before: Table, max: nat, leaf: RNode, sib: RNode, S: set<RNode>, M: Cells,
                    mid: Table, after: Table)
    requires Enlisted(L, root, before, max, leaf, S) && SplitOf(L, leaf, sib, M) && leaf in M && sib in M && sib !in S
    requires Shape(M, root, sib) && Sized(M, max, null) && Filled(M, root, null) && Tight(M, S) && Holds(M, leaf)
    requires Rehoused(before, mid, M[leaf].items, leaf) && Rehoused(mid, after, M[sib].items, sib)
    ensures Adjusting(M, root, after, max, leaf, sib, S) && ContentsOf(after) == ContentsOf(before)
  {
    hide CoverOf, ValidEntry, TableOK, Sized, Filled, Tight, Rehoused, NodeOK;
    SplitTable(L, leaf, sib, M, before, mid, after);
    assert root in M && M[root].kids == L[root].kids;
    ChainFrame(L, M, root, S, leaf);
  }

  lemma LeafFits(L: Cells, root: RNode, table: Table, max: nat, leaf: RNode, S: set<RNode>)
    requires Enlisted(L, root, table, max, leaf, S) && leaf in L && |L[leaf].items| <= max
    ensures Adjusting(L, root, table, max, leaf, null, S)
  {
    assert NodeOK(L, root, null, leaf);
  }

  lemma RootEncloses(L: Cells, root: RNode, table: Table, max: nat)
    requires Quiet(L, root, table, max) && table != map[]
    ensures root in L && L[root].bounds.Some?
    ensures forall id :: id in table ==> Encloses(L[root].bounds.value, table[id].0.bounds)
  {
    forall id | id in table
      ensures L[root].bounds.Some? && Encloses(L[root].bounds.value, table[id].0.bounds)
    {
      assert IdOK(L, table, id);
      UnderRoot(L, root, table[id].1);
      ItemEnclosed(L, root, root, table[id].1, table[id].0);
    }
    var id :| id in table;
  }

  /** A box around all items is around the bounds of every node. */
  lemma {:induction false} BoundsLeast(L: Cells, root: RNode, table: Table, max: nat, n: RNode, c: Box)
    requires Quiet(L, root, table, max) && n in L && L[n].bounds.Some?
    requires forall id :: id in table ==> Encloses(c, table[id].0.bounds)
    ensures Encloses(c, L[n].bounds.value)
    decreases n.height
  {
    hide Encloses, ValidEntry;
    assert NodeOK(L, root, null, n) && HomeOK(L, table, n);
    if n.isLeaf {
      forall i | 0 <= i < |L[n].items|
        ensures Encloses(c, ItemBoxes(L[n].items)[i])
      {
        assert L[n].items[i] in L[n].items;
      }
      CoverIsLeast(ItemBoxes(L[n].items), c);
    } else {
      forall k | k in L[n].kids && L[k].bounds.Some?
        ensures Encloses(c, L[k].bounds.value)
      {
        BoundsLeast(L, root, table, max, k, c);
      }
      KidBoxesEnclosed(L, L[n].kids, c);
      CoverIsLeast(KidBoxes(L, L[n].kids), c);
    }
  }

  lemma {:induction false} KidBoxesEnclosed(L: Cells, kids: seq<RNode>, c: Box)
    requires forall k :: k in kids && k in L && L[k].bounds.Some? ==> Encloses(c, L[k].bounds.value)
    ensures forall i :: 0 <= i < |KidBoxes(L, kids)| ==> Encloses(c, KidBoxes(L, kids)[i])
    decreases |kids|
  {
    hide Encloses;
    if kids != [] {
      KidBoxesEnclosed(L, kids[..|kids|-1], c);
    }
  }

  lemma QuietKids(L: Cells, root: RNode, table: Table, max: nat, n: RNode)
    requires Quiet(L, root, table, max) && n in L && !n.isLeaf
    ensures L[n].kids != [] && forall k :: k in L[n].kids ==> k in L && L[k].bounds.Some? && k.height < n.height
  {
    hide CoverOf, TableOK;
    assert NodeOK(L, root, null, n);
    forall k | k in L[n].kids
      ensures k in L && L[k].bounds.Some?
    {
      BoundsKnown(L, root, null, {}, k);
    }
  }

  lemma TableValid(L: Cells, root: RNode, table: Table, max: nat, id: string)
    requires Quiet(L, root, table, max) && id in table
    ensures ValidEntry(table[id].0)
  {
    assert IdOK(L, table, id);
    assert HomeOK(L, table, table[id].1);
  }

  lemma QuietParts(L: Cells, root: RNode, table: Table, max: nat)
    requires Quiet(L, root, table, max)
    ensures Shape(L, root, null) && TableOK(L, table) && Sized(L, max, null) && Filled(L, root, null) && Tight(L, {})
  {}
}
