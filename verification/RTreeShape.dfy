/** The node links of the R-tree as a snapshot of the nodes' fields, and how each step of an
    insertion or removal changes it. */
module RTreeShape {
  import opened Options
  import opened RTreeGeometry
  import opened Sequences

  /** _RTreeNode. Leaves have height zero; a node's height never changes. */
  class RNode {
    const isLeaf: bool
    ghost const height: nat
    var parent: RNode?
    var items: seq<Entry>
    var children: seq<RNode>
    var bounds: Option<Box>

    constructor (isLeaf: bool, parent: RNode?, ghost height: nat)
      ensures this.isLeaf == isLeaf && this.height == height && this.parent == parent
      ensures items == [] && children == [] && bounds == None
    {
      this.isLeaf, this.height, this.parent := isLeaf, height, parent;
      items, children, bounds := [], [], None;
    }
  }

  /** The fields of one node. */
  datatype Cell = Cell(parent: RNode?, items: seq<Entry>, kids: seq<RNode>, bounds: Option<Box>)

  type Cells = map<RNode, Cell>

  type Table = map<string, (Entry, RNode)>

  ghost function Snap(nodes: set<RNode>): (r: Cells)
    reads nodes
    ensures r.Keys == nodes
  {
    map n | n in nodes :: Cell(n.parent, n.items, n.children, n.bounds)
  }

  // ---- the invariant, node by node ----

  /** How node n is linked. The node pend, a sibling just split off, is not yet among the
      children of its parent. */
  ghost predicate NodeOK(L: Cells, root: RNode, pend: RNode?, n: RNode)
    requires n in L
  {
    var c := L[n];
    && (n.isLeaf <==> n.height == 0)
    && (n.isLeaf ==> c.kids == []) && (!n.isLeaf ==> c.items == [])
    && NoDup(c.kids)
    && (forall k :: k in c.kids ==> k in L && L[k].parent == n && k.height + 1 == n.height && k != pend)
    && (n != root && n != pend ==> c.parent != null && c.parent in L && n in L[c.parent].kids)
    && n.height <= root.height && (n.height == root.height ==> n == root || n == pend)
  }

  ghost predicate Shape(L: Cells, root: RNode, pend: RNode?) {
    && root in L && L[root].parent == null
    && (pend != null ==> pend in L && pend != root)
    && forall n {:trigger NodeOK(L, root, pend, n)} :: n in L ==> NodeOK(L, root, pend, n)
  }

  ghost predicate IdOK(L: Cells, table: Table, id: string)
    requires id in table
  {
    var (e, n) := table[id];
    n in L && e in L[n].items && e.id == id
  }

  ghost predicate HomeOK(L: Cells, table: Table, n: RNode)
    requires n in L
  {
    && NoDup(L[n].items)
    && forall e :: e in L[n].items ==> ValidEntry(e) && e.id in table && table[e.id] == (e, n)
  }

  /** The side table maps each id to the item with that id and the leaf that holds it. */
  ghost predicate TableOK(L: Cells, table: Table) {
    && (forall id {:trigger IdOK(L, table, id)} :: id in table ==> IdOK(L, table, id))
    && (forall n {:trigger HomeOK(L, table, n)} :: n in L ==> HomeOK(L, table, n))
  }

  /** No node but one that is about to be split holds more than max elements. */
  ghost predicate Sized(L: Cells, max: nat, over: RNode?) {
    forall n :: n in L ==>
      if n == over then |L[n].items| <= max + 1 && |L[n].kids| <= max + 1
      else |L[n].items| <= max && |L[n].kids| <= max
  }

  /** No node but the root is empty, except one that is about to be pruned. */
  ghost predicate Filled(L: Cells, root: RNode, exempt: RNode?) {
    forall n :: n in L && n != root && n != exempt ==> L[n].items != [] || L[n].kids != []
  }

  function ItemBoxes(items: seq<Entry>): (r: seq<Box>)
    ensures |r| == |items| && forall i :: 0 <= i < |items| ==> r[i] == items[i].bounds
  {
    seq(|items|, i requires 0 <= i < |items| => items[i].bounds)
  }

  ghost function KidBoxes(L: Cells, kids: seq<RNode>): seq<Box> {
    if kids == [] then []
    else
      var k, b := kids[|kids|-1], KidBoxes(L, kids[..|kids|-1]);
      if k in L && L[k].bounds.Some? then b + [L[k].bounds.value] else b
  }

  ghost function CoverOf(L: Cells, n: RNode): Option<Box>
    requires n in L
  {
    if n.isLeaf then Cover(ItemBoxes(L[n].items)) else Cover(KidBoxes(L, L[n].kids))
  }

  /** Every node outside `stale` has the tight union of its contents as bounds. */
  ghost predicate Tight(L: Cells, stale: set<RNode>) {
    forall n :: n in L && n !in stale ==> L[n].bounds == CoverOf(L, n)
  }

  /** The nodes from cur up to the root, one for each height. */
  ghost predicate Chain(L: Cells, root: RNode, S: set<RNode>, cur: RNode) {
    && cur in S
    && (forall n :: n in S ==> n in L && n.height >= cur.height)
    && (forall a, b :: a in S && b in S && a.height == b.height ==> a == b)
    && (forall n :: n in S && n != root ==> L[n].parent != null && L[n].parent in S)
  }

  ghost predicate Quiet(L: Cells, root: RNode, table: Table, max: nat) {
    && Shape(L, root, null) && TableOK(L, table) && Sized(L, max, null) && Filled(L, root, null) && Tight(L, {})
    && (root.isLeaf || |L[root].kids| >= 2)
  }

  // ---- bounds ----

  lemma {:induction false} KidBoxesFrame(L: Cells, M: Cells, kids: seq<RNode>)
    requires forall k :: k in kids ==> (k in L <==> k in M) && (k in L ==> L[k].bounds == M[k].bounds)
    ensures KidBoxes(L, kids) == KidBoxes(M, kids)
    decreases |kids|
  {
    if kids != [] {
      KidBoxesFrame(L, M, kids[..|kids|-1]);
    }
  }

  /** Only parent links, or bounds of nodes that are no children of n, changed. */
  lemma CoverFrame(L: Cells, M: Cells, n: RNode)
    requires n in L && n in M && L[n].items == M[n].items && L[n].kids == M[n].kids
    requires forall k :: k in L[n].kids ==> (k in L <==> k in M) && (k in L ==> L[k].bounds == M[k].bounds)
    ensures CoverOf(L, n) == CoverOf(M, n)
  {
    KidBoxesFrame(L, M, L[n].kids);
  }

  ghost predicate SameLinks(L: Cells, M: Cells) {
    L.Keys == M.Keys && forall n :: n in L ==> M[n] == L[n].(bounds := M[n].bounds)
  }

  lemma LinksFrame(L: Cells, M: Cells, root: RNode, pend: RNode?)
    requires SameLinks(L, M) && Shape(L, root, pend)
    ensures Shape(M, root, pend)
  {
    forall n | n in M
      ensures NodeOK(M, root, pend, n)
    {
      assert NodeOK(L, root, pend, n);
    }
  }

  lemma ContentsFrame(L: Cells, M: Cells, root: RNode, table: Table, max: nat, over: RNode?, exempt: RNode?)
    requires SameLinks(L, M) && TableOK(L, table) && Sized(L, max, over) && Filled(L, root, exempt)
    ensures TableOK(M, table) && Sized(M, max, over) && Filled(M, root, exempt)
  {
    TableFrame(L, M, table);
    assert forall n :: n in M ==> M[n].items == L[n].items && M[n].kids == L[n].kids;
  }

  lemma TableFrame(L: Cells, M: Cells, table: Table)
    requires TableOK(L, table)
    requires forall n :: n in L && L[n].items != [] ==> n in M
    requires forall n :: n in M ==> M[n].items == if n in L then L[n].items else []
    ensures TableOK(M, table)
  {
    forall id | id in table
      ensures IdOK(M, table, id)
    {
      assert IdOK(L, table, id);
    }
    forall n | n in M
      ensures HomeOK(M, table, n)
    {
      if n in L {
        assert HomeOK(L, table, n);
      }
    }
  }

  /** The nodes after update_bounds on n. */
  ghost function Bounded(L: Cells, n: RNode): (r: Cells)
    requires n in L
    ensures r.Keys == L.Keys
  {
    L[n := L[n].(bounds := CoverOf(L, n))]
  }

  /** update_bounds on n settles n when its parent will still be updated. */
  lemma Rebound(L: Cells, n: RNode, S: set<RNode>)
    requires n in L && Tight(L, S)
    requires n !in L[n].kids && forall m :: m in L && n in L[m].kids ==> m in S
    ensures Tight(Bounded(L, n), S - {n}) && SameLinks(L, Bounded(L, n))
  {
    hide CoverOf;
    var M := Bounded(L, n);
    forall m | m in M && m !in S - {n}
      ensures M[m].bounds == CoverOf(M, m)
    {
      CoverFrame(L, M, m);
    }
  }

  /** The parent of a node on the chain is on the chain. */
  lemma ChainParent(L: Cells, root: RNode, pend: RNode?, S: set<RNode>, cur: RNode, m: RNode)
    requires Shape(L, root, pend) && Chain(L, root, S, cur) && m in L && cur in L[m].kids
    ensures m in S && m == L[cur].parent && m != cur
  {
    assert NodeOK(L, root, pend, m);
    assert NodeOK(L, root, pend, cur);
  }

  // ---- the path to the root ----

  ghost function Path(L: Cells, root: RNode, n: RNode): set<RNode>
    requires Shape(L, root, null) && n in L
    decreases root.height - n.height
  {
    assert NodeOK(L, root, null, n);
    if n == root then {n}
    else
      assert NodeOK(L, root, null, L[n].parent);
      {n} + Path(L, root, L[n].parent)
  }

  lemma {:induction false} PathChain(L: Cells, root: RNode, n: RNode)
    requires Shape(L, root, null) && n in L
    ensures Chain(L, root, Path(L, root, n), n)
    decreases root.height - n.height
  {
    assert NodeOK(L, root, null, n);
    if n != root {
      assert NodeOK(L, root, null, L[n].parent);
      PathChain(L, root, L[n].parent);
    }
  }

  /** The chain above cur. */
  lemma ChainUp(L: Cells, root: RNode, pend: RNode?, S: set<RNode>, cur: RNode)
    requires Shape(L, root, pend) && Chain(L, root, S, cur) && cur != root && (pend != null ==> pend !in S)
    ensures Chain(L, root, S - {cur}, L[cur].parent)
  {
    assert NodeOK(L, root, pend, cur);
    var p := L[cur].parent;
    assert NodeOK(L, root, pend, p);
    forall n | n in S - {cur}
      ensures n in L && n.height >= p.height && (n != root ==> L[n].parent != cur)
    {
      assert NodeOK(L, root, pend, n);
      if n != root {
        assert L[n].parent in S;
      }
    }
  }

  // ---- insertion ----

  /** Items of leaves play no part in the links. */
  lemma ItemsShape(L: Cells, root: RNode, pend: RNode?, leaf: RNode, items: seq<Entry>)
    requires Shape(L, root, pend) && leaf in L && leaf.isLeaf
    ensures Shape(L[leaf := L[leaf].(items := items)], root, pend)
  {
    var M := L[leaf := L[leaf].(items := items)];
    forall n | n in M
      ensures NodeOK(M, root, pend, n)
    {
      assert NodeOK(L, root, pend, n);
    }
  }

  /** The new item in its leaf, which may now be one over the limit. */
  lemma AddItem(L: Cells, root: RNode, table: Table, max: nat, leaf: RNode, e: Entry)
    requires TableOK(L, table) && Sized(L, max, null) && Filled(L, root, null)
    requires leaf in L && ValidEntry(e) && e.id !in table
    ensures var M := L[leaf := L[leaf].(items := L[leaf].items + [e])];
      && TableOK(M, table[e.id := (e, leaf)]) && Sized(M, max, leaf) && Filled(M, root, null)
  {
    hide ValidEntry;
    var M, after := L[leaf := L[leaf].(items := L[leaf].items + [e])], table[e.id := (e, leaf)];
    forall n | n in M
      ensures HomeOK(M, after, n)
    {
      assert HomeOK(L, table, n);
    }
    forall id | id in after
      ensures IdOK(M, after, id)
    {
      if id != e.id {
        assert IdOK(L, table, id);
      }
    }
  }

  /** Two groups that share out distinct elements. */
  lemma SharedOut<T>(s: seq<T>, g1: seq<T>, g2: seq<T>)
    requires NoDup(s) && multiset(g1) + multiset(g2) == multiset(s)
    ensures NoDup(g1) && NoDup(g2)
    ensures forall x :: x in s <==> x in g1 || x in g2
    ensures forall x :: x in g1 ==> x !in g2
  {
    forall x
      ensures multiset(g1)[x] + multiset(g2)[x] <= 1
      ensures x in s <==> x in g1 || x in g2
    {
      NoDupCounts(s, x);
      assert multiset(s)[x] == (multiset(g1) + multiset(g2))[x] == multiset(g1)[x] + multiset(g2)[x];
      assert x in s <==> x in multiset(s);
      assert x in g1 <==> x in multiset(g1);
      assert x in g2 <==> x in multiset(g2);
    }
    CountsNoDup(g1);
    CountsNoDup(g2);
  }

  /** The table after the given items moved to the leaf n. */
  ghost predicate Rehoused(before: Table, after: Table, items: seq<Entry>, n: RNode) {
    && (forall e :: e in items ==> e.id in after && after[e.id] == (e, n))
    && (forall id :: id in before ==> id in after)
    && (forall id :: id in after ==>
          (exists e :: e in items && e.id == id) || (id in before && after[id] == before[id]))
  }

  /** A leaf shared its items with a new sibling. */
  ghost predicate ItemsSplit(L: Cells, node: RNode, sib: RNode, M: Cells) {
    && node in L && sib !in L && M.Keys == L.Keys + {sib}
    && (forall n :: n in L && n != node ==> M[n].items == L[n].items)
    && multiset(M[node].items) + multiset(M[sib].items) == multiset(L[node].items)
    && (forall n :: n in L ==> M[n].parent == L[n].parent && M[n].kids == L[n].kids)
    && M[sib].parent == L[node].parent && M[sib].kids == []
  }

  lemma SplitLeaf(L: Cells, root: RNode, node: RNode, sib: RNode, M: Cells)
    requires Shape(L, root, null) && ItemsSplit(L, node, sib, M)
    requires node.isLeaf && sib.isLeaf && sib.height == node.height
    ensures Shape(M, root, sib)
  {
    forall n | n in M
      ensures NodeOK(M, root, sib, n)
    {
      assert NodeOK(L, root, null, node);
      if n != sib {
        assert NodeOK(L, root, null, n);
      }
    }
  }

  /** Items with the same id are the same item in the same leaf. */
  lemma SameId(L: Cells, table: Table, n: RNode, e: Entry, m: RNode, f: Entry)
    requires TableOK(L, table) && n in L && e in L[n].items && m in L && f in L[m].items && e.id == f.id
    ensures e == f && n == m
  {
    assert HomeOK(L, table, n) && HomeOK(L, table, m);
  }

  lemma SplitHomes(L: Cells, node: RNode, sib: RNode, M: Cells, before: Table, mid: Table, after: Table, n: RNode)
    requires TableOK(L, before) && ItemsSplit(L, node, sib, M)
    requires Rehoused(before, mid, M[node].items, node) && Rehoused(mid, after, M[sib].items, sib)
    requires n in M
    ensures HomeOK(M, after, n)
  {
    hide ValidEntry;
    var g, g1, g2 := L[node].items, M[node].items, M[sib].items;
    assert HomeOK(L, before, node);
    SharedOut(g, g1, g2);
    if n in L {
      assert HomeOK(L, before, n);
    }
    forall e | e in M[n].items && n != sib
      ensures after[e.id] == (e, n) && e.id in after
    {
      forall f | f in g2
        ensures f.id != e.id
      {
        if f.id == e.id {
          SameId(L, before, n, e, node, f);
        }
      }
      forall f | f in g1 && n != node
        ensures f.id != e.id
      {
        if f.id == e.id {
          SameId(L, before, n, e, node, f);
        }
      }
    }
  }

  lemma SplitIds(L: Cells, node: RNode, sib: RNode, M: Cells, before: Table, mid: Table, after: Table, id: string)
    requires TableOK(L, before) && ItemsSplit(L, node, sib, M)
    requires Rehoused(before, mid, M[node].items, node) && Rehoused(mid, after, M[sib].items, sib)
    requires id in after
    ensures id in before && after[id].0 == before[id].0 && IdOK(M, after, id)
  {
    hide ValidEntry;
    var g, g1, g2 := L[node].items, M[node].items, M[sib].items;
    assert HomeOK(L, before, node);
    SharedOut(g, g1, g2);
    if e :| e in g2 && e.id == id {
      assert e in g;
    } else if e :| e in g1 && e.id == id {
      assert e in g;
    } else {
      assert IdOK(L, before, id);
    }
  }

  lemma SplitTable(L: Cells, node: RNode, sib: RNode, M: Cells, before: Table, mid: Table, after: Table)
    requires TableOK(L, before) && ItemsSplit(L, node, sib, M)
    requires Rehoused(before, mid, M[node].items, node) && Rehoused(mid, after, M[sib].items, sib)
    ensures TableOK(M, after)
    ensures after.Keys == before.Keys && forall id :: id in before ==> after[id].0 == before[id].0
  {
    hide HomeOK, IdOK, ItemsSplit;
    forall n | n in M
      ensures HomeOK(M, after, n)
    {
      SplitHomes(L, node, sib, M, before, mid, after, n);
    }
    forall id | id in after
      ensures id in before && after[id].0 == before[id].0 && IdOK(M, after, id)
    {
      SplitIds(L, node, sib, M, before, mid, after, id);
    }
  }

  /** An inner node shares its children with a new sibling, which becomes their parent. */
  ghost predicate KidsSplit(L: Cells, node: RNode, sib: RNode, M: Cells) {
    && node in L && sib !in L && M.Keys == L.Keys + {sib}
    && multiset(M[node].kids) + multiset(M[sib].kids) == multiset(L[node].kids)
    && M[sib].parent == L[node].parent && M[sib].items == []
    && (forall n :: n in L && n != node ==> M[n].kids == L[n].kids)
    && (forall n :: n in L ==> M[n].items == L[n].items)
    && (forall n :: n in L ==> M[n].parent == if n in M[sib].kids then sib else L[n].parent)
  }

  lemma KidsSplitIs(L: Cells, node: RNode, sib: RNode, M: Cells)
    requires node in L && sib !in L && M.Keys == L.Keys + {sib}
    requires multiset(M[node].kids) + multiset(M[sib].kids) == multiset(L[node].kids)
    requires M[sib].parent == L[node].parent && M[sib].items == []
    requires forall n :: n in L && n != node ==> M[n].kids == L[n].kids
    requires forall n :: n in L ==> M[n].items == L[n].items
    requires forall n :: n in L ==> M[n].parent == if n in M[sib].kids then sib else L[n].parent
    ensures KidsSplit(L, node, sib, M)
  {
  }

  lemma SplitInnerNode(L: Cells, root: RNode, node: RNode, sib: RNode, M: Cells, n: RNode)
    requires Shape(L, root, null) && KidsSplit(L, node, sib, M)
    requires !node.isLeaf && !sib.isLeaf && sib.height == node.height && n in M
    ensures NodeOK(M, root, sib, n)
  {
    var g, g1, g2 := L[node].kids, M[node].kids, M[sib].kids;
    assert NodeOK(L, root, null, node);
    SharedOut(g, g1, g2);
    if n != sib {
      assert NodeOK(L, root, null, n);
      assert node !in g;
      if n in g {
        assert n != root && L[n].parent == node;
      } else if n != root {
        assert NodeOK(L, root, null, L[n].parent);
        assert L[n].parent != node;
      }
    }
  }

  lemma SplitInner(L: Cells, root: RNode, node: RNode, sib: RNode, M: Cells)
    requires Shape(L, root, null) && KidsSplit(L, node, sib, M)
    requires !node.isLeaf && !sib.isLeaf && sib.height == node.height
    ensures Shape(M, root, sib)
  {
    assert root !in M[sib].kids by {
      var g, g1, g2 := L[node].kids, M[node].kids, M[sib].kids;
      assert NodeOK(L, root, null, node);
      SharedOut(g, g1, g2);
    }
    hide NodeOK;
    forall n | n in M
      ensures NodeOK(M, root, sib, n)
    {
      SplitInnerNode(L, root, node, sib, M, n);
    }
  }

  /** The two halves of a split, up to bounds. */
  ghost predicate SplitOf(L: Cells, node: RNode, sib: RNode, M: Cells) {
    && (if node.isLeaf then ItemsSplit(L, node, sib, M) else KidsSplit(L, node, sib, M))
    && sib.isLeaf == node.isLeaf && sib.height == node.height
  }

  /** Both halves hold something and respect the limit. */
  ghost predicate HalvesFit(M: Cells, node: RNode, sib: RNode, max: nat) {
    && node in M && sib in M
    && if node.isLeaf then 1 <= |M[node].items| <= max && 1 <= |M[sib].items| <= max
       else 1 <= |M[node].kids| <= max && 1 <= |M[sib].kids| <= max
  }

  ghost predicate Holds(L: Cells, n: RNode) {
    n in L && (L[n].items != [] || L[n].kids != [])
  }

  ghost predicate ParentsIn(L: Cells, node: RNode, S: set<RNode>) {
    forall m :: m in L && node in L[m].kids ==> m in S
  }

  lemma SplitShape(L: Cells, root: RNode, node: RNode, sib: RNode, M: Cells)
    requires Shape(L, root, null) && SplitOf(L, node, sib, M)
    ensures Shape(M, root, sib)
  {
    assert NodeOK(L, root, null, node);
    if node.isLeaf {
      SplitLeaf(L, root, node, sib, M);
    } else {
      SplitInner(L, root, node, sib, M);
    }
  }

  lemma SplitCounts(L: Cells, root: RNode, max: nat, node: RNode, sib: RNode, M: Cells)
    requires SplitOf(L, node, sib, M) && Sized(L, max, node) && Filled(L, root, null) && Shape(L, root, null)
    requires HalvesFit(M, node, sib, max)
    ensures Sized(M, max, null) && Filled(M, root, null)
  {
    assert NodeOK(L, root, null, node);
  }

  lemma SplitTight(L: Cells, root: RNode, node: RNode, sib: RNode, M: Cells, S: set<RNode>)
    requires Shape(L, root, null) && SplitOf(L, node, sib, M) && Tight(L, S) && node in S && ParentsIn(L, node, S)
    requires forall n :: n in L ==> M[n].bounds == L[n].bounds
    ensures node in M && sib in M && Shape(M, root, sib) && Tight(M, S + {sib})
    ensures Tight(Bounded(Bounded(M, node), sib), S - {sib})
    ensures SameLinks(M, Bounded(Bounded(M, node), sib))
  {
    hide CoverOf, KidsSplit, ItemsSplit;
    SplitKids(L, node, sib, M);
    SplitShape(L, root, node, sib, M);
    var T := S + {sib};
    assert Tight(L, T);
    TightFrame(L, M, root, null, T);
    assert NodeOK(L, root, null, node);
    assert NodeOK(M, root, sib, node) && NodeOK(M, root, sib, sib);
    Rebound(M, node, T);
    var N := Bounded(M, node);
    forall m | m in N
      ensures sib !in N[m].kids
    {
      assert NodeOK(M, root, sib, m);
    }
    Rebound(N, sib, T - {node});
    assert forall n :: n !in S - {sib} ==> n !in T - {node} - {sib};
  }

  /** Children are only shared between the two halves. */
  lemma SplitKids(L: Cells, node: RNode, sib: RNode, M: Cells)
    requires SplitOf(L, node, sib, M)
    ensures node in L && sib !in L && M.Keys == L.Keys + {sib}
    ensures forall n :: n in L && n != node ==> M[n].items == L[n].items && M[n].kids == L[n].kids
    ensures forall k :: k in M[node].kids || k in M[sib].kids ==> k in L[node].kids
  {
    if !node.isLeaf {
      forall k | k in M[node].kids || k in M[sib].kids
        ensures k in L[node].kids
      {
        assert k in multiset(M[node].kids) + multiset(M[sib].kids);
        assert k in multiset(L[node].kids);
      }
    }
  }

  /** A full root that was split gets a new root above both halves. */
  lemma NewRoot(L: Cells, root: RNode, sib: RNode, top: RNode, M: Cells)
    requires Shape(L, root, sib) && sib.height == root.height
    requires top !in L && !top.isLeaf && top.height == root.height + 1
    requires top in M && M == L[root := L[root].(parent := top)][sib := L[sib].(parent := top)][top := M[top]]
    requires M[top].parent == null && M[top].items == [] && M[top].kids == [root, sib]
    ensures Shape(M, top, null)
  {
    forall n | n in M
      ensures NodeOK(M, top, null, n)
    {
      assert NodeOK(L, root, sib, root);
      if n != top {
        assert NodeOK(L, root, sib, n);
        if n != root && n != sib {
          assert NodeOK(L, root, sib, L[n].parent);
        }
      }
    }
  }

  /** A sibling joins the children of the node it was split from. */
  lemma Attach(L: Cells, root: RNode, sib: RNode, parent: RNode, M: Cells)
    requires Shape(L, root, sib) && parent in L && sib in L && parent.height == sib.height + 1
    requires M == L[sib := L[sib].(parent := parent)][parent := L[parent].(kids := L[parent].kids + [sib])]
    ensures Shape(M, root, null)
  {
    assert NodeOK(L, root, sib, parent);
    assert parent != sib;
    forall n | n in M
      ensures NodeOK(M, root, null, n)
    {
      assert NodeOK(L, root, sib, n);
    }
  }

  /** Where contents and bounds stayed, tight bounds stayed tight. */
  lemma TightFrame(L: Cells, M: Cells, root: RNode, pend: RNode?, S: set<RNode>)
    requires Shape(L, root, pend) && Tight(L, S)
    requires forall n :: n in M && n !in S ==> n in L && M[n].items == L[n].items && M[n].kids == L[n].kids
    requires forall n :: n in L ==> n in M && M[n].bounds == L[n].bounds
    ensures Tight(M, S)
  {
    hide CoverOf;
    forall n | n in M && n !in S
      ensures M[n].bounds == CoverOf(M, n)
    {
      assert NodeOK(L, root, pend, n);
      CoverFrame(L, M, n);
    }
  }

  lemma ChainFrame(L: Cells, M: Cells, root: RNode, S: set<RNode>, cur: RNode)
    requires Chain(L, root, S, cur)
    requires forall n :: n in S ==> n in M && (n in L ==> M[n].parent == L[n].parent)
    ensures Chain(M, root, S, cur)
  {}

  // ---- removal ----

  /** The sequence without its (first) occurrence of x. */
  function Without<T(==)>(s: seq<T>, x: T): seq<T> {
    if s == [] then [] else if s[0] == x then s[1..] else [s[0]] + Without(s[1..], x)
  }

  lemma {:induction false} WithoutFacts<T>(s: seq<T>, x: T)
    requires NoDup(s)
    ensures NoDup(Without(s, x)) && |s| - 1 <= |Without(s, x)| <= |s|
    ensures forall y :: y in Without(s, x) <==> y in s && y != x
  {
    if s != [] {
      assert s == [s[0]] + s[1..];
      WithoutFacts(s[1..], x);
      assert s[0] !in s[1..];
    }
  }

  lemma DropItem(L: Cells, table: Table, leaf: RNode, e: Entry)
    requires TableOK(L, table) && leaf in L && e in L[leaf].items
    ensures TableOK(L[leaf := L[leaf].(items := Without(L[leaf].items, e))], table - {e.id})
  {
    hide ValidEntry;
    var M, after := L[leaf := L[leaf].(items := Without(L[leaf].items, e))], table - {e.id};
    assert HomeOK(L, table, leaf);
    WithoutFacts(L[leaf].items, e);
    forall n | n in M
      ensures HomeOK(M, after, n)
    {
      assert HomeOK(L, table, n);
      forall f | f in M[n].items
        ensures f.id != e.id
      {
        assert f in L[n].items;
      }
    }
    forall id | id in after
      ensures IdOK(M, after, id)
    {
      assert IdOK(L, table, id);
    }
  }

  /** An empty node leaves the tree. */
  lemma Prune(L: Cells, root: RNode, cur: RNode, M: Cells)
    requires Shape(L, root, null) && cur in L && cur != root && L[cur].kids == []
    requires L[cur].parent != null && L[cur].parent in L
    requires var p := L[cur].parent;
      M == (L - {cur})[p := L[p].(kids := Without(L[p].kids, cur))]
    ensures Shape(M, root, null)
  {
    var p := L[cur].parent;
    assert NodeOK(L, root, null, cur);
    assert NodeOK(L, root, null, p);
    WithoutFacts(L[p].kids, cur);
    forall n | n in M
      ensures NodeOK(M, root, null, n)
    {
      assert NodeOK(L, root, null, n);
    }
  }

  lemma PruneTight(L: Cells, S: set<RNode>, cur: RNode, p: RNode, M: Cells)
    requires Tight(L, S) && cur in L && p in L && p in S && p != cur
    requires forall n :: n in L && cur in L[n].kids ==> n == p
    requires M == (L - {cur})[p := L[p].(kids := Without(L[p].kids, cur))]
    ensures Tight(M, S - {cur})
  {
    hide CoverOf;
    forall n | n in M && n !in S - {cur}
      ensures M[n].bounds == CoverOf(M, n)
    {
      CoverFrame(L, M, n);
    }
  }

  /** A root with one child hands over to it. */
  lemma Collapse(L: Cells, root: RNode, kid: RNode, M: Cells)
    requires Shape(L, root, null) && L[root].kids == [kid]
    requires kid in L && kid != root && M == (L - {root})[kid := L[kid].(parent := null)]
    ensures Shape(M, kid, null)
  {
    assert NodeOK(L, root, null, root);
    assert kid in L[root].kids;
    forall n | n in M
      ensures NodeOK(M, kid, null, n)
    {
      assert NodeOK(L, root, null, n);
      assert NodeOK(L, root, null, L[n].parent);
    }
  }

  lemma CollapseTight(L: Cells, root: RNode, kid: RNode, M: Cells)
    requires Tight(L, {}) && root in L && kid in L && forall n :: n in L ==> root !in L[n].kids
    requires M == (L - {root})[kid := L[kid].(parent := null)]
    ensures Tight(M, {})
  {
    hide CoverOf;
    forall n | n in M
      ensures M[n].bounds == CoverOf(M, n)
    {
      CoverFrame(L, M, n);
    }
  }
}
