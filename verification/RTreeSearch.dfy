/** Why the pruned search of the R-tree finds exactly what a scan of all items finds. */
module RTreeSearch {
  import opened Options
  import opened RTreeGeometry
  import opened RTreeShape
  import opened Sequences

  // ---- bounds enclose what is below ----

  lemma {:induction false} KidBoxIn(L: Cells, kids: seq<RNode>, k: RNode)
    requires k in kids && k in L && L[k].bounds.Some?
    ensures L[k].bounds.value in KidBoxes(L, kids)
    decreases |kids|
  {
    var n := |kids| - 1;
    if kids[n] != k {
      assert kids == kids[..n] + [kids[n]];
      KidBoxIn(L, kids[..n], k);
    }
  }

  lemma EnclosesTrans(a: Box, b: Box, c: Box)
    requires Encloses(a, b) && Encloses(b, c)
    ensures Encloses(a, c)
  {}

  lemma EnclosingIntersects(a: Box, b: Box, q: Box)
    requires Encloses(a, b) && Intersects(b, q)
    ensures Intersects(a, q)
  {}

  lemma CoverEncloses(bs: seq<Box>, b: Box)
    requires b in bs
    ensures Cover(bs).Some? && Encloses(Cover(bs).value, b)
  {
    CoverIsLeast(bs, b);
  }

  /** Below the nodes still to be updated, every node but the root has bounds. */
  lemma {:induction false} BoundsKnown(L: Cells, root: RNode, pend: RNode?, S: set<RNode>, n: RNode)
    requires Shape(L, root, pend) && Filled(L, root, null) && Tight(L, S) && n in L && n != root
    requires forall m :: m in S ==> m.height > n.height
    ensures L[n].bounds.Some?
    decreases n.height
  {
    assert NodeOK(L, root, pend, n);
    if n.isLeaf {
      CoverEncloses(ItemBoxes(L[n].items), ItemBoxes(L[n].items)[0]);
    } else {
      var k := L[n].kids[0];
      assert k in L[n].kids;
      BoundsKnown(L, root, pend, S, k);
      KidBoxIn(L, L[n].kids, k);
      CoverEncloses(KidBoxes(L, L[n].kids), L[k].bounds.value);
    }
  }

  // ---- below ----

  /** n is a or below a. */
  ghost predicate Under(L: Cells, a: RNode, n: RNode)
    decreases a.height - n.height
  {
    n == a ||
    (n in L && n.height < a.height && L[n].parent != null && n.height < L[n].parent.height && Under(L, a, L[n].parent))
  }

  lemma {:induction false} UnderOne(L: Cells, a: RNode, b: RNode, n: RNode)
    requires Under(L, a, n) && Under(L, b, n) && a.height == b.height
    ensures a == b
    decreases a.height - n.height
  {
    if n != a && n != b {
      UnderOne(L, a, b, L[n].parent);
    }
  }

  /** What is below a child is below its parent. */
  lemma {:induction false} UnderParent(L: Cells, a: RNode, k: RNode, n: RNode)
    requires Under(L, k, n) && k in L && L[k].parent == a && k.height < a.height
    ensures Under(L, a, n)
    decreases k.height - n.height
  {
    if n != k {
      UnderParent(L, a, k, L[n].parent);
    }
  }

  /** What is strictly below a node is below one of its children. */
  lemma {:induction false} UnderKid(L: Cells, root: RNode, a: RNode, n: RNode) returns (k: RNode)
    requires Shape(L, root, null) && n in L && Under(L, a, n) && n != a
    ensures a in L && k in L[a].kids && Under(L, k, n)
    decreases a.height - n.height
  {
    assert NodeOK(L, root, null, n);
    var p := L[n].parent;
    if p == a {
      k := n;
    } else {
      k := UnderKid(L, root, a, p);
    }
  }

  /** Everything is below the root. */
  lemma {:induction false} UnderRoot(L: Cells, root: RNode, n: RNode)
    requires Shape(L, root, null) && n in L
    ensures Under(L, root, n)
    decreases root.height - n.height
  {
    assert NodeOK(L, root, null, n);
    if n != root {
      assert NodeOK(L, root, null, L[n].parent);
      UnderRoot(L, root, L[n].parent);
    }
  }

  /** The bounds of a node enclose whatever the bounds of a node below enclose. */
  lemma {:induction false} EnclosesUp(L: Cells, root: RNode, a: RNode, n: RNode, b: Box)
    requires Shape(L, root, null) && Tight(L, {}) && n in L && Under(L, a, n)
    requires L[n].bounds.Some? && Encloses(L[n].bounds.value, b)
    ensures a in L && L[a].bounds.Some? && Encloses(L[a].bounds.value, b)
    decreases a.height - n.height
  {
    if n != a {
      var p := L[n].parent;
      assert NodeOK(L, root, null, n);
      assert NodeOK(L, root, null, p);
      assert L[p].bounds == CoverOf(L, p);
      KidBoxIn(L, L[p].kids, n);
      CoverEncloses(KidBoxes(L, L[p].kids), L[n].bounds.value);
      EnclosesTrans(L[p].bounds.value, L[n].bounds.value, b);
      EnclosesUp(L, root, a, p, b);
    }
  }

  /** So the bounds of every node above an item enclose the item. */
  lemma ItemEnclosed(L: Cells, root: RNode, a: RNode, leaf: RNode, e: Entry)
    requires Shape(L, root, null) && Tight(L, {}) && leaf in L && e in L[leaf].items && Under(L, a, leaf)
    ensures a in L && L[a].bounds.Some? && Encloses(L[a].bounds.value, e.bounds)
  {
    assert NodeOK(L, root, null, leaf);
    var i :| 0 <= i < |L[leaf].items| && L[leaf].items[i] == e;
    assert ItemBoxes(L[leaf].items)[i] == e.bounds;
    CoverEncloses(ItemBoxes(L[leaf].items), e.bounds);
    assert L[leaf].bounds == CoverOf(L, leaf);
    EnclosesUp(L, root, a, leaf, e.bounds);
  }

  /** How many parent links lead from n to the root. */
  ghost function Depth(L: Cells, root: RNode, n: RNode): nat
    requires Shape(L, root, null) && n in L
    decreases root.height - n.height
  {
    assert NodeOK(L, root, null, n);
    if n == root then 0
    else
      assert NodeOK(L, root, null, L[n].parent);
      1 + Depth(L, root, L[n].parent)
  }

  /** All leaves are equally far from the root. */
  lemma {:induction false} LeavesLevel(L: Cells, root: RNode, n: RNode)
    requires Shape(L, root, null) && n in L
    ensures Depth(L, root, n) + n.height == root.height && (n.isLeaf <==> Depth(L, root, n) == root.height)
    decreases root.height - n.height
  {
    assert NodeOK(L, root, null, n);
    if n != root {
      assert NodeOK(L, root, null, L[n].parent);
      LeavesLevel(L, root, L[n].parent);
    }
  }

  // ---- the search ----

  ghost predicate Covered(L: Cells, P: seq<RNode>, n: RNode) {
    exists i :: 0 <= i < |P| && Under(L, P[i], n)
  }

  /** Nodes of the tree, no two with a common node below. */
  ghost predicate Apart(L: Cells, P: seq<RNode>) {
    && (forall i :: 0 <= i < |P| ==> P[i] in L)
    && forall i, j, n :: 0 <= i < j < |P| && n in L && Under(L, P[i], n) ==> !Under(L, P[j], n)
  }

  /** The nodes still to be searched. */
  ghost function Open(L: Cells, P: seq<RNode>): set<RNode> {
    set n | n in L && Covered(L, P, n)
  }

  /** The items found so far are right, and those not found are below the pending nodes P. */
  ghost predicate Scanning(L: Cells, table: Table, P: seq<RNode>, found: seq<Entry>, wanted: Entry -> bool) {
    && Apart(L, P) && NoDup(found)
    && (forall e :: e in found ==> e.id in table && table[e.id].0 == e && wanted(e) && !Covered(L, P, table[e.id].1))
    && (forall id :: id in table && wanted(table[id].0) ==> table[id].0 in found || Covered(L, P, table[id].1))
  }

  lemma ScanStart(L: Cells, root: RNode, table: Table, wanted: Entry -> bool)
    requires Shape(L, root, null) && TableOK(L, table)
    ensures Scanning(L, table, [root], [], wanted)
  {
    forall id | id in table
      ensures Covered(L, [root], table[id].1)
    {
      assert IdOK(L, table, id);
      UnderRoot(L, root, table[id].1);
      assert Under(L, [root][0], table[id].1);
    }
  }

  /** The pending children stand for their parent. */
  lemma ExpandCovers(L: Cells, root: RNode, stack: seq<RNode>, a: RNode, n: RNode)
    requires Shape(L, root, null) && n in L && n != a && Covered(L, stack + [a], n)
    ensures a in L ==> Covered(L, stack + L[a].kids, n)
  {
    if a in L {
      var i :| 0 <= i < |stack + [a]| && Under(L, (stack + [a])[i], n);
      if i < |stack| {
        assert Under(L, (stack + L[a].kids)[i], n);
      } else {
        var k := UnderKid(L, root, a, n);
        var j :| 0 <= j < |L[a].kids| && L[a].kids[j] == k;
        assert Under(L, (stack + L[a].kids)[|stack| + j], n);
      }
    }
  }

  lemma ExpandBack(L: Cells, root: RNode, stack: seq<RNode>, a: RNode, n: RNode)
    requires Shape(L, root, null) && a in L && Covered(L, stack + L[a].kids, n)
    ensures Covered(L, stack + [a], n)
  {
    var P := stack + L[a].kids;
    var i :| 0 <= i < |P| && Under(L, P[i], n);
    if i < |stack| {
      assert Under(L, (stack + [a])[i], n);
    } else {
      assert NodeOK(L, root, null, a);
      assert P[i] in L[a].kids;
      UnderParent(L, a, P[i], n);
      assert Under(L, (stack + [a])[|stack|], n);
    }
  }

  lemma ExpandApart(L: Cells, root: RNode, stack: seq<RNode>, a: RNode)
    requires Shape(L, root, null) && Apart(L, stack + [a])
    ensures a in L && Apart(L, stack + L[a].kids)
  {
    assert (stack + [a])[|stack|] == a;
    assert NodeOK(L, root, null, a);
    var P := stack + L[a].kids;
    forall i | 0 <= i < |P|
      ensures P[i] in L
    {
      if i < |stack| {
        assert (stack + [a])[i] == P[i];
      } else {
        assert P[i] in L[a].kids;
      }
    }
    forall i, j, n | 0 <= i < j < |P| && n in L && Under(L, P[i], n)
      ensures !Under(L, P[j], n)
    {
      if i >= |stack| {
        assert L[a].kids[i - |stack|] != L[a].kids[j - |stack|];
        assert P[i] in L[a].kids && P[j] in L[a].kids;
        if Under(L, P[j], n) {
          UnderOne(L, P[i], P[j], n);
        }
      } else {
        assert Under(L, (stack + [a])[i], n);
        if j < |stack| {
          assert (stack + [a])[j] == P[j];
        } else {
          assert P[j] in L[a].kids && !Under(L, (stack + [a])[|stack|], n);
          if Under(L, P[j], n) {
            UnderParent(L, a, P[j], n);
          }
        }
      }
    }
  }

  /** An inner node gives way to its children. */
  lemma ScanInner(L: Cells, root: RNode, table: Table, stack: seq<RNode>, a: RNode, found: seq<Entry>,
                  wanted: Entry -> bool)
    requires Shape(L, root, null) && TableOK(L, table) && Scanning(L, table, stack + [a], found, wanted)
    requires !a.isLeaf
    ensures a in L && Scanning(L, table, stack + L[a].kids, found, wanted)
    ensures Open(L, stack + L[a].kids) <= Open(L, stack + [a]) - {a}
  {
    hide Covered, Apart, NodeOK, HomeOK;
    ExpandApart(L, root, stack, a);
    forall e | e in found
      ensures !Covered(L, stack + L[a].kids, table[e.id].1)
    {
      if Covered(L, stack + L[a].kids, table[e.id].1) {
        ExpandBack(L, root, stack, a, table[e.id].1);
      }
    }
    forall id | id in table && wanted(table[id].0) && table[id].0 !in found
      ensures Covered(L, stack + L[a].kids, table[id].1)
    {
      assert IdOK(L, table, id);
      ItemsInLeaf(L, root, table[id].1);
      ExpandCovers(L, root, stack, a, table[id].1);
    }
    forall n | n in Open(L, stack + L[a].kids)
      ensures n in Open(L, stack + [a]) - {a}
    {
      ExpandBack(L, root, stack, a, n);
      NotBelowItself(L, root, stack, a);
    }
  }

  lemma ItemsInLeaf(L: Cells, root: RNode, n: RNode)
    requires Shape(L, root, null) && n in L && L[n].items != []
    ensures n.isLeaf
  {
    assert NodeOK(L, root, null, n);
  }

  lemma NotBelowItself(L: Cells, root: RNode, stack: seq<RNode>, a: RNode)
    requires Shape(L, root, null) && a in L && Apart(L, stack + [a])
    ensures !Covered(L, stack + L[a].kids, a)
  {
    assert NodeOK(L, root, null, a);
    var P := stack + L[a].kids;
    forall i | 0 <= i < |P|
      ensures !Under(L, P[i], a)
    {
      assert Under(L, (stack + [a])[|stack|], a);
      if i < |stack| {
        assert (stack + [a])[i] == P[i];
      } else {
        assert P[i] in L[a].kids;
      }
    }
  }

  /** A subtree whose bounds miss the query holds no match. */
  lemma ScanSkip(L: Cells, root: RNode, table: Table, stack: seq<RNode>, k: RNode, rest: seq<RNode>,
                 found: seq<Entry>, wanted: Entry -> bool, query: Box)
    requires Shape(L, root, null) && TableOK(L, table) && Tight(L, {})
    requires Scanning(L, table, stack + [k] + rest, found, wanted)
    requires forall e :: wanted(e) ==> Intersects(e.bounds, query)
    requires k in L && (L[k].bounds.None? || !Intersects(L[k].bounds.value, query))
    ensures Scanning(L, table, stack + rest, found, wanted)
    ensures Open(L, stack + rest) <= Open(L, stack + [k] + rest)
  {
    hide NodeOK, HomeOK, Apart, Covered, ValidEntry;
    DropApart(L, stack, k, rest);
    forall id | id in table && wanted(table[id].0) && table[id].0 !in found
      ensures Covered(L, stack + rest, table[id].1)
    {
      var (e, leaf) := table[id];
      assert IdOK(L, table, id);
      if !Covered(L, stack + rest, leaf) {
        DropCovers(L, stack, k, rest, leaf);
        ItemEnclosed(L, root, k, leaf, e);
        EnclosingIntersects(L[k].bounds.value, e.bounds, query);
      }
    }
  }

  /** Leaving one node out of the pending ones. */
  lemma DropApart(L: Cells, stack: seq<RNode>, k: RNode, rest: seq<RNode>)
    requires Apart(L, stack + [k] + rest)
    ensures Apart(L, stack + rest)
    ensures forall n :: Covered(L, stack + rest, n) ==> Covered(L, stack + [k] + rest, n)
  {
    var P, Q := stack + [k] + rest, stack + rest;
    assert forall i :: 0 <= i < |Q| ==> Q[i] == P[if i < |stack| then i else i + 1];
    forall n | Covered(L, Q, n)
      ensures Covered(L, P, n)
    {
      var i :| 0 <= i < |Q| && Under(L, Q[i], n);
      assert Under(L, P[if i < |stack| then i else i + 1], n);
    }
  }

  /** What was pending only because of k is below k. */
  lemma DropCovers(L: Cells, stack: seq<RNode>, k: RNode, rest: seq<RNode>, n: RNode)
    requires Covered(L, stack + [k] + rest, n)
    ensures Covered(L, stack + rest, n) || Under(L, k, n)
  {
    var P, Q := stack + [k] + rest, stack + rest;
    var i :| 0 <= i < |P| && Under(L, P[i], n);
    if i != |stack| {
      assert Under(L, Q[if i < |stack| then i else i - 1], n);
    }
  }

  /** The wanted items of a leaf, in order. */
  function Wanted(items: seq<Entry>, wanted: Entry -> bool): seq<Entry> {
    if items == [] then []
    else
      var e, r := items[|items|-1], Wanted(items[..|items|-1], wanted);
      if wanted(e) then r + [e] else r
  }

  lemma {:induction false} WantedFacts(items: seq<Entry>, wanted: Entry -> bool)
    ensures forall e :: e in Wanted(items, wanted) <==> e in items && wanted(e)
    ensures NoDup(items) ==> NoDup(Wanted(items, wanted))
    decreases |items|
  {
    if items != [] {
      var n := |items| - 1;
      assert items == items[..n] + [items[n]];
      WantedFacts(items[..n], wanted);
      assert NoDup(items) ==> NoDup(items[..n]) && items[n] !in items[..n];
    }
  }

  /** Taking the top off the pending nodes. */
  lemma PopTop(L: Cells, stack: seq<RNode>, a: RNode)
    requires Apart(L, stack + [a])
    ensures a in L && Apart(L, stack) && Covered(L, stack + [a], a) && !Covered(L, stack, a)
    ensures forall n :: Covered(L, stack, n) ==> Covered(L, stack + [a], n)
  {
    var P := stack + [a];
    assert P[|stack|] == a && Under(L, P[|stack|], a);
    forall n | Covered(L, stack, n)
      ensures Covered(L, P, n)
    {
      var i :| 0 <= i < |stack| && Under(L, stack[i], n);
      assert Under(L, P[i], n);
    }
    forall i | 0 <= i < |stack|
      ensures stack[i] in L && !Under(L, stack[i], a)
    {
      assert P[i] == stack[i];
    }
    forall i, j, n | 0 <= i < j < |stack| && n in L && Under(L, stack[i], n)
      ensures !Under(L, stack[j], n)
    {
      assert Under(L, P[i], n) && stack[j] == P[j];
    }
  }

  /** What is pending with a leaf on top is the leaf or pending without it. */
  lemma PopLeaf(L: Cells, root: RNode, stack: seq<RNode>, a: RNode, n: RNode)
    requires Shape(L, root, null) && a in L && a.isLeaf && n in L && Covered(L, stack + [a], n) && n != a
    ensures Covered(L, stack, n)
  {
    var P := stack + [a];
    var i :| 0 <= i < |P| && Under(L, P[i], n);
    if i == |stack| {
      LeafAlone(L, root, a, n);
    } else {
      assert Under(L, stack[i], n);
    }
  }

  /** A leaf is scanned item by item. */
  lemma ScanLeaf(L: Cells, root: RNode, table: Table, stack: seq<RNode>, a: RNode, found: seq<Entry>,
                 wanted: Entry -> bool)
    requires Shape(L, root, null) && TableOK(L, table) && Scanning(L, table, stack + [a], found, wanted)
    requires a.isLeaf && a in L
    ensures Scanning(L, table, stack, found + Wanted(L[a].items, wanted), wanted)
    ensures Open(L, stack) <= Open(L, stack + [a]) - {a}
  {
    hide NodeOK, Covered, Apart, Under, Wanted, ValidEntry;
    PopTop(L, stack, a);
    var more := Wanted(L[a].items, wanted);
    WantedFacts(L[a].items, wanted);
    assert HomeOK(L, table, a);
    forall e | e in more
      ensures table[e.id] == (e, a) && e !in found
    {
      assert e in L[a].items;
    }
    NoDupConcat(found, more);
    forall id | id in table && wanted(table[id].0) && table[id].0 !in found
      ensures table[id].0 in more || Covered(L, stack, table[id].1)
    {
      var (e, n) := table[id];
      assert IdOK(L, table, id);
      if n != a {
        PopLeaf(L, root, stack, a, n);
      }
    }
  }

  lemma LeafAlone(L: Cells, root: RNode, a: RNode, n: RNode)
    requires Shape(L, root, null) && a in L && a.isLeaf && n in L && Under(L, a, n)
    ensures n == a
  {
    assert NodeOK(L, root, null, a);
  }

  lemma TopIsOpen(L: Cells, stack: seq<RNode>, a: RNode)
    requires Apart(L, stack + [a])
    ensures a in L && a in Open(L, stack + [a])
  {
    var P := stack + [a];
    assert P[|stack|] == a && Under(L, P[|stack|], a);
  }

  // ---- the answer ----

  datatype HitResult = HitResult(id: string, bounds: Box, data: string)

  function ToHit(e: Entry): HitResult {
    HitResult(e.id, e.bounds, e.data)
  }

  /** What a plain scan of all items answers, in any order: every wanted item, each once. */
  ghost predicate Answers(results: seq<HitResult>, contents: map<string, Entry>, wanted: Entry -> bool) {
    && (forall i :: 0 <= i < |results| ==>
        && results[i].id in contents && wanted(contents[results[i].id])
        && results[i] == ToHit(contents[results[i].id]))
    && (forall i, j :: 0 <= i < j < |results| ==> results[i].id != results[j].id)
    && (forall id :: id in contents && wanted(contents[id]) ==> ToHit(contents[id]) in results)
  }

  ghost function ContentsOf(table: Table): map<string, Entry> {
    map id | id in table :: table[id].0
  }

  function Hits(found: seq<Entry>): (r: seq<HitResult>)
    ensures |r| == |found| && forall i :: 0 <= i < |r| ==> r[i] == ToHit(found[i])
  {
    seq(|found|, i requires 0 <= i < |found| => ToHit(found[i]))
  }

  lemma ScanEnd(L: Cells, table: Table, found: seq<Entry>, wanted: Entry -> bool)
    requires TableOK(L, table) && Scanning(L, table, [], found, wanted)
    ensures Answers(Hits(found), ContentsOf(table), wanted)
  {
    var results := Hits(found);
    forall i | 0 <= i < |found|
      ensures found[i].id in table && table[found[i].id].0 == found[i] && wanted(found[i])
    {
      assert found[i] in found;
    }
    forall id | id in table && wanted(table[id].0)
      ensures ToHit(table[id].0) in results
    {
      var i :| 0 <= i < |found| && found[i] == table[id].0;
      assert results[i] == ToHit(table[id].0);
    }
  }

  /** Nothing to search. */
  lemma NoAnswers(L: Cells, root: RNode, table: Table, wanted: Entry -> bool, query: Box)
    requires Shape(L, root, null) && TableOK(L, table) && Tight(L, {})
    requires forall e :: wanted(e) ==> Intersects(e.bounds, query)
    requires table == map[] || L[root].bounds.None? || !Intersects(L[root].bounds.value, query)
    ensures Answers([], ContentsOf(table), wanted)
  {
    if table != map[] {
      hide Scanning, Answers, Intersects, Shape, TableOK, Tight;
      ScanStart(L, root, table, wanted);
      RootPresent(L, root);
      var none: seq<RNode> := [];
      assert [root] == none + [root] + none && none + none == none;
      ScanSkip(L, root, table, none, root, none, [], wanted, query);
      ScanEnd(L, table, [], wanted);
    }
  }

  lemma RootPresent(L: Cells, root: RNode)
    requires Shape(L, root, null)
    ensures root in L
  {}

  /** Only what is wanted among the items present matters. */
  lemma SameAnswers(results: seq<HitResult>, contents: map<string, Entry>, w1: Entry -> bool, w2: Entry -> bool)
    requires Answers(results, contents, w1)
    requires forall id :: id in contents ==> w1(contents[id]) == w2(contents[id])
    ensures Answers(results, contents, w2)
  {}
}
