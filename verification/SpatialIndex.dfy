/** src/interaction/spatial_index.py: the R-tree on linked nodes with an id-to-leaf side table. */
module SpatialIndexes {
  import opened Options
  import opened PlaneGeometry
  import opened RTreeGeometry
  import opened RTreeShape
  import opened RTreeSearch
  import opened RTreeUpdates

  /** Child i needs the least enlargement to take the entry and, among those, has the least area;
      it is the first such child. */
  ghost predicate BestKid(L: Cells, kids: seq<RNode>, i: nat, b: Box) {
    && i < |kids| && (forall j :: 0 <= j < |kids| ==> kids[j] in L && L[kids[j]].bounds.Some?)
    && (forall j :: 0 <= j < |kids| ==> NoWorse(L[kids[i]].bounds.value, L[kids[j]].bounds.value, b))
    && (forall j :: 0 <= j < i ==> !NoWorse(L[kids[j]].bounds.value, L[kids[i]].bounds.value, b))
  }

  predicate NoWorse(x: Box, y: Box, b: Box) {
    Enlargement(x, b) < Enlargement(y, b) || (Enlargement(x, b) == Enlargement(y, b) && Area(x) <= Area(y))
  }

  /** leaf is reached from n through best children only. */
  ghost predicate Descends(L: Cells, n: RNode, leaf: RNode, b: Box)
    decreases n.height, 1
  {
    if n.isLeaf then leaf == n
    else n in L && exists i: nat :: i < |L[n].kids| && DescendsBy(L, n, i, leaf, b)
  }

  ghost predicate DescendsBy(L: Cells, n: RNode, i: nat, leaf: RNode, b: Box)
    requires n in L && i < |L[n].kids|
    decreases n.height, 0
  {
    var k := L[n].kids[i];
    BestKid(L, L[n].kids, i, b) && k.height < n.height && Descends(L, k, leaf, b)
  }

  function HitBy(x: real, y: real, tolerance: real): Entry -> bool {
    (e: Entry) => HitsEntry(e, x, y, tolerance)
  }

  function Meets(query: Box): Entry -> bool {
    (e: Entry) => Intersects(e.bounds, query)
  }

  /** The entry covers a position within the tolerance of the cursor. */
  ghost function Touching(x: real, y: real, tolerance: real): Entry -> bool {
    (e: Entry) => Touches(e, Spot(x, y), tolerance)
  }

  /** The box of the entry shares a position with the rectangle. */
  ghost function Sharing(query: Box): Entry -> bool {
    (e: Entry) => exists p :: Inside(e.bounds, p) && Inside(query, p)
  }

  function Both(f: Entry -> bool, g: Entry -> bool): Entry -> bool {
    (e: Entry) => f(e) && g(e)
  }

  /** update_bounds. */
  method UpdateBounds(n: RNode, ghost nodes: set<RNode>)
    requires n in nodes && forall k :: k in n.children ==> k in nodes
    modifies n`bounds
    ensures Snap(nodes) == Bounded(old(Snap(nodes)), n)
  {
    hide Cover;
    ghost var L := Snap(nodes);
    if n.isLeaf {
      n.bounds := ComputeBounds(ItemBoxes(n.items));
    } else {
      var boxes: seq<Box> := [];
      for i := 0 to |n.children|
        invariant boxes == KidBoxes(L, n.children[..i])
      {
        assert n.children[..i + 1][..i] == n.children[..i];
        assert n.children[i] in n.children;
        if n.children[i].bounds.Some? {
          boxes := boxes + [n.children[i].bounds.value];
        }
      }
      assert n.children[..|n.children|] == n.children;
      n.bounds := ComputeBounds(boxes);
    }
    assert Snap(nodes) == Bounded(L, n);
  }

  predicate Limits(maxEntries: nat, minEntries: nat) {
    maxEntries >= 2 && 1 <= minEntries <= (maxEntries + 1) / 2
  }

  class SpatialIndex {
    const maxEntries: nat
    const minEntries: nat
    var root: RNode
    var items: Table
    ghost var nodes: set<RNode>

    ghost predicate Valid()
      reads this, nodes
    {
      && root in nodes && Limits(maxEntries, minEntries)
      && Quiet(Snap(nodes), root, items, maxEntries)
    }

    ghost function Contents(): map<string, Entry>
      reads this
    {
      ContentsOf(items)
    }

    constructor Make(maxEntries: nat, minEntries: nat)
      requires Limits(maxEntries, minEntries)
      ensures Valid() && Contents() == map[] && fresh(nodes)
      ensures this.maxEntries == maxEntries && this.minEntries == minEntries
    {
      this.maxEntries, this.minEntries := maxEntries, minEntries;
      var r := new RNode(true, null, 0);
      root, items, nodes := r, map[], {r};
      new;
      EmptyIndex(Snap(nodes), root, maxEntries);
    }

    /** The checks of the constructor; None for its ValueErrors. */
    static method Create(maxEntries: int, minEntries: int) returns (index: Option<SpatialIndex>)
      ensures index.Some? == (maxEntries >= 2 && 1 <= minEntries <= (maxEntries + 1) / 2)
      ensures index.Some? ==> index.value.Valid() && index.value.Contents() == map[] && fresh(index.value)
    {
      if maxEntries < 2 || minEntries < 1 || minEntries > (maxEntries + 1) / 2 {
        return None;
      }
      var made := new SpatialIndex.Make(maxEntries, minEntries);
      index := Some(made);
    }

    /** clear. */
    method Clear()
      requires Valid()
      modifies this
      ensures Valid() && Contents() == map[] && fresh(nodes)
    {
      var r := new RNode(true, null, 0);
      root, items, nodes := r, map[], {r};
      EmptyIndex(Snap(nodes), root, maxEntries);
    }

    /** The bounds property: the least box around all items, None for an empty index. */
    method Bounds() returns (b: Option<Box>)
      requires Valid()
      ensures Valid() && (b.None? <==> Contents() == map[])
      ensures b.Some? ==> forall id :: id in Contents() ==> Encloses(b.value, Contents()[id].bounds)
      ensures b.Some? ==>
        forall c :: (forall id :: id in Contents() ==> Encloses(c, Contents()[id].bounds)) ==> Encloses(c, b.value)
    {
      if items == map[] {
        return None;
      }
      hide Quiet, Encloses;
      b := root.bounds;
      RootEncloses(Snap(nodes), root, items, maxEntries);
      assert exists id :: id in Contents() by {
        var id :| id in items;
        assert id in Contents();
      }
      forall c | forall id :: id in Contents() ==> Encloses(c, Contents()[id].bounds)
        ensures Encloses(c, b.value)
      {
        forall id | id in items
          ensures Encloses(c, items[id].0.bounds)
        {
          assert id in Contents();
        }
        BoundsLeast(Snap(nodes), root, items, maxEntries, root, c);
      }
    }

    // ---- entry points of insertion ----

    method Insert(id: string, bounds: Box, data: string)
      requires Valid() && ValidBox(bounds)
      modifies this, nodes
      ensures Valid() && fresh(nodes - old(nodes))
      ensures Contents() == old(Contents())[id := Entry(id, bounds, data, false, 0.0, 0.0, 0.0)]
    {
      InsertEntry(Entry(id, bounds, data, false, 0.0, 0.0, 0.0));
    }

    /** insert_bar: false stands for the ValueError of reversed coordinates, which changes nothing. */
    method InsertBar(id: string, minX: real, minY: real, maxX: real, maxY: real, data: string) returns (ok: bool)
      requires Valid()
      modifies this, nodes
      ensures Valid() && fresh(nodes - old(nodes)) && ok == (minX <= maxX && minY <= maxY)
      ensures Contents() ==
        if ok then old(Contents())[id := Entry(id, Box(minX, minY, maxX, maxY), data, false, 0.0, 0.0, 0.0)]
                            else old(Contents())
    {
      ok := ValidBox(Box(minX, minY, maxX, maxY));
      if ok {
        Insert(id, Box(minX, minY, maxX, maxY), data);
      }
    }

    /** insert_point: false stands for the ValueError of a negative radius, which changes nothing. */
    method InsertPoint(id: string, x: real, y: real, radius: real, data: string) returns (ok: bool)
      requires Valid()
      modifies this, nodes
      ensures Valid() && fresh(nodes - old(nodes)) && ok == (radius >= 0.0)
      ensures Contents() ==
        if ok then old(Contents())[id := Entry(id, QueryBox(x, y, radius), data, true, x, y, radius)]
                            else old(Contents())
    {
      ok := radius >= 0.0;
      if ok {
        InsertEntry(Entry(id, Box(x - radius, y - radius, x + radius, y + radius), data, true, x, y, radius));
      }
    }

    // ---- searching ----

    /** hit_test: exactly the items that cover a position within the tolerance of the cursor, each
        once; None for the ValueError of a negative tolerance. */
    method HitTest(x: real, y: real, tolerance: real) returns (results: Option<seq<HitResult>>)
      requires Valid()
      ensures Valid() && results.Some? == (tolerance >= 0.0)
      ensures results.Some? ==> Answers(results.value, Contents(), HitBy(x, y, tolerance))
      ensures results.Some? ==> Answers(results.value, Contents(), Touching(x, y, tolerance))
    {
      if tolerance < 0.0 {
        return None;
      }
      var query := QueryBox(x, y, tolerance);
      var r := Search(query, Both(Meets(query), HitBy(x, y, tolerance)));
      forall id | id in items
        ensures HitsEntry(items[id].0, x, y, tolerance) ==> Intersects(items[id].0.bounds, query)
      {
        TableValid(Snap(nodes), root, items, maxEntries, id);
        if HitsEntry(items[id].0, x, y, tolerance) {
          HitNeedsBox(items[id].0, x, y, tolerance);
        }
      }
      SameAnswers(r, Contents(), Both(Meets(query), HitBy(x, y, tolerance)), HitBy(x, y, tolerance));
      HitsTouch(x, y, tolerance, r);
      results := Some(r);
    }

    lemma HitsTouch(x: real, y: real, tolerance: real, results: seq<HitResult>)
      requires Valid() && tolerance >= 0.0 && Answers(results, Contents(), HitBy(x, y, tolerance))
      ensures Answers(results, Contents(), Touching(x, y, tolerance))
    {
      hide Answers, HitsEntry, Touches, Quiet;
      forall id | id in items
        ensures HitBy(x, y, tolerance)(items[id].0) == Touching(x, y, tolerance)(items[id].0)
      {
        TableValid(Snap(nodes), root, items, maxEntries, id);
        HitsIffTouches(items[id].0, x, y, tolerance);
      }
      SameAnswers(results, Contents(), HitBy(x, y, tolerance), Touching(x, y, tolerance));
    }

    lemma MeetingShare(query: Box, results: seq<HitResult>)
      requires Valid() && ValidBox(query) && Answers(results, Contents(), Meets(query))
      ensures Answers(results, Contents(), Sharing(query))
    {
      hide Answers, Intersects, Inside, Quiet;
      forall id | id in items
        ensures Meets(query)(items[id].0) == Sharing(query)(items[id].0)
      {
        TableValid(Snap(nodes), root, items, maxEntries, id);
        IntersectsIffShared(items[id].0.bounds, query);
      }
      SameAnswers(results, Contents(), Meets(query), Sharing(query));
    }

    /** query_rect: exactly the items whose box shares a position with the rectangle, each once; None for the
        ValueError of a reversed rectangle. */
    method QueryRect(query: Box) returns (results: Option<seq<HitResult>>)
      requires Valid()
      ensures Valid() && results.Some? == (query.minX <= query.maxX && query.minY <= query.maxY)
      ensures results.Some? ==> Answers(results.value, Contents(), Sharing(query))
    {
      if !ValidBox(query) {
        return None;
      }
      var r := Search(query, Meets(query));
      MeetingShare(query, r);
      results := Some(r);
    }

    /** The loop that hit_test and query_rect share. */
    method Search(query: Box, wanted: Entry -> bool) returns (results: seq<HitResult>)
      requires Valid() && forall e :: wanted(e) ==> Intersects(e.bounds, query)
      ensures Answers(results, Contents(), wanted) && Valid()
    {
      ghost var L := Snap(nodes);
      hide Quiet, Scanning, Answers, Intersects, Covered;
      if items == map[] || root.bounds.None? || !Intersects(root.bounds.value, query) {
        QuietParts(L, root, items, maxEntries);
        NoAnswers(L, root, items, wanted, query);
        return [];
      }
      var stack, found: seq<Entry> := [root], [];
      QuietParts(L, root, items, maxEntries);
      ScanStart(L, root, items, wanted);
      while stack != []
        invariant Scanning(L, items, stack, found, wanted)
        decreases Open(L, stack)
      {
        var node, rest := stack[|stack| - 1], stack[..|stack| - 1];
        assert stack == rest + [node];
        stack, found := Visit(node, rest, found, query, wanted);
      }
      ScanEnd(L, items, found, wanted);
      results := Hits(found);
    }

    /** One turn of the search loop. */
    method Visit(node: RNode, rest: seq<RNode>, found: seq<Entry>, query: Box, wanted: Entry -> bool)
      returns (stack: seq<RNode>, all: seq<Entry>)
      requires Valid() && forall e :: wanted(e) ==> Intersects(e.bounds, query)
      requires Scanning(Snap(nodes), items, rest + [node], found, wanted)
      ensures Valid() && Scanning(Snap(nodes), items, stack, all, wanted)
      ensures Open(Snap(nodes), stack) < Open(Snap(nodes), rest + [node])
    {
      ghost var L := Snap(nodes);
      hide Scanning, Intersects, Open, Quiet, Wanted, Covered, Apart;
      QuietParts(L, root, items, maxEntries);
      assert node in L && node in Open(L, rest + [node]) by {
        PendingApart(L, items, rest + [node], found, wanted);
        TopIsOpen(L, rest, node);
      }
      stack, all := rest, found;
      if node.isLeaf {
        var matches := Matches(node.items, query, wanted);
        all := found + matches;
        ScanLeaf(L, root, items, rest, node, found, wanted);
      } else {
        stack := PushKids(node, rest, found, query, wanted);
      }
    }

    method Matches(s: seq<Entry>, query: Box, wanted: Entry -> bool) returns (r: seq<Entry>)
      requires forall e :: wanted(e) ==> Intersects(e.bounds, query)
      ensures r == Wanted(s, wanted)
    {
      hide Intersects;
      r := [];
      for i := 0 to |s|
        invariant r == Wanted(s[..i], wanted)
      {
        assert s[..i + 1][..i] == s[..i];
        if Intersects(s[i].bounds, query) && wanted(s[i]) {
          r := r + [s[i]];
        }
      }
      assert s[..|s|] == s;
    }

    /** Only children whose bounds meet the query are searched. */
    method PushKids(node: RNode, rest: seq<RNode>, found: seq<Entry>, query: Box, wanted: Entry -> bool)
      returns (stack: seq<RNode>)
      requires Valid() && forall e :: wanted(e) ==> Intersects(e.bounds, query)
      requires node in nodes && !node.isLeaf && Scanning(Snap(nodes), items, rest + [node], found, wanted)
      ensures Valid() && Scanning(Snap(nodes), items, stack, found, wanted)
      ensures Open(Snap(nodes), stack) <= Open(Snap(nodes), rest + [node]) - {node}
    {
      ghost var L := Snap(nodes);
      hide Scanning, Intersects, Open, Quiet, Wanted, Covered, Apart;
      QuietParts(L, root, items, maxEntries);
      stack := rest;
      var kids := node.children;
      ScanInner(L, root, items, rest, node, found, wanted);
      for i := 0 to |kids|
        invariant Scanning(L, items, stack + kids[i..], found, wanted)
        invariant Open(L, stack + kids[i..]) <= Open(L, rest + [node]) - {node}
      {
        var child := kids[i];
        assert child in nodes by {
          PendingApart(L, items, stack + kids[i..], found, wanted);
          assert (stack + kids[i..])[|stack|] == child;
        }
        assert stack + kids[i..] == stack + [child] + kids[i + 1..];
        if child.bounds.Some? && Intersects(child.bounds.value, query) {
          stack := stack + [child];
        } else {
          ScanSkip(L, root, items, stack, child, kids[i + 1..], found, wanted, query);
        }
      }
      assert stack + kids[|kids|..] == stack;
    }

    // ---- removal ----

    /** remove: the item with the given id goes, and nothing else. */
    method Remove(id: string) returns (found: bool)
      requires Valid()
      modifies this, nodes
      ensures Valid() && nodes <= old(nodes) && found == (id in old(Contents()))
      ensures Contents() == old(Contents()) - {id}
    {
      hide Pruning, Path, Shape, Quiet, Bounded;
      if id !in items {
        assert Contents() - {id} == Contents();
        return false;
      }
      var leaf := Unlist(id);
      assert Contents() == old(Contents()) - {id};
      ghost var S := Path(old(Snap(nodes)), root, leaf);
      PruneUp(leaf, S);
      CollapseRoot();
      found := true;
    }

    /** The item leaves its leaf and the table. */
    method Unlist(id: string) returns (leaf: RNode)
      requires Valid() && id in items
      modifies this`items, nodes
      ensures leaf in nodes && leaf.isLeaf && items == old(items) - {id}
      ensures Shape(old(Snap(nodes)), root, null)
      ensures Pruning(Snap(nodes), root, items, maxEntries, leaf, Path(old(Snap(nodes)), root, leaf))
    {
      hide Quiet, Pruning;
      var (entry, home) := items[id];
      leaf := home;
      RemoveStart(Snap(nodes), root, items, maxEntries, id);
      ghost var L := Snap(nodes);
      leaf.items := Without(leaf.items, entry);
      items := items - {id};
      assert Snap(nodes) == L[leaf := L[leaf].(items := Without(L[leaf].items, entry))];
    }

    method PruneUp(leaf: RNode, ghost S: set<RNode>)
      requires leaf in nodes && root in nodes && Pruning(Snap(nodes), root, items, maxEntries, leaf, S)
      modifies this`nodes, nodes
      ensures nodes <= old(nodes) && root in nodes && Pruning(Snap(nodes), root, items, maxEntries, null, {})
    {
      var current: RNode?, T := leaf, S;
      while current != null
        invariant nodes <= old(nodes) && root in nodes && (current != null ==> current in nodes)
        invariant Pruning(Snap(nodes), root, items, maxEntries, current, T)
        decreases T
      {
        hide Pruning;
        current, T := PruneStep(current, T);
      }
    }

    /** One step of the way up: bounds first, then an empty node leaves its parent. */
    method PruneStep(current: RNode, ghost S: set<RNode>) returns (parent: RNode?, ghost T: set<RNode>)
      requires current in nodes && root in nodes && Pruning(Snap(nodes), root, items, maxEntries, current, S)
      modifies this`nodes, nodes
      ensures T < S && nodes <= old(nodes) && root in nodes
      ensures parent != null ==> parent in nodes
      ensures Pruning(Snap(nodes), root, items, maxEntries, parent, T)
    {
      hide Pruning, Pruned, Bounded;
      ghost var L := Snap(nodes);
      PruneBounds(L, root, items, maxEntries, current, S);
      UpdateBounds(current, nodes);
      T := S - {current};
      parent := current.parent;
      ghost var M := Snap(nodes);
      var isEmpty := if current.isLeaf then current.items == [] else current.children == [];
      if isEmpty && current != root {
        PruneEmpty(M, root, items, maxEntries, current, S);
        Detach(current, parent);
      } else {
        PruneKeep(M, root, items, maxEntries, current, S);
      }
    }

    method Detach(current: RNode, parent: RNode?)
      requires current in nodes && parent != null && parent in nodes && parent != current && current in parent.children
      modifies current`parent, parent`children, this`nodes
      ensures nodes == old(nodes) - {current}
      ensures var M := old(Snap(nodes));
        Snap(nodes) == (M - {current})[parent := M[parent].(kids := Without(M[parent].kids, current))]
    {
      hide Without;
      ghost var M := Snap(nodes);
      if parent != null && current in parent.children {
        parent.children := Without(parent.children, current);
      }
      ghost var P := Snap(nodes);
      assert P == M[parent := M[parent].(kids := Without(M[parent].kids, current))];
      Forget(current);
    }

    method Forget(current: RNode)
      modifies current`parent, this`nodes
      ensures nodes == old(nodes) - {current} && Snap(nodes) == old(Snap(nodes)) - {current}
    {
      nodes := nodes - {current};
      current.parent := null;
    }

    /** A root hands over to its single child. */
    method HandOver()
      requires root in nodes && !root.isLeaf && |root.children| == 1
      requires Pruning(Snap(nodes), root, items, maxEntries, null, {})
      modifies this`root, this`nodes, nodes
      ensures root in nodes && nodes <= old(nodes) && root.height < old(root).height
      ensures Pruning(Snap(nodes), root, items, maxEntries, null, {})
    {
      hide Pruning;
      ghost var L := Snap(nodes);
      RootKids(L, root, items, maxEntries);
      var kid := root.children[0];
      ghost var top := root;
      root := kid;
      kid.parent := null;
      nodes := nodes - {top};
      CollapseStep(L, top, items, maxEntries, kid, Snap(nodes));
    }

    /** A root with a single child hands over to it. The branch for a root without children is
        never taken: two children or more were there before, and at most one was pruned. */
    method CollapseRoot()
      requires root in nodes && Limits(maxEntries, minEntries)
      requires Pruning(Snap(nodes), root, items, maxEntries, null, {})
      modifies this`root, this`nodes, nodes
      ensures Valid() && nodes <= old(nodes)
    {
      hide Pruning, Quiet, Bounded;
      while !root.isLeaf
        invariant root in nodes && nodes <= old(nodes)
        invariant Pruning(Snap(nodes), root, items, maxEntries, null, {})
        decreases root.height
      {
        if |root.children| == 1 {
          HandOver();
        } else {
          break;
        }
      }
      ghost var M := Snap(nodes);
      RootKids(M, root, items, maxEntries);
      UpdateBounds(root, nodes);
      SettledRoot(M, root, items, maxEntries);
    }

    // ---- insertion ----

    /** The table entries of the items of n. */
    method Rehouse(n: RNode)
      requires NoDupIds(n.items)
      modifies this`items
      ensures Rehoused(old(items), items, n.items, n)
    {
      for i := 0 to |n.items|
        invariant Rehoused(old(items), items, n.items[..i], n)
      {
        var e := n.items[i];
        items := items[e.id := (e, n)];
      }
    }

    /** _insert_entry: an item with the same id is replaced. */
    method InsertEntry(entry: Entry)
      requires Valid() && ValidEntry(entry)
      modifies this, nodes
      ensures Valid() && fresh(nodes - old(nodes)) && Contents() == old(Contents())[entry.id := entry]
    {
      hide Quiet, ValidEntry, Limits;
      assert entry.id !in items ==> Contents() == old(Contents()) - {entry.id};
      if entry.id in items {
        var _ := Remove(entry.id);
      }
      InsertNew(entry);
    }

    method InsertNew(entry: Entry)
      requires Valid() && ValidEntry(entry) && entry.id !in items
      modifies this, nodes
      ensures Valid() && fresh(nodes - old(nodes)) && Contents() == old(Contents())[entry.id := entry]
    {
      hide Quiet, Enlisted, Adjusting, ValidEntry, Descends, Limits, Snap;
      var leaf := ChooseLeaf(root, entry.bounds);
      ghost var S := Enlist(leaf, entry);
      SettleLeaf(leaf, S);
    }

    method SettleLeaf(leaf: RNode, ghost S: set<RNode>)
      requires Limits(maxEntries, minEntries) && root in nodes && leaf in nodes && leaf.isLeaf
      requires Enlisted(Snap(nodes), root, items, maxEntries, leaf, S)
      modifies this, nodes
      ensures Valid() && fresh(nodes - old(nodes)) && Contents() == old(Contents())
    {
      hide Quiet, Enlisted, Adjusting, Limits;
      var sib: RNode? := null;
      if |leaf.items| > maxEntries {
        sib := SplitFull(leaf, S);
      } else {
        LeafFits(Snap(nodes), root, items, maxEntries, leaf, S);
      }
      AdjustTree(leaf, sib, S);
    }

    /** The item joins its leaf and the table. */
    method Enlist(leaf: RNode, entry: Entry) returns (ghost S: set<RNode>)
      requires Valid() && leaf in nodes && leaf.isLeaf && ValidEntry(entry) && entry.id !in items
      modifies leaf`items, this`items
      ensures items == old(items)[entry.id := (entry, leaf)]
      ensures Enlisted(Snap(nodes), root, items, maxEntries, leaf, S)
    {
      hide Enlisted, Quiet, ValidEntry, Limits, Chain;
      ghost var L := Snap(nodes);
      S := QuietPath(L, root, items, maxEntries, leaf);
      EnlistSettled(L, root, items, maxEntries, leaf, entry, S);
      leaf.items := leaf.items + [entry];
      items := items[entry.id := (entry, leaf)];
      assert Snap(nodes) == L[leaf := L[leaf].(items := L[leaf].items + [entry])];
    }

    /** A leaf that is one over the limit is split and its items are listed anew. */
    method SplitFull(leaf: RNode, ghost S: set<RNode>) returns (sib: RNode)
      requires Limits(maxEntries, minEntries) && root in nodes && leaf in nodes && leaf.isLeaf
      requires |leaf.items| > maxEntries
      requires Enlisted(Snap(nodes), root, items, maxEntries, leaf, S)
      modifies this`items, this`nodes, nodes
      ensures fresh(nodes - old(nodes)) && old(nodes) <= nodes && leaf in nodes
      ensures Contents() == old(Contents())
      ensures Adjusting(Snap(nodes), root, items, maxEntries, leaf, sib, S)
    {
      hide Enlisted, Adjusting, Limits, Shape, Sized, Filled, Tight, ParentsIn, SplitOf, Rehoused;
      ghost var L, before := Snap(nodes), items;
      EnlistedParts(L, root, items, maxEntries, leaf, S);
      sib := SplitNode(leaf, S);
      ghost var M := Snap(nodes);
      SplitIdsApart(L, root, items, maxEntries, leaf, sib, S, M);
      Rehouse(leaf);
      ghost var mid := items;
      Rehouse(sib);
      FullSettled(L, root, before, maxEntries, leaf, sib, S, M, mid, items);
    }

    /** _choose_leaf. The branches for an inner node without children and for a child without
        bounds are never taken. */
    method ChooseLeaf(node: RNode, b: Box) returns (leaf: RNode)
      requires Valid() && node in nodes
      ensures Valid() && leaf in nodes && leaf.isLeaf && Descends(Snap(nodes), node, leaf, b)
      decreases node.height
    {
      hide Quiet, BestKid;
      if node.isLeaf {
        return node;
      }
      QuietKids(Snap(nodes), root, items, maxEntries, node);
      var i := PickChild(node.children, b, nodes);
      assert node.children[i] in node.children;
      leaf := ChooseLeaf(node.children[i], b);
      assert DescendsBy(Snap(nodes), node, i, leaf, b);
    }

    method PickChild(kids: seq<RNode>, b: Box, ghost nodes: set<RNode>) returns (best: nat)
      requires kids != [] && forall k :: k in kids ==> k in nodes && k.bounds.Some?
      ensures best < |kids| && BestKid(Snap(nodes), kids, best, b)
      ensures forall j :: 0 <= j < |kids| ==>
        var x, y := kids[best].bounds.value, kids[j].bounds.value;
        && Enlargement(x, b) <= Enlargement(y, b) && (Enlargement(x, b) == Enlargement(y, b) ==> Area(x) <= Area(y))
        && (j < best ==> Enlargement(x, b) < Enlargement(y, b) || Area(x) < Area(y))
    {
      hide Enlargement, Area;
      assert forall j :: 0 <= j < |kids| ==> kids[j] in kids;
      best := 0;
      var minEnlargement, minArea := Enlargement(kids[0].bounds.value, b), Area(kids[0].bounds.value);
      for i := 1 to |kids|
        invariant best < i && minEnlargement == Enlargement(kids[best].bounds.value, b)
        invariant minArea == Area(kids[best].bounds.value)
        invariant forall j :: 0 <= j < i ==> NoWorse(kids[best].bounds.value, kids[j].bounds.value, b)
        invariant forall j :: 0 <= j < best ==> !NoWorse(kids[j].bounds.value, kids[best].bounds.value, b)
      {
        var enl, area := Enlargement(kids[i].bounds.value, b), Area(kids[i].bounds.value);
        if enl < minEnlargement || (enl == minEnlargement && area < minArea) {
          best, minEnlargement, minArea := i, enl, area;
        }
      }
    }

    /** _adjust_tree: bounds are updated up to the root, and each split hands its new sibling to
        the parent, which may split in turn. */
    method AdjustTree(node: RNode, sib: RNode?, ghost S: set<RNode>)
      requires Limits(maxEntries, minEntries) && root in nodes
      requires Adjusting(Snap(nodes), root, items, maxEntries, node, sib, S)
      modifies this`root, this`nodes, nodes
      ensures Valid() && fresh(nodes - old(nodes))
      decreases root.height - node.height
    {
      hide Adjusting, Adjusted, Quiet, Limits, Bounded;
      Refresh(node, sib, S);
      if node == root {
        if sib != null {
          GrowRoot(sib, S);
        } else {
          AdjustEnd(Snap(nodes), root, items, maxEntries, S);
        }
        return;
      }
      AdjustParent(Snap(nodes), root, items, maxEntries, node, sib, S);
      var parent := node.parent;
      var parentSib: RNode? := null;
      if sib != null {
        parentSib := Attach(node, parent, sib, S);
      }
      AdjustTree(parent, parentSib, S - {node});
    }

    /** The bounds of both halves are brought up to date. */
    method Refresh(node: RNode, sib: RNode?, ghost S: set<RNode>)
      requires Adjusting(Snap(nodes), root, items, maxEntries, node, sib, S)
      modifies nodes
      ensures node in nodes && (sib != null ==> sib in nodes)
      ensures Adjusted(Snap(nodes), root, items, maxEntries, node, sib, S)
    {
      hide Adjusting, Adjusted, Bounded;
      AdjustStart(Snap(nodes), root, items, maxEntries, node, sib, S);
      UpdateBounds(node, nodes);
      if sib != null {
        UpdateBounds(sib, nodes);
      }
    }

    /** A split root gets a new root above both halves. */
    method GrowRoot(sib: RNode, ghost S: set<RNode>)
      requires Limits(maxEntries, minEntries) && root in nodes && sib in nodes
      requires Adjusted(Snap(nodes), root, items, maxEntries, root, sib, S)
      modifies this`root, this`nodes, nodes
      ensures Valid() && fresh(nodes - old(nodes))
    {
      hide Adjusted, Quiet, Bounded;
      ghost var L := Snap(nodes);
      SibApart(L, root, items, maxEntries, root, sib, S);
      var top, M := Crown(sib);
      GrowSettled(L, root, items, maxEntries, sib, top, S, M);
      root := top;
    }

    method Crown(sib: RNode) returns (top: RNode, ghost M: Cells)
      requires root in nodes && sib in nodes && root != sib
      modifies this`nodes, root`parent, sib`parent
      ensures fresh(top) && nodes == old(nodes) + {top} && !top.isLeaf && top.height == root.height + 1
      ensures var L := old(Snap(nodes));
        M == L[root := L[root].(parent := top)][sib := L[sib].(parent := top)][top := Cell(null, [], [root, sib], None)]
      ensures Snap(nodes) == Bounded(M, top)
    {
      hide Bounded, Snap;
      top := Join(sib);
      M := Snap(nodes);
      UpdateBounds(top, nodes);
    }

    method Join(sib: RNode) returns (top: RNode)
      requires root in nodes && sib in nodes && root != sib
      modifies this`nodes, root`parent, sib`parent
      ensures fresh(top) && nodes == old(nodes) + {top} && !top.isLeaf && top.height == root.height + 1
      ensures top.children == [root, sib]
      ensures var L := old(Snap(nodes));
        Snap(nodes)
          == L[root := L[root].(parent := top)][sib := L[sib].(parent := top)][top := Cell(null, [], [root, sib], None)]
    {
      top := new RNode(false, null, root.height + 1);
      top.children := [root, sib];
      root.parent, sib.parent := top, top;
      nodes := nodes + {top};
    }

    /** The sibling joins the children of its parent, which is split when that is one too many. */
    method Attach(node: RNode, parent: RNode, sib: RNode, ghost S: set<RNode>) returns (parentSib: RNode?)
      requires Limits(maxEntries, minEntries) && root in nodes && sib in nodes && node in nodes && parent in nodes
      requires node != root && node.parent == parent
      requires Adjusted(Snap(nodes), root, items, maxEntries, node, sib, S)
      modifies this`nodes, nodes
      ensures Adjusting(Snap(nodes), root, items, maxEntries, parent, parentSib, S - {node})
      ensures fresh(nodes - old(nodes)) && old(nodes) <= nodes
    {
      hide Adjusted, Adjusting, Attached, Shape, Sized, Filled, Tight, SplitOf, ParentsIn;
      ghost var L, T := Snap(nodes), S - {node};
      AdjustParent(L, root, items, maxEntries, node, sib, S);
      SibApart(L, root, items, maxEntries, node, sib, S);
      sib.parent := parent;
      parent.children := parent.children + [sib];
      ghost var M := Snap(nodes);
      AttachSettled(L, root, items, maxEntries, node, sib, S, parent, M);
      AttachedParts(M, root, items, maxEntries, parent, T);
      parentSib := null;
      if |parent.children| > maxEntries {
        parentSib := SplitNode(parent, T);
        AttachSplit(M, root, items, maxEntries, parent, parentSib, Snap(nodes), T);
      } else {
        AttachFits(M, root, items, maxEntries, parent, T);
      }
    }

    // ---- splitting ----

    /** _split_node: node keeps one group, the new sibling gets the other. */
    method SplitNode(node: RNode, ghost S: set<RNode>) returns (sib: RNode)
      requires Limits(maxEntries, minEntries) && node in nodes && Overfull(node) && node in S
      requires Shape(Snap(nodes), root, null) && Sized(Snap(nodes), maxEntries, node)
      requires Filled(Snap(nodes), root, null) && Tight(Snap(nodes), S) && ParentsIn(Snap(nodes), node, S)
      requires forall k :: k in node.children ==> k in nodes && k.bounds.Some?
      modifies this`nodes, nodes
      ensures fresh(sib) && nodes == old(nodes) + {sib} && SplitOf(old(Snap(nodes)), node, sib, Snap(nodes))
      ensures Shape(Snap(nodes), root, sib) && Sized(Snap(nodes), maxEntries, null)
      ensures Filled(Snap(nodes), root, null) && Tight(Snap(nodes), S)
      ensures Holds(Snap(nodes), node)
    {
      hide Shape, Sized, Filled, Tight, SplitOf, Bounded, ParentsIn;
      ghost var L := Snap(nodes);
      NotOwnChild(L, root, node);
      sib := Halve(node);
      ghost var M := Snap(nodes);
      SplitSettled(L, root, maxEntries, node, sib, M, S);
      KidsPresent(M, root, sib);
      UpdateBounds(node, nodes);
      UpdateBounds(sib, nodes);
    }

    method Halve(node: RNode) returns (sib: RNode)
      requires Limits(maxEntries, minEntries) && node in nodes && Overfull(node)
      requires node !in node.children && forall k :: k in node.children ==> k in nodes && k.bounds.Some?
      modifies this`nodes, nodes
      ensures fresh(sib) && nodes == old(nodes) + {sib} && SplitOf(old(Snap(nodes)), node, sib, Snap(nodes))
      ensures forall n :: n in old(nodes) ==> n.bounds == old(n.bounds)
      ensures HalvesFit(Snap(nodes), node, sib, maxEntries)
    {
      hide ItemsSplit, KidsSplit;
      if node.isLeaf {
        sib := SplitItems(node);
      } else {
        sib := SplitChildren(node);
      }
    }

    predicate Overfull(node: RNode)
      reads node
    {
      if node.isLeaf then |node.items| == maxEntries + 1 else |node.children| == maxEntries + 1
    }

    method Groups<E>(all: seq<E>, elements: seq<(E, Box)>) returns (first: seq<E>, second: seq<E>)
      requires Limits(maxEntries, minEntries) && |all| == maxEntries + 1
      requires |elements| == |all| && forall i :: 0 <= i < |all| ==> elements[i].0 == all[i]
      ensures multiset(first) + multiset(second) == multiset(all) && forall x :: x in second ==> x in all
      ensures minEntries <= |first| <= maxEntries && minEntries <= |second| <= maxEntries
    {
      var g1, g2, _, _ := SplitElements(elements, minEntries);
      assert Firsts(elements) == all;
      FirstsShared(elements, g1, g2);
      SharedCount(elements, g1, g2);
      first, second := Firsts(g1), Firsts(g2);
      assert forall x :: x in second ==> x in multiset(second) && x in multiset(all);
    }

    /** _split_node on a leaf. */
    method SplitItems(node: RNode) returns (sib: RNode)
      requires node in nodes && node.isLeaf && Limits(maxEntries, minEntries) && |node.items| == maxEntries + 1
      modifies node`items, this`nodes
      ensures fresh(sib) && nodes == old(nodes) + {sib} && sib.isLeaf && sib.height == node.height
      ensures ItemsSplit(old(Snap(nodes)), node, sib, Snap(nodes))
      ensures minEntries <= |node.items| <= maxEntries && minEntries <= |sib.items| <= maxEntries
      ensures forall n :: n in old(nodes) ==> n.bounds == old(n.bounds)
    {
      ghost var L := Snap(nodes);
      var all := node.items;
      sib := new RNode(true, node.parent, node.height);
      var elements := seq(|all|, i requires 0 <= i < |all| => (all[i], all[i].bounds));
      node.items, sib.items := Groups(all, elements);
      nodes := nodes + {sib};
    }

    /** _split_node on an inner node: the new sibling takes over as parent of its share. */
    method SplitChildren(node: RNode) returns (sib: RNode)
      requires node in nodes && !node.isLeaf && Limits(maxEntries, minEntries) && |node.children| == maxEntries + 1
      requires node !in node.children && forall k :: k in node.children ==> k in nodes && k.bounds.Some?
      modifies this`nodes, nodes
      ensures fresh(sib) && nodes == old(nodes) + {sib} && !sib.isLeaf && sib.height == node.height
      ensures KidsSplit(old(Snap(nodes)), node, sib, Snap(nodes))
      ensures minEntries <= |node.children| <= maxEntries && minEntries <= |sib.children| <= maxEntries
      ensures forall n :: n in old(nodes) ==> n.bounds == old(n.bounds)
    {
      hide Limits, KidsSplit;
      ghost var L := Snap(nodes);
      sib := DivideChildren(node);
      Adopt(sib);
      nodes := nodes + {sib};
      KidsSplitIs(L, node, sib, Snap(nodes));
    }

    method DivideChildren(node: RNode) returns (sib: RNode)
      requires node in nodes && !node.isLeaf && Limits(maxEntries, minEntries) && |node.children| == maxEntries + 1
      requires forall k :: k in node.children ==> k.bounds.Some?
      modifies node`children
      ensures fresh(sib) && !sib.isLeaf && sib.height == node.height && sib.parent == node.parent && sib.items == []
      ensures multiset(node.children) + multiset(sib.children) == multiset(old(node.children))
      ensures forall k :: k in sib.children ==> k in old(node.children)
      ensures minEntries <= |node.children| <= maxEntries && minEntries <= |sib.children| <= maxEntries
    {
      var all := node.children;
      var elements := Boxed(all);
      sib := new RNode(false, node.parent, node.height);
      node.children, sib.children := Groups(all, elements);
    }

    method Boxed(kids: seq<RNode>) returns (r: seq<(RNode, Box)>)
      requires forall k :: k in kids ==> k.bounds.Some?
      ensures |r| == |kids| && forall i :: 0 <= i < |r| ==> r[i] == (kids[i], kids[i].bounds.value)
    {
      r := [];
      for i := 0 to |kids|
        invariant |r| == i && forall j :: 0 <= j < i ==> r[j] == (kids[j], kids[j].bounds.value)
      {
        assert kids[i] in kids;
        r := r + [(kids[i], kids[i].bounds.value)];
      }
    }

    method Adopt(sib: RNode)
      modifies (set k | k in sib.children)`parent
      ensures forall k :: k in sib.children ==> k.parent == sib
    {
      var kids := sib.children;
      for i := 0 to |kids|
        invariant forall j :: 0 <= j < i ==> kids[j].parent == sib
      {
        kids[i].parent := sib;
      }
    }
  }
}
