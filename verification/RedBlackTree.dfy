/** src/orderbook/rb_tree.py: the red-black tree on linked nodes with parent pointers. */
module RedBlackTrees {
  import opened RbShape
  import opened RbLinks
  import opened RbEdits
  import opened KeyedSeq
  import opened Options
  import opened Sequences

  method SetColor(n: RBNode, color: Color, ghost N: set<RBNode>)
    requires n in N
    modifies n`color
    ensures Snap(N) == Tint(old(Snap(N)), n, color)
  {
    n.color := color;
  }

  lemma ColorOf(n: RBNode, N: set<RBNode>)
    requires n in N
    ensures Snap(N)[n].color == n.color
  {
  }

  lemma FocusColor(N: set<RBNode>, t: Tree)
    requires t.Node? ==> t.id in Snap(N) && Snap(N)[t.id].color == t.color
    ensures t.Node? ==> t.id in N && t.id.color == t.color
  {
  }

  lemma ChildrenOf(parent: RBNode, N: set<RBNode>, t: Tree, c: Ctx)
    requires c.Frame? && parent == c.id && parent in N && Snap(N)[parent] == FrameCell(c, RootId(t))
    ensures parent.left == if c.onLeft then RootId(t) else RootId(c.sib)
    ensures parent.right == if c.onLeft then RootId(c.sib) else RootId(t)
  {
  }

  lemma ParentColor(L: Cells, t: Tree, c: Ctx)
    requires c.Frame? && c.id in L && L[c.id] == FrameCell(c, RootId(t))
    ensures L[c.id].color == c.color
  {
  }

  class RedBlackTree {
    var root: RBNode?
    var size: nat
    ghost var T: Tree
    ghost var nodes: set<RBNode>

    ghost predicate Valid()
      reads this, nodes
    {
      && At(Snap(nodes), root, T, Top)
      && size == Size(T) && RedBlack(T) && Sorted(Items(T))
    }

    /** The entries in key order. */
    ghost function Entries(): seq<Entry>
      reads this
    {
      Items(T)
    }

    /** The key-value map the tree stands for. */
    ghost function Contents(): map<real, real>
      reads this
    {
      ToMap(Items(T))
    }

    constructor ()
      ensures Valid() && Contents() == map[] && nodes == {}
    {
      root, size, T, nodes := null, 0, Nil, {};
    }

    method Clear()
      requires Valid()
      modifies this
      ensures Valid() && Contents() == map[] && nodes == {}
    {
      root, size, T, nodes := null, 0, Nil, {};
    }

    /** The node with this key, with the focus the search leaves there, or None and the gap. */
    method FindNode(key: real) returns (node: RBNode?, ghost t: Tree, ghost c: Ctx)
      requires Valid()
      ensures Valid() && Searching(Snap(nodes), root, T, t, c, key)
      ensures node == RootId(t) && (t.Node? ==> t.key == key)
      ensures node != null <==> key in Contents()
      ensures node != null ==> node in nodes && node.value == Contents()[key]
    {
      hide At, Searching, Items, Zip, Balanced, Sorted;
      ghost var N := nodes;
      node, t, c := root, T, Top;
      SearchStart(Snap(N), root, T, key);
      RootIsTop(Snap(N), root, T, Top);
      while node != null
        invariant Searching(Snap(N), root, T, t, c, key) && node == RootId(t)
        decreases t
      {
        SearchNode(Snap(N), root, T, t, c, key);
        if key < node.key {
          SearchStep(Snap(N), root, T, t, c, key, true);
          node, t, c := node.left, t.left, Enter(c, t, true);
        } else if key > node.key {
          SearchStep(Snap(N), root, T, t, c, key, false);
          node, t, c := node.right, t.right, Enter(c, t, false);
        } else {
          break;
        }
      }
      SearchNode(Snap(N), root, T, t, c, key);
      SearchEnd(Snap(N), root, T, t, c, key);
    }

    method Contains(key: real) returns (found: bool)
      requires Valid()
      ensures found <==> key in Contents()
    {
      var node, _, _ := FindNode(key);
      found := node != null;
    }

    /** get; None for the KeyError of a missing key without a default. */
    method Get(key: real, default: Option<real>) returns (value: Option<real>)
      requires Valid()
      ensures value == if key in Contents() then Some(Contents()[key]) else default
    {
      var node, _, _ := FindNode(key);
      value := if node != null then Some(node.value) else default;
    }

    /** insert into the empty tree. */
    method PlantRoot(key: real, value: real)
      requires Valid() && root == null
      modifies this
      ensures Valid() && fresh(nodes) && Contents() == old(Contents())[key := value]
    {
      NilRoot(Snap(nodes), T);
      root := new RBNode(key, value, Black, null);
      size := 1;
      T, nodes := Node(root, Black, key, value, Nil, Nil), {root};
      SingleNode(Snap(nodes), T, key, value);
    }

    /** insert on an existing key. */
    method SetValue(node: RBNode, value: real, ghost t: Tree, ghost c: Ctx)
      requires Valid() && t.Node? && node == t.id && Searching(Snap(nodes), root, T, t, c, t.key)
      modifies this`T, nodes
      ensures Valid() && nodes == old(nodes) && Contents() == old(Contents())[t.key := value]
    {
      hide At, Searching, Items, Zip, Balanced, Sorted, ToMap;
      ghost var N := nodes;
      SearchNode(Snap(N), root, T, t, c, t.key);
      ghost var L := Snap(N);
      RevaluedAt(L, root, T, t, c, t.key, value);
      T := Zip(c, t.(value := value));
      node.value := value;
      assert Snap(N) == L[t.id := L[t.id].(value := value)];
    }

    /** insert, the new node: a red leaf below parent. */
    method LinkLeaf(parent: RBNode, key: real, value: real, ghost N: set<RBNode>, ghost c: Ctx) returns (node: RBNode)
      requires At(Snap(N), root, Nil, c) && c.Frame? && parent == c.id && c.id in N
      requires (if c.onLeft then key < c.key else key > c.key) && Snap(N)[c.id] == FrameCell(c, null)
      modifies parent
      ensures fresh(node) && At(Snap(N + {node}), root, Node(node, Red, key, value, Nil, Nil), c)
    {
      hide At, Items, Zip, Balanced;
      ghost var L: Cells := Snap(N);
      node := new RBNode(key, value, Red, parent);
      GraftedAt(L, root, c, node, key, value);
      if key < parent.key {
        parent.left := node;
      } else {
        parent.right := node;
      }
      assert Snap(N + {node}) == L[c.id := FrameCell(c, node)][node := Cell(key, value, Red, c.id, null, null)];
    }

    /** insert of a new key: link a red leaf below parent and repair. */
    method AddLeaf(parent: RBNode, key: real, value: real, ghost c: Ctx)
      requires Valid() && c.Frame? && parent == c.id && Searching(Snap(nodes), root, T, Nil, c, key)
      modifies this, nodes
      ensures Valid() && fresh(nodes - old(nodes)) && Contents() == old(Contents())[key := value]
    {
      hide At, Searching, InsertInv, Items, Zip, RedBlack, Balanced, Sorted, ToMap, Snap;
      ghost var N := nodes;
      SearchNode(Snap(N), root, T, Nil, c, key);
      SearchEnd(Snap(N), root, T, Nil, c, key);
      SizeIsItems(T);
      var node := LinkLeaf(parent, key, value, N, c);
      GraftedInv(old(Snap(nodes)), root, T, c, node, key, value);
      size := size + 1;
      nodes := N + {node};
      T := InsertFixup(node, nodes, Node(node, Red, key, value, Nil, Nil), c);
      SizeIsItems(T);
    }

    method Insert(key: real, value: real)
      requires Valid()
      modifies this, nodes
      ensures Valid() && fresh(nodes - old(nodes))
      ensures Contents() == old(Contents())[key := value]
    {
      hide Searching, Items, Zip, Balanced, Sorted, ToMap;
      if root == null {
        PlantRoot(key, value);
        return;
      }
      var curr := root;
      var parent: RBNode? := null;
      ghost var t, c := T, Top;
      SearchStart(Snap(nodes), root, T, key);
      RootIsTop(Snap(nodes), root, T, Top);
      while curr != null
        invariant Valid() && T == old(T)
        invariant Searching(Snap(nodes), root, T, t, c, key) && curr == RootId(t) && parent == ParentId(c)
        invariant c.Top? ==> curr != null
        decreases t
      {
        SearchNode(Snap(nodes), root, T, t, c, key);
        parent := curr;
        if key < curr.key {
          SearchStep(Snap(nodes), root, T, t, c, key, true);
          curr, t, c := curr.left, t.left, Enter(c, t, true);
        } else if key > curr.key {
          SearchStep(Snap(nodes), root, T, t, c, key, false);
          curr, t, c := curr.right, t.right, Enter(c, t, false);
        } else {
          SetValue(curr, value, t, c);
          return;
        }
      }
      AddLeaf(parent, key, value, c);
    }

    /** _minimum: the leftmost node of the subtree t inside c. */
    method Minimum(node: RBNode, ghost N: set<RBNode>, ghost t: Tree, ghost c: Ctx)
      returns (curr: RBNode, ghost t': Tree, ghost c': Ctx)
      requires Valid() && N == nodes && At(Snap(N), root, t, c) && t.Node? && node == t.id && Sound(c, t)
      ensures Valid() && Leftward(Snap(N), root, t, c, t', c') && curr == t'.id && t'.left.Nil? && curr in N
    {
      hide At, Sound, Items, Zip;
      curr, t', c' := node, t, c;
      FocusNode(Snap(N), root, t', c');
      while curr.left != null
        invariant Leftward(Snap(N), root, t, c, t', c') && t'.Node? && curr == t'.id
        invariant curr in N && curr.left == RootId(t'.left)
        decreases t'
      {
        LeftwardStep(Snap(N), root, t, c, t', c');
        curr, t', c' := curr.left, t'.left, Enter(c', t', true);
        FocusNode(Snap(N), root, t', c');
      }
    }

    /** The entry with the smallest key, or None. */
    method FindMin() returns (r: Option<Entry>)
      requires Valid()
      ensures r == if Entries() == [] then None else Some(Entries()[0])
    {
      hide Sorted, Balanced;
      if root == null {
        return None;
      }
      var node, t, c := Minimum(root, nodes, T, Top);
      FocusNode(Snap(nodes), root, t, c);
      ItemsAround(c, t);
      assert Before(c) + Items(t.left) == [];
      assert Items(T) == [(t.key, t.value)] + (Items(t.right) + After(c));
      r := Some((node.key, node.value));
    }

    /** The entry with the largest key, or None. */
    method FindMax() returns (r: Option<Entry>)
      requires Valid()
      ensures r == if Entries() == [] then None else Some(Entries()[|Entries()| - 1])
    {
      hide Sorted, Balanced;
      if root == null {
        return None;
      }
      var node, t, c := Maximum(root, nodes, T, Top);
      FocusNode(Snap(nodes), root, t, c);
      ItemsAround(c, t);
      assert Items(t.right) + After(c) == [];
      assert Items(T) == Before(c) + Items(t.left) + [(t.key, t.value)];
      r := Some((node.key, node.value));
    }

    /** _maximum: the rightmost node of the subtree t inside c. */
    method Maximum(node: RBNode, ghost N: set<RBNode>, ghost t: Tree, ghost c: Ctx)
      returns (curr: RBNode, ghost t': Tree, ghost c': Ctx)
      requires Valid() && N == nodes && At(Snap(N), root, t, c) && t.Node? && node == t.id && After(c) == []
      ensures Valid() && Rightward(Snap(N), root, Zip(c, t), t', c') && curr == t'.id && t'.right.Nil? && curr in N
    {
      hide At, Items, Zip;
      curr, t', c' := node, t, c;
      FocusNode(Snap(N), root, t', c');
      while curr.right != null
        invariant Rightward(Snap(N), root, Zip(c, t), t', c') && t'.Node? && curr == t'.id
        invariant curr in N && curr.right == RootId(t'.right)
        decreases t'
      {
        RightwardStep(Snap(N), root, Zip(c, t), t', c');
        curr, t', c' := curr.right, t'.right, Enter(c', t', false);
        FocusNode(Snap(N), root, t', c');
      }
    }

    static method HeightOf(node: RBNode?, ghost N: set<RBNode>, ghost t: Tree, ghost p: RBNode?) returns (h: nat)
      requires Linked(Snap(N), t, p) && node == RootId(t)
      ensures h == Height(t)
      decreases t
    {
      if node == null {
        return 0;
      }
      var left := HeightOf(node.left, N, t.left, t.id);
      var right := HeightOf(node.right, N, t.right, t.id);
      h := 1 + if left > right then left else right;
    }

    /** get_height: at most 2 * log2(size + 1). */
    method GetHeight() returns (h: nat)
      requires Valid()
      ensures h == Height(T) && Pow2(h) <= (|Entries()| + 1) * (|Entries()| + 1)
    {
      h := HeightOf(root, nodes, T, null);
      HeightBound(T);
      SizeIsItems(T);
    }

    static method Traverse(node: RBNode?, reverse: bool, acc: seq<Entry>,
                           ghost N: set<RBNode>, ghost t: Tree, ghost p: RBNode?) returns (result: seq<Entry>)
      requires Linked(Snap(N), t, p) && node == RootId(t)
      ensures result == acc + if reverse then Reverse(Items(t)) else Items(t)
      decreases t
    {
      hide Reverse;
      if node == null {
        ReverseNone(acc);
        return acc;
      }
      var e := (node.key, node.value);
      result := Traverse(if reverse then node.right else node.left, reverse, acc,
                         N, if reverse then t.right else t.left, t.id);
      result := result + [e];
      result := Traverse(if reverse then node.left else node.right, reverse, result,
                         N, if reverse then t.left else t.right, t.id);
      ReverseAround(Items(t.left), e, Items(t.right), acc);
    }

    /** items: the entries by ascending key, or descending. */
    method GetItems(reverse: bool) returns (result: seq<Entry>)
      requires Valid()
      ensures result == if reverse then Reverse(Entries()) else Entries()
    {
      result := Traverse(root, reverse, [], nodes, T, null);
    }

    /** delete, step one: y leaves the tree and its only child takes its place. */
    method Unlink(y: RBNode, ghost N: set<RBNode>, ghost t: Tree, ghost c: Ctx)
      returns (x: RBNode?, xParent: RBNode?)
      requires At(Snap(N), root, t, c) && t.Node? && y == t.id && (t.left.Nil? || t.right.Nil?)
      modifies this`root, N
      ensures y in N && At(Snap(N - {y}), root, Spliced(t), c)
      ensures x == RootId(Spliced(t)) && xParent == ParentId(c)
      ensures y.key == t.key && y.value == t.value && y.color == t.color
    {
      hide At, Linked, LinkedCtx, Distinct, DistinctCtx, Ids, CtxIds;
      ghost var L := Snap(N);
      UnlinkNodes(L, root, t, c);
      if y.left != null {
        x := y.left;
      } else {
        x := y.right;
      }
      xParent := y.parent;
      if x != null {
        x.parent := xParent;
      }
      if y.parent == null {
        root := x;
      } else if y == y.parent.left {
        y.parent.left := x;
      } else {
        y.parent.right := x;
      }
      UnlinkedAt(L, Snap(N - {y}), old(root), root, t, c);
    }

    /** delete, step two: the successor's key and value move into the node that was asked for. */
    method CopyInto(z: RBNode, key: real, value: real, ghost N: set<RBNode>, ghost x: Tree, ghost c: Ctx)
      requires At(Snap(N), root, x, c) && Base(c).Frame? && z == Base(c).id
      modifies N
      ensures At(Snap(N), root, x, Rekey(c, key, value))
    {
      hide At, Base, Rekey;
      ghost var L := Snap(N);
      RekeyedAt(L, root, x, c, key, value);
      z.key := key;
      z.value := value;
      assert Snap(N) == L[z := L[z].(key := key, value := value)];
    }

    /** delete; false stands for the KeyError of a missing key. */
    method Delete(key: real) returns (ok: bool)
      requires Valid()
      modifies this, nodes
      ensures Valid() && nodes <= old(nodes)
      ensures ok <==> key in old(Contents())
      ensures Contents() == old(Contents()) - {key}
    {
      hide Zip, Items, Sorted, ToMap, Balanced, RedBlack, Hole;
      ghost var N := nodes;
      var z, t, c := FindNode(key);
      if z == null {
        return false;
      }
      SearchNode(Snap(N), root, T, t, c, key);
      var y: RBNode;
      ghost var ty, cy := t, c;
      if z.left == null || z.right == null {
        y := z;
        VictimHere(Snap(N), root, t, c);
      } else {
        FocusDown(Snap(N), root, t.right, Enter(c, t, false));
        SoundDown(c, t, false);
        y, ty, cy := Minimum(z.right, N, t.right, Enter(c, t, false));
        VictimBelow(Snap(N), root, t, c, ty, cy);
      }
      TakeOut(z, y, N, t, c, ty, cy);
      ok := true;
    }

    /** delete, the assignments from unlinking y to the end. */
    method TakeOut(z: RBNode, y: RBNode, ghost N: set<RBNode>, ghost t: Tree, ghost c: Ctx, ghost ty: Tree,
                   ghost cy: Ctx)
      requires Valid() && N == nodes && At(Snap(N), root, ty, cy) && Victim(t, c, ty, cy) && T == Zip(c, t)
      requires z == t.id && y == ty.id
      modifies this, N
      ensures Valid() && nodes <= N && Contents() == old(Contents()) - {t.key}
    {
      hide At, Zip, Items, Sorted, ToMap, Balanced, RedBlack, DeleteInv, Sound, Base, Rekey, Spliced, Hole, Snap;
      SizeIsItems(T);
      VictimInv(t, c, ty, cy);
      var x, xParent, yColor := Excise(z, y, N, t, c, ty, cy);
      size := size - 1;
      T := Repair(x, xParent, yColor, N - {y}, Spliced(ty), Hole(t, ty, cy));
      nodes := N - {y};
      SizeIsItems(T);
    }

    /** The node y is unlinked, and z takes over its key and value when they differ. */
    method Excise(z: RBNode, y: RBNode, ghost N: set<RBNode>, ghost t: Tree, ghost c: Ctx, ghost ty: Tree,
                  ghost cy: Ctx)
      returns (x: RBNode?, xParent: RBNode?, yColor: Color)
      requires At(Snap(N), root, ty, cy) && Victim(t, c, ty, cy) && z == t.id && y == ty.id
      modifies this`root, N
      ensures y in N && At(Snap(N - {y}), root, Spliced(ty), Hole(t, ty, cy))
      ensures x == RootId(Spliced(ty)) && xParent == ParentId(Hole(t, ty, cy)) && yColor == ty.color
    {
      hide At, Zip, Items, Sorted, ToMap, Balanced, RedBlack, DeleteInv, Sound, Base, Spliced;
      x, xParent := Unlink(y, N, ty, cy);
      yColor := y.color;
      if y != z {
        CopyInto(z, y.key, y.value, N - {y}, Spliced(ty), cy);
      }
    }

    /** delete, the fix-up: needed only when a black node was unlinked. */
    method Repair(x: RBNode?, xParent: RBNode?, yColor: Color, ghost N: set<RBNode>, ghost t: Tree, ghost c: Ctx)
      returns (ghost T': Tree)
      requires At(Snap(N), root, t, c) && x == RootId(t) && xParent == ParentId(c)
      requires if yColor.Black? then DeleteInv(c, t) else RedBlack(Zip(c, t))
      modifies this`root, N
      ensures At(Snap(N), root, T', Top) && RedBlack(T') && Items(T') == Items(Zip(c, t))
    {
      hide At, Zip, Items, Balanced, RedBlack, DeleteInv;
      if yColor.Black? {
        T' := DeleteFixup(x, xParent, N, t, c);
      } else {
        FocusTop(Snap(N), root, t, c);
        T' := Zip(c, t);
      }
    }

    method RotateLeft(x: RBNode, ghost N: set<RBNode>, ghost t: Tree, ghost c: Ctx)
      requires At(Snap(N), root, t, c) && t.Node? && t.id == x
      modifies this`root, N
      ensures At(Snap(N), root, Rotate(t, false), c)
    {
      hide At, Rotatable, Rotated;
      ghost var L := Snap(N);
      FocusNode(L, root, t, c);
      if x.right == null {
        return;
      }
      RotationNodes(L, root, t, c, false);
      TurnLeft(x, N, t, c);
      RotatedAt(L, Snap(N), old(root), root, t, c, false);
    }

    /** The assignments of rotate_left. */
    method TurnLeft(x: RBNode, ghost N: set<RBNode>, ghost t: Tree, ghost c: Ctx)
      requires Rotatable(Snap(N), root, t, c, false) && t.id == x
      modifies this`root, N
      ensures Rotated(old(Snap(N)), Snap(N), old(root), root, t, c, false)
    {
      var y := x.right;
      x.right := y.left;
      if y.left != null {
        y.left.parent := x;
      }
      y.parent := x.parent;
      if x.parent == null {
        root := y;
      } else if x == x.parent.left {
        x.parent.left := y;
      } else {
        x.parent.right := y;
      }
      y.left := x;
      x.parent := y;
    }

    method RotateRight(y: RBNode, ghost N: set<RBNode>, ghost t: Tree, ghost c: Ctx)
      requires At(Snap(N), root, t, c) && t.Node? && t.id == y
      modifies this`root, N
      ensures At(Snap(N), root, Rotate(t, true), c)
    {
      hide At, Rotatable, Rotated;
      ghost var L := Snap(N);
      FocusNode(L, root, t, c);
      if y.left == null {
        return;
      }
      RotationNodes(L, root, t, c, true);
      TurnRight(y, N, t, c);
      RotatedAt(L, Snap(N), old(root), root, t, c, true);
    }

    /** The assignments of rotate_right. */
    method TurnRight(y: RBNode, ghost N: set<RBNode>, ghost t: Tree, ghost c: Ctx)
      requires Rotatable(Snap(N), root, t, c, true) && t.id == y
      modifies this`root, N
      ensures Rotated(old(Snap(N)), Snap(N), old(root), root, t, c, true)
    {
      var x := y.left;
      y.left := x.right;
      if x.right != null {
        x.right.parent := y;
      }
      x.parent := y.parent;
      if y.parent == null {
        root := x;
      } else if y == y.parent.left {
        y.parent.left := x;
      } else {
        y.parent.right := x;
      }
      x.right := y;
      y.parent := x;
    }

    method RotateTo(mirror: bool, n: RBNode, ghost N: set<RBNode>, ghost t: Tree, ghost c: Ctx)
      requires At(Snap(N), root, t, c) && t.Node? && t.id == n
      modifies this`root, N
      ensures At(Snap(N), root, Rotate(t, mirror), c)
    {
      hide At;
      if mirror {
        RotateRight(n, N, t, c);
      } else {
        RotateLeft(n, N, t, c);
      }
    }

    /** Red uncle: colours move down from the grandparent. */
    method LiftRed(parent: RBNode, uncle: RBNode, grandparent: RBNode,
                   ghost N: set<RBNode>, ghost t: Tree, ghost c: Ctx, ghost items: seq<Entry>)
      requires Inserting(Snap(N), root, t, c, items) && RedFrame(c) && c.up.Frame? && IsRed(c.up.sib)
      requires parent == c.id && uncle == c.up.sib.id && grandparent == c.up.id
      modifies N
      ensures Inserting(Snap(N), root, Uncled(c, t), c.up.up, items)
    {
      hide At, InsertInv, Items, Zip, Uncled;
      InsertNodes(Snap(N), root, t, c, items);
      UncledAt(Snap(N), root, t, c);
      UncledInv(c, t);
      SetColor(parent, Black, N);
      SetColor(uncle, Black, N);
      SetColor(grandparent, Red, N);
    }

    /** Inner grandchild under a black uncle: the rotation at the parent makes it outer. */
    method RotateIn(parent: RBNode, mirror: bool,
                    ghost N: set<RBNode>, ghost t: Tree, ghost c: Ctx, ghost items: seq<Entry>)
      requires Inserting(Snap(N), root, t, c, items) && RedFrame(c) && c.up.Frame? && !IsRed(c.up.sib)
      requires mirror == c.onLeft != c.up.onLeft && parent == c.id
      modifies this`root, N
      ensures Straightened(c, t).id == t.id && Straightened(c, t).up == c.up
      ensures RedFrame(Straightened(c, t)) && Straightened(c, t).onLeft == c.up.onLeft
      ensures Child(Rotate(Plug(c, t), c.onLeft), !c.onLeft).Node?
      ensures Child(Rotate(Plug(c, t), c.onLeft), !c.onLeft).id == parent
      ensures Inserting(Snap(N), root, Child(Rotate(Plug(c, t), c.onLeft), !c.onLeft), Straightened(c, t), items)
    {
      hide At, InsertInv, Items, Zip;
      InsertNodes(Snap(N), root, t, c, items);
      FocusUp(Snap(N), root, t, c);
      RotateTo(mirror, parent, N, Plug(c, t), c.up);
      StraightenedAt(Snap(N), root, t, c, items);
    }

    /** Outer grandchild under a black uncle: the rotation that ends the fix-up. */
    method RotateOut(parent: RBNode, grandparent: RBNode,
                     ghost N: set<RBNode>, ghost t: Tree, ghost c: Ctx, ghost items: seq<Entry>)
      requires Inserting(Snap(N), root, t, c, items) && RedFrame(c) && c.up.Frame? && !IsRed(c.up.sib)
      requires c.onLeft == c.up.onLeft && parent == c.id && grandparent == c.up.id
      modifies this`root, N
      ensures Outer(c, t).Node?
      ensures Inserting(Snap(N), root, t, Enter(c.up.up, Outer(c, t), c.onLeft), items)
      ensures !RedFrame(Enter(c.up.up, Outer(c, t), c.onLeft))
    {
      hide At, InsertInv, Items, Zip;
      InsertNodes(Snap(N), root, t, c, items);
      OuterAt(Snap(N), root, t, c);
      SetColor(parent, Black, N);
      SetColor(grandparent, Red, N);
      ghost var g := Plug(c.up.(color := Red), Plug(c.(color := Black), t));
      if parent == grandparent.left {
        RotateRight(grandparent, N, g, c.up.up);
      } else {
        RotateLeft(grandparent, N, g, c.up.up);
      }
      OutsideAt(Snap(N), root, t, c, items);
    }

    /** One round of _insert_fixup when the parent is a left child. */
    method InsertFixupLeft(node: RBNode, parent: RBNode, grandparent: RBNode,
                          ghost N: set<RBNode>, ghost t: Tree, ghost c: Ctx, ghost items: seq<Entry>)
      returns (next: RBNode, ghost t': Tree, ghost c': Ctx)
      requires Inserting(Snap(N), root, t, c, items) && RedFrame(c) && c.up.Frame?
      requires t.Node? && node == t.id && parent == c.id && grandparent == c.up.id && c.up.onLeft
      modifies this`root, N
      ensures Inserting(Snap(N), root, t', c', items) && t'.Node? && next == t'.id && next in N
      ensures RedFrame(c') ==> CtxDepth(c') < CtxDepth(c)
    {
      hide Inserting, Items, Zip, Outer;
      InsertNodes(Snap(N), root, t, c, items);
      next, t', c' := node, t, c;
      var uncle := grandparent.right;
      if uncle != null && uncle.color.Red? {
        LiftRed(parent, uncle, grandparent, N, t, c, items);
        next := grandparent;
        t', c' := Uncled(c, t), c.up.up;
      } else {
        var outer, top := parent, grandparent;
        if node == parent.right {
          next := parent;
          RotateIn(next, false, N, t, c, items);
          t', c' := Child(Rotate(Plug(c, t), c.onLeft), !c.onLeft), Straightened(c, t);
          InsertNodes(Snap(N), root, t', c', items);
          outer := next.parent;
          top := if outer != null then outer.parent else null;
          if top == null {
            assert false;
            return;
          }
        }
        RotateOut(outer, top, N, t', c', items);
        c' := Enter(c'.up.up, Outer(c', t'), c'.onLeft);
      }
      InsertNodes(Snap(N), root, t', c', items);
    }

    /** One round of _insert_fixup when the parent is a right child. */
    method InsertFixupRight(node: RBNode, parent: RBNode, grandparent: RBNode,
                          ghost N: set<RBNode>, ghost t: Tree, ghost c: Ctx, ghost items: seq<Entry>)
      returns (next: RBNode, ghost t': Tree, ghost c': Ctx)
      requires Inserting(Snap(N), root, t, c, items) && RedFrame(c) && c.up.Frame?
      requires t.Node? && node == t.id && parent == c.id && grandparent == c.up.id && !c.up.onLeft
      modifies this`root, N
      ensures Inserting(Snap(N), root, t', c', items) && t'.Node? && next == t'.id && next in N
      ensures RedFrame(c') ==> CtxDepth(c') < CtxDepth(c)
    {
      hide Inserting, Items, Zip, Outer;
      InsertNodes(Snap(N), root, t, c, items);
      next, t', c' := node, t, c;
      var uncle := grandparent.left;
      if uncle != null && uncle.color.Red? {
        LiftRed(parent, uncle, grandparent, N, t, c, items);
        next := grandparent;
        t', c' := Uncled(c, t), c.up.up;
      } else {
        var outer, top := parent, grandparent;
        if node == parent.left {
          next := parent;
          RotateIn(next, true, N, t, c, items);
          t', c' := Child(Rotate(Plug(c, t), c.onLeft), !c.onLeft), Straightened(c, t);
          InsertNodes(Snap(N), root, t', c', items);
          outer := next.parent;
          top := if outer != null then outer.parent else null;
          if top == null {
            assert false;
            return;
          }
        }
        RotateOut(outer, top, N, t', c', items);
        c' := Enter(c'.up.up, Outer(c', t'), c'.onLeft);
      }
      InsertNodes(Snap(N), root, t', c', items);
    }

    method InsertFixup(node0: RBNode, ghost N: set<RBNode>, ghost t0: Tree, ghost c0: Ctx)
      returns (ghost T': Tree)
      requires At(Snap(N), root, t0, c0) && InsertInv(c0, t0) && t0.id == node0
      modifies this`root, N
      ensures At(Snap(N), root, T', Top) && RedBlack(T') && Items(T') == Items(Zip(c0, t0))
    {
      hide Inserting, Items, Zip;
      var node := node0;
      ghost var t, c, items := t0, c0, Items(Zip(c0, t0));
      InsertStart(Snap(N), root, t0, c0);
      while node.parent != null && node.parent.color.Red?
        invariant Inserting(Snap(N), root, t, c, items) && t.Node? && t.id == node && node in N
        decreases if RedFrame(c) then 1 + CtxDepth(c) else 0
      {
        InsertNodes(Snap(N), root, t, c, items);
        var parent := node.parent;
        var grandparent := parent.parent;
        if grandparent == null {
          assert false;
          break;
        }
        if parent == grandparent.left {
          node, t, c := InsertFixupLeft(node, parent, grandparent, N, t, c, items);
        } else {
          node, t, c := InsertFixupRight(node, parent, grandparent, N, t, c, items);
        }
      }
      InsertNodes(Snap(N), root, t, c, items);
      InsertEnd(Snap(N), root, t, c, items);
      T' := Paint(Zip(c, t), Black);
      SetColor(root, Black, N);
    }

    /** Red sibling: after a rotation at the parent the sibling is black. */
    method Reseat(w: RBNode, parent: RBNode, mirror: bool,
                  ghost N: set<RBNode>, ghost t: Tree, ghost c: Ctx, ghost items: seq<Entry>) returns (ghost c': Ctx)
      requires Deleting(Snap(N), root, t, c, items) && c.Frame? && IsRed(c.sib) && !IsRed(t)
      requires w == c.sib.id && parent == c.id && mirror == !c.onLeft
      modifies this`root, N
      ensures Deleting(Snap(N), root, t, c', items)
      ensures c'.Frame? && c'.id == c.id && c'.color.Red? && c'.onLeft == c.onLeft && !IsRed(c'.sib)
      ensures CtxDepth(c'.up) == CtxDepth(c)
    {
      hide At, DeleteInv, Items, Zip, Tint, Snap, FrameCell;
      DeleteNodes(Snap(N), root, t, c, items);
      ReseatColors(Snap(N), root, t, c);
      SetColor(w, Black, N);
      SetColor(parent, Red, N);
      RotateTo(mirror, parent, N, Plug(c.(color := Red, sib := Paint(c.sib, Black)), t), c.up);
      ReseatedAt(Snap(N), root, t, c, items);
      ghost var r := Reseated(c, t);
      c' := Enter(Enter(c.up, r, c.onLeft), Child(r, c.onLeft), c.onLeft);
    }

    /** Black sibling whose far child is black: a rotation at the sibling makes the far child red. */
    method Turn(w: RBNode, near: RBNode?, mirror: bool,
                ghost N: set<RBNode>, ghost t: Tree, ghost c: Ctx, ghost items: seq<Entry>)
      requires Deleting(Snap(N), root, t, c, items) && c.Frame? && c.sib.Node? && !IsRed(c.sib)
      requires IsRed(Child(c.sib, c.onLeft)) && !IsRed(Child(c.sib, !c.onLeft))
      requires w == c.sib.id && near == RootId(Child(c.sib, c.onLeft)) && mirror == c.onLeft
      modifies this`root, N
      ensures Deleting(Snap(N), root, t, Turned(c), items)
      ensures Turned(c).sib.Node? && !IsRed(Turned(c).sib) && IsRed(Child(Turned(c).sib, !c.onLeft))
    {
      hide At, DeleteInv, Items, Zip, Turned, Tint, Snap, FrameCell;
      DeleteNodes(Snap(N), root, t, c, items);
      TurnColors(Snap(N), root, t, c);
      if near != null {
        SetColor(near, Black, N);
      }
      SetColor(w, Red, N);
      RotateTo(mirror, w, N, Reddened(c), Across(c, t));
      TurnedAt(Snap(N), root, t, c, items);
    }

    /** Red far nephew: the rotation at the parent that ends the fix-up. */
    method Settle(w: RBNode, parent: RBNode, far: RBNode?, mirror: bool,
                  ghost N: set<RBNode>, ghost t: Tree, ghost c: Ctx, ghost items: seq<Entry>)
      requires Deleting(Snap(N), root, t, c, items) && c.Frame? && c.sib.Node? && !IsRed(c.sib) && !IsRed(t)
      requires IsRed(Child(c.sib, !c.onLeft)) && w == c.sib.id && parent == c.id
      requires far == RootId(Child(c.sib, !c.onLeft)) && mirror == !c.onLeft
      modifies this`root, N
      ensures Deleting(Snap(N), root, Zip(c.up, Settled(c, t)), Top, items)
    {
      hide At, DeleteInv, Items, Zip, Balancing, Settled, Rotate, Snap;
      SettleColours(w, parent, far, N, t, c, items);
      RotateTo(mirror, parent, N, Balancing(c, t), c.up);
      SettledAt(Snap(N), root, t, c, items);
    }

    method SettleColours(w: RBNode, parent: RBNode, far: RBNode?,
                         ghost N: set<RBNode>, ghost t: Tree, ghost c: Ctx, ghost items: seq<Entry>)
      requires Deleting(Snap(N), root, t, c, items) && c.Frame? && c.sib.Node? && !IsRed(c.sib) && !IsRed(t)
      requires IsRed(Child(c.sib, !c.onLeft)) && w == c.sib.id && parent == c.id
      requires far == RootId(Child(c.sib, !c.onLeft))
      modifies N
      ensures At(Snap(N), root, Balancing(c, t), c.up) && Balancing(c, t).Node? && Balancing(c, t).id == c.id
      ensures Child(Balancing(c, t), !c.onLeft).Node?
    {
      hide At, DeleteInv, Items, Zip, Tint, Snap, FrameCell;
      DeleteNodes(Snap(N), root, t, c, items);
      SettleColors(Snap(N), root, t, c);
      ColorOf(parent, N);
      ParentColor(Snap(N), t, c);
      SetColor(w, parent.color, N);
      SetColor(parent, Black, N);
      if far != null {
        SetColor(far, Black, N);
      }
    }

    /** Black sibling with two black children: it turns red and the debt moves to the parent. */
    method Lower(w: RBNode, ghost N: set<RBNode>, ghost t: Tree, ghost c: Ctx, ghost items: seq<Entry>)
      requires Deleting(Snap(N), root, t, c, items) && c.Frame? && c.sib.Node? && !IsRed(c.sib) && !IsRed(t)
      requires !IsRed(c.sib.left) && !IsRed(c.sib.right) && w == c.sib.id
      modifies N
      ensures Deleting(Snap(N), root, Lowered(c, t), c.up, items)
    {
      hide Deleting, Items, Zip, Lowered;
      DeleteNodes(Snap(N), root, t, c, items);
      LoweredAt(Snap(N), root, t, c, items);
      SetColor(w, Red, N);
    }

    /** A red nephew ends the fix-up: turn it outwards if it is the near one, then settle. */
    method Restore(w0: RBNode, parent: RBNode, mirror: bool, farBlack: bool,
                   ghost N: set<RBNode>, ghost t: Tree, ghost c: Ctx, ghost items: seq<Entry>) returns (ghost T: Tree)
      requires Deleting(Snap(N), root, t, c, items) && c.Frame? && c.sib.Node? && !IsRed(c.sib) && !IsRed(t)
      requires IsRed(c.sib.left) || IsRed(c.sib.right)
      requires w0 == c.sib.id && parent == c.id && mirror == !c.onLeft && farBlack == !IsRed(Child(c.sib, !c.onLeft))
      modifies this`root, N
      ensures Deleting(Snap(N), root, T, Top, items)
    {
      hide Deleting, Items, Zip, Turned, Settled, Rotate;
      var w := w0;
      ghost var c' := c;
      DeleteNodes(Snap(N), root, t, c, items);
      if farBlack {
        Turn(w, if mirror then w.right else w.left, !mirror, N, t, c, items);
        c' := Turned(c);
        DeleteNodes(Snap(N), root, t, c', items);
        w := if mirror then parent.left else parent.right;
      }
      Settle(w, parent, if mirror then w.left else w.right, mirror, N, t, c', items);
      T := Zip(c'.up, Settled(c', t));
    }

    /** One round of _delete_fixup when x is a left child; done is the break of the loop. */
    method DeleteFixupLeft(x: RBNode?, parent: RBNode,
                          ghost N: set<RBNode>, ghost t: Tree, ghost c: Ctx, ghost items: seq<Entry>)
      returns (x': RBNode?, parent': RBNode?, done: bool, ghost t': Tree, ghost c': Ctx)
      requires Deleting(Snap(N), root, t, c, items) && c.Frame? && !IsRed(t) && c.onLeft
      requires x == RootId(t) && parent == c.id
      modifies this`root, N
      ensures Deleting(Snap(N), root, t', c', items) && x' == RootId(t')
      ensures if done then c'.Top? else parent' == ParentId(c') && (IsRed(t') || CtxDepth(c') < CtxDepth(c))
    {
      hide Deleting, Items, Zip, Turned, Settled, Lowered, Rotate;
      t', c' := t, c;
      DeleteNodes(Snap(N), root, t, c, items);
      var w := parent.right;
      if w != null && w.color.Red? {
        c' := Reseat(w, parent, false, N, t, c, items);
        DeleteNodes(Snap(N), root, t, c', items);
        w := parent.right;
      }
      if w == null {
        assert false;
        return;
      }
      var leftBlack := w.left == null || w.left.color.Black?;
      var rightBlack := w.right == null || w.right.color.Black?;
      if leftBlack && rightBlack {
        Lower(w, N, t, c', items);
        t', c' := Lowered(c', t), c'.up;
        x' := parent;
        DeleteNodes(Snap(N), root, t', c', items);
        parent' := x'.parent;
        done := false;
      } else {
        t' := Restore(w, parent, false, rightBlack, N, t, c', items);
        c' := Top;
        DeleteNodes(Snap(N), root, t', c', items);
        x', parent', done := root, null, true;
      }
    }

    /** One round of _delete_fixup when x is a right child; done is the break of the loop. */
    method DeleteFixupRight(x: RBNode?, parent: RBNode,
                          ghost N: set<RBNode>, ghost t: Tree, ghost c: Ctx, ghost items: seq<Entry>)
      returns (x': RBNode?, parent': RBNode?, done: bool, ghost t': Tree, ghost c': Ctx)
      requires Deleting(Snap(N), root, t, c, items) && c.Frame? && !IsRed(t) && !c.onLeft
      requires x == RootId(t) && parent == c.id
      modifies this`root, N
      ensures Deleting(Snap(N), root, t', c', items) && x' == RootId(t')
      ensures if done then c'.Top? else parent' == ParentId(c') && (IsRed(t') || CtxDepth(c') < CtxDepth(c))
    {
      hide Deleting, Items, Zip, Turned, Settled, Lowered, Rotate;
      t', c' := t, c;
      DeleteNodes(Snap(N), root, t, c, items);
      var w := parent.left;
      if w != null && w.color.Red? {
        c' := Reseat(w, parent, true, N, t, c, items);
        DeleteNodes(Snap(N), root, t, c', items);
        w := parent.left;
      }
      if w == null {
        assert false;
        return;
      }
      var leftBlack := w.left == null || w.left.color.Black?;
      var rightBlack := w.right == null || w.right.color.Black?;
      if leftBlack && rightBlack {
        Lower(w, N, t, c', items);
        t', c' := Lowered(c', t), c'.up;
        x' := parent;
        DeleteNodes(Snap(N), root, t', c', items);
        parent' := x'.parent;
        done := false;
      } else {
        t' := Restore(w, parent, true, leftBlack, N, t, c', items);
        c' := Top;
        DeleteNodes(Snap(N), root, t', c', items);
        x', parent', done := root, null, true;
      }
    }

    /** The two assignments after the loop of _delete_fixup. */
    method PaintBlack(x: RBNode?, ghost N: set<RBNode>, ghost t: Tree, ghost c: Ctx, ghost items: seq<Entry>)
      requires Deleting(Snap(N), root, t, c, items) && (IsRed(t) || c.Top?) && x == RootId(t)
      modifies N
      ensures var T := Zip(c, Paint(t, Black)); At(Snap(N), root, T, Top) && RedBlack(T) && Items(T) == items
    {
      hide At, DeleteInv, Items, Zip, Balanced;
      DeleteNodes(Snap(N), root, t, c, items);
      DeleteEnd(Snap(N), root, t, c, items);
      if x != null {
        SetColor(x, Black, N);
      }
      if root != null {
        SetColor(root, Black, N);
      }
    }

    method DeleteFixup(x0: RBNode?, parent0: RBNode?, ghost N: set<RBNode>, ghost t0: Tree, ghost c0: Ctx)
      returns (ghost T': Tree)
      requires At(Snap(N), root, t0, c0) && DeleteInv(c0, t0) && x0 == RootId(t0) && parent0 == ParentId(c0)
      modifies this`root, N
      ensures At(Snap(N), root, T', Top) && RedBlack(T') && Items(T') == Items(Zip(c0, t0))
    {
      hide Deleting, Items, Zip, RedBlack, FrameCell, Snap;
      var x, parent := x0, parent0;
      ghost var t, c, items := t0, c0, Items(Zip(c0, t0));
      DeleteStart(Snap(N), root, t, c);
      DeleteNodes(Snap(N), root, t, c, items);
      FocusColor(N, t);
      while x != root && (x == null || x.color.Black?)
        invariant Deleting(Snap(N), root, t, c, items) && x == RootId(t) && parent == ParentId(c)
        invariant (x == root <==> c.Top?) && (t.Node? ==> x in N && x.color == t.color)
        decreases if IsRed(t) then 0 else 1 + CtxDepth(c)
      {
        DeleteNodes(Snap(N), root, t, c, items);
        if parent == null {
          assert false;
          break;
        }
        ChildrenOf(parent, N, t, c);
        var done: bool;
        if x == parent.left {
          x, parent, done, t, c := DeleteFixupLeft(x, parent, N, t, c, items);
        } else {
          x, parent, done, t, c := DeleteFixupRight(x, parent, N, t, c, items);
        }
        DeleteNodes(Snap(N), root, t, c, items);
        FocusColor(N, t);
        if done {
          break;
        }
      }
      PaintBlack(x, N, t, c, items);
      T' := Zip(c, Paint(t, Black));
    }
  }
}
