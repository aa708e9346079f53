/** How linked nodes hold a tree: a snapshot of the nodes' fields against a subtree and
    the context around it. */
module RbLinks {
  import opened RbShape

  /** The fields of one node. */
  datatype Cell = Cell(key: real, value: real, color: Color, parent: RBNode?, left: RBNode?, right: RBNode?)

  type Cells = map<RBNode, Cell>

  ghost function Snap(N: set<RBNode>): (r: Cells)
    reads N
    ensures r.Keys == N
  {
    map n | n in N :: Cell(n.key, n.value, n.color, n.parent, n.left, n.right)
  }

  ghost function Ids(t: Tree): set<RBNode> {
    if t.Nil? then {} else {t.id} + Ids(t.left) + Ids(t.right)
  }

  ghost function CtxIds(c: Ctx): set<RBNode>
    decreases c
  {
    if c.Top? then {} else {c.id} + Ids(c.sib) + CtxIds(c.up)
  }

  /** No node occurs twice. */
  ghost predicate Distinct(t: Tree) {
    t.Node? ==>
      && Distinct(t.left) && Distinct(t.right)
      && t.id !in Ids(t.left) && t.id !in Ids(t.right) && Ids(t.left) !! Ids(t.right)
  }

  ghost predicate DistinctCtx(c: Ctx)
    decreases c
  {
    c.Frame? ==>
      && Distinct(c.sib) && DistinctCtx(c.up)
      && c.id !in Ids(c.sib) && c.id !in CtxIds(c.up) && Ids(c.sib) !! CtxIds(c.up)
  }

  /** The nodes below p hold exactly the subtree t. */
  ghost predicate Linked(L: Cells, t: Tree, p: RBNode?)
    decreases t
  {
    t.Node? ==>
      && t.id in L && L[t.id] == Cell(t.key, t.value, t.color, p, RootId(t.left), RootId(t.right))
      && Linked(L, t.left, t.id) && Linked(L, t.right, t.id)
  }

  function FrameCell(c: Ctx, child: RBNode?): Cell
    requires c.Frame?
  {
    Cell(c.key, c.value, c.color, ParentId(c.up),
         if c.onLeft then child else RootId(c.sib), if c.onLeft then RootId(c.sib) else child)
  }

  /** The nodes around a hole filled by child hold exactly the context c. */
  ghost predicate LinkedCtx(L: Cells, c: Ctx, child: RBNode?, root: RBNode?)
    decreases c
  {
    if c.Top? then root == child
    else c.id in L && L[c.id] == FrameCell(c, child) && Linked(L, c.sib, c.id) && LinkedCtx(L, c.up, c.id, root)
  }

  /** The whole tree, with the focus on t inside c, and no other node. */
  ghost predicate At(L: Cells, root: RBNode?, t: Tree, c: Ctx) {
    && Linked(L, t, ParentId(c)) && LinkedCtx(L, c, RootId(t), root)
    && Distinct(t) && DistinctCtx(c) && Ids(t) !! CtxIds(c) && Ids(t) + CtxIds(c) == L.Keys
  }

  ghost predicate Agree(L: Cells, L': Cells, N: set<RBNode>) {
    forall n :: n in N && n in L ==> n in L' && L'[n] == L[n]
  }

  lemma {:induction false} LinkedFrame(L: Cells, L': Cells, t: Tree, p: RBNode?)
    requires Linked(L, t, p) && Agree(L, L', Ids(t))
    ensures Linked(L', t, p)
    decreases t
  {
    if t.Node? {
      LinkedFrame(L, L', t.left, t.id);
      LinkedFrame(L, L', t.right, t.id);
    }
  }

  lemma {:induction false} LinkedCtxFrame(L: Cells, L': Cells, c: Ctx, child: RBNode?, root: RBNode?)
    requires LinkedCtx(L, c, child, root) && Agree(L, L', CtxIds(c))
    ensures LinkedCtx(L', c, child, root)
    decreases c
  {
    if c.Frame? {
      LinkedFrame(L, L', c.sib, c.id);
      LinkedCtxFrame(L, L', c.up, c.id, root);
    }
  }

  lemma FocusUp(L: Cells, root: RBNode?, t: Tree, c: Ctx)
    requires c.Frame? && At(L, root, t, c)
    ensures At(L, root, Plug(c, t), c.up)
  {
  }

  lemma FocusDown(L: Cells, root: RBNode?, t: Tree, c: Ctx)
    requires c.Frame? && At(L, root, Plug(c, t), c.up)
    ensures At(L, root, t, c)
  {
  }

  lemma FocusAcross(L: Cells, root: RBNode?, t: Tree, c: Ctx)
    requires c.Frame? && At(L, root, t, c)
    ensures At(L, root, c.sib, Across(c, t))
  {
    FocusUp(L, root, t, c);
    FocusDown(L, root, c.sib, Across(c, t));
  }

  lemma {:induction false} FocusTop(L: Cells, root: RBNode?, t: Tree, c: Ctx)
    requires At(L, root, t, c)
    ensures At(L, root, Zip(c, t), Top)
    decreases c
  {
    if c.Frame? {
      FocusUp(L, root, t, c);
      FocusTop(L, root, Plug(c, t), c.up);
    }
  }

  /** Painting the focused node. */
  lemma PaintedAt(L: Cells, L': Cells, root: RBNode?, t: Tree, c: Ctx, color: Color)
    requires At(L, root, t, c) && t.Node?
    requires L' == L[t.id := L[t.id].(color := color)]
    ensures At(L', root, Paint(t, color), c)
  {
    LinkedFrame(L, L', t.left, t.id);
    LinkedFrame(L, L', t.right, t.id);
    LinkedCtxFrame(L, L', c, t.id, root);
  }

  /** The parent of the focus gets another child in the place of the focus. */
  lemma RehungCtx(L: Cells, L': Cells, c: Ctx, t: Tree, child: RBNode?, root: RBNode?, root': RBNode?)
    requires LinkedCtx(L, c, RootId(t), root) && DistinctCtx(c) && Agree(L, L', CtxIds(c) - {ParentId(c)})
    requires c.Top? ==> root' == child
    requires c.Frame? ==> root' == root && c.id in L' && L'[c.id] == FrameCell(c, child)
    ensures LinkedCtx(L', c, child, root')
  {
    if c.Frame? {
      LinkedFrame(L, L', c.sib, c.id);
      LinkedCtxFrame(L, L', c.up, c.id, root);
    }
  }

  /** The root of a subtree gets another parent. */
  lemma RehungTree(L: Cells, L': Cells, t: Tree, p: RBNode?, p': RBNode?)
    requires Linked(L, t, p) && Distinct(t) && Agree(L, L', Ids(t) - {RootId(t)})
    requires t.Node? ==> t.id in L' && L'[t.id] == L[t.id].(parent := p')
    ensures Linked(L', t, p')
  {
    if t.Node? {
      LinkedFrame(L, L', t.left, t.id);
      LinkedFrame(L, L', t.right, t.id);
    }
  }

  lemma RotatedIds(t: Tree, mirror: bool)
    requires Distinct(t)
    ensures Distinct(Rotate(t, mirror)) && Ids(Rotate(t, mirror)) == Ids(t)
  {
    if t.Node? && Child(t, mirror).Node? {
      var y := Child(t, mirror);
      var b := Child(y, !mirror);
      assert Distinct(y);
      assert Distinct(if mirror then t.(left := b) else t.(right := b));
    }
  }

  /** What the assignments of a rotation at t leave in the nodes they touch; mirror == false
      is _rotate_left. */
  ghost predicate Rotated(L: Cells, L': Cells, root: RBNode?, root': RBNode?, t: Tree, c: Ctx, mirror: bool)
    requires t.Node? && Child(t, mirror).Node?
  {
    var y := Child(t, mirror);
    var b := Child(y, !mirror);
    && t.id in L' && y.id in L'
    && L'[t.id] == Cell(t.key, t.value, t.color, y.id,
                        RootId(if mirror then b else t.left), RootId(if mirror then t.right else b))
    && L'[y.id] == Cell(y.key, y.value, y.color, ParentId(c),
                        if mirror then RootId(y.left) else t.id, if mirror then t.id else RootId(y.right))
    && (b.Node? ==> b.id in L' && L'[b.id] == Cell(b.key, b.value, b.color, t.id, RootId(b.left), RootId(b.right)))
    && (if c.Top? then root' == y.id else root' == root && c.id in L' && L'[c.id] == FrameCell(c, y.id))
    && (forall n :: n in L && n != t.id && n != y.id && n != RootId(b) && n != ParentId(c) ==> n in L' && L'[n] == L[n])
  }

  /** What the assignments of a rotation read: the node, its child, the inner grandchild and the
      parent. */
  ghost predicate Rotatable(L: Cells, root: RBNode?, t: Tree, c: Ctx, mirror: bool) {
    && t.Node? && Child(t, mirror).Node?
    && var y := Child(t, mirror);
       var b := Child(y, !mirror);
    && t.id in L && t.id != ParentId(c)
    && L[t.id] == Cell(t.key, t.value, t.color, ParentId(c), RootId(t.left), RootId(t.right))
    && (c.Frame? ==> c.id in L && L[c.id] == FrameCell(c, t.id) && RootId(c.sib) != t.id)
    && (c.Top? ==> root == t.id)
    && y.id in L && t.id != y.id && y.id != ParentId(c)
    && L[y.id] == Cell(y.key, y.value, y.color, t.id, RootId(y.left), RootId(y.right))
    && (b.Node? ==>
          && b.id in L && b.id != t.id && b.id != y.id && b.id != ParentId(c)
          && L[b.id] == Cell(b.key, b.value, b.color, y.id, RootId(b.left), RootId(b.right)))
  }

  lemma FocusNode(L: Cells, root: RBNode?, t: Tree, c: Ctx)
    requires At(L, root, t, c)
    ensures t.Node? ==> t.id in L && t.id != ParentId(c)
    ensures t.Node? ==> L[t.id] == Cell(t.key, t.value, t.color, ParentId(c), RootId(t.left), RootId(t.right))
    ensures c.Frame? ==> c.id in L && L[c.id] == FrameCell(c, RootId(t)) && (c.sib.Node? ==> RootId(c.sib) != RootId(t))
    ensures c.Top? ==> root == RootId(t)
  {
  }

  /** The nodes a rotation touches, before it: they are there, distinct, and linked. */
  lemma RotationNodes(L: Cells, root: RBNode?, t: Tree, c: Ctx, mirror: bool)
    requires At(L, root, t, c) && t.Node? && Child(t, mirror).Node?
    ensures Rotatable(L, root, t, c, mirror)
  {
    var y := Child(t, mirror);
    var b := Child(y, !mirror);
    FocusNode(L, root, t, c);
    assert Linked(L, y, t.id) && Distinct(y);
    assert Linked(L, b, y.id) && Ids(b) <= Ids(y) <= Ids(t);
  }

  lemma RotatedTree(L: Cells, L': Cells, root: RBNode?, root': RBNode?, t: Tree, c: Ctx, mirror: bool)
    requires t.Node? && Child(t, mirror).Node? && Rotated(L, L', root, root', t, c, mirror)
    requires Linked(L, t, ParentId(c)) && Distinct(t) && ParentId(c) !in Ids(t)
    ensures Linked(L', Rotate(t, mirror), ParentId(c))
  {
    var y := Child(t, mirror);
    var a, b, d := Child(t, !mirror), Child(y, !mirror), Child(y, mirror);
    assert Linked(L, y, t.id) && Distinct(y);
    LinkedFrame(L, L', a, t.id);
    LinkedFrame(L, L', d, y.id);
    RehungTree(L, L', b, y.id, t.id);
    assert Linked(L', if mirror then t.(left := b) else t.(right := b), y.id);
  }

  lemma RotatedAt(L: Cells, L': Cells, root: RBNode?, root': RBNode?, t: Tree, c: Ctx, mirror: bool)
    requires At(L, root, t, c) && t.Node? && Child(t, mirror).Node?
    requires L'.Keys == L.Keys && Rotated(L, L', root, root', t, c, mirror)
    ensures At(L', root', Rotate(t, mirror), c)
  {
    RotatedIds(t, mirror);
    RotatedTree(L, L', root, root', t, c, mirror);
    RehungCtx(L, L', c, t, Child(t, mirror).id, root, root');
  }

  // ---- recolouring ----

  ghost function Tint(L: Cells, n: RBNode, color: Color): Cells
    requires n in L
  {
    L[n := L[n].(color := color)]
  }

  /** The state of _insert_fixup: the linked tree with the focus on the red node t, whose only
      fault may be a red parent, and whose entries are items. */
  ghost predicate Inserting(L: Cells, root: RBNode?, t: Tree, c: Ctx, items: seq<Entry>) {
    At(L, root, t, c) && InsertInv(c, t) && Items(Zip(c, t)) == items
  }

  lemma InsertStart(L: Cells, root: RBNode?, t: Tree, c: Ctx)
    requires At(L, root, t, c) && InsertInv(c, t)
    ensures Inserting(L, root, t, c, Items(Zip(c, t))) && t.Node? && t.id in L
  {
  }

  /** Everything _insert_fixup reads around the focus: parent, grandparent and uncle. */
  lemma InsertNodes(L: Cells, root: RBNode?, t: Tree, c: Ctx, items: seq<Entry>)
    requires Inserting(L, root, t, c, items)
    ensures t.Node? && t.id in L && L[t.id].parent == ParentId(c)
    ensures c.Frame? ==> c.id in L && L[c.id] == FrameCell(c, t.id) && RootId(c.sib) != t.id
    ensures RedFrame(c) ==>
      && c.up.Frame? && c.up.id in L && L[c.up.id] == FrameCell(c.up, c.id) && RootId(c.up.sib) != c.id
    ensures RedFrame(c) && c.up.sib.Node? ==>
      && c.up.sib.id in L && L[c.up.sib.id].color == c.up.sib.color
  {
    FocusNode(L, root, t, c);
    if RedFrame(c) {
      FocusUp(L, root, t, c);
      FocusNode(L, root, Plug(c, t), c.up);
      FocusAcross(L, root, Plug(c, t), c.up);
      FocusNode(L, root, c.up.sib, Across(c.up, Plug(c, t)));
    }
  }

  /** Leaving the loop of _insert_fixup: painting the root black makes a red-black tree. */
  lemma InsertEnd(L: Cells, root: RBNode?, t: Tree, c: Ctx, items: seq<Entry>)
    requires Inserting(L, root, t, c, items) && !RedFrame(c)
    ensures root != null && root in L && At(Tint(L, root, Black), root, Paint(Zip(c, t), Black), Top)
    ensures RedBlack(Paint(Zip(c, t), Black)) && Items(Paint(Zip(c, t), Black)) == items
  {
    var T := Zip(c, t);
    FocusTop(L, root, t, c);
    ZipBalanced(c, t);
    ZipNode(c, t);
    BlackenBalanced(T);
    PaintedAt(L, Tint(L, root, Black), root, T, Top, Black);
  }

  lemma UncledAt(L: Cells, root: RBNode?, t: Tree, c: Ctx)
    requires At(L, root, t, c) && c.Frame? && c.up.Frame? && c.up.sib.Node?
    requires c.id in L && c.up.sib.id in L && c.up.id in L
    ensures At(Tint(Tint(Tint(L, c.id, Black), c.up.sib.id, Black), c.up.id, Red), root, Uncled(c, t), c.up.up)
  {
    var u, p := c.up, Plug(c.(color := Black), t);
    var L1 := Tint(L, c.id, Black);
    var L2 := Tint(L1, u.sib.id, Black);
    FocusUp(L, root, t, c);
    PaintedAt(L, L1, root, Plug(c, t), u, Black);
    FocusAcross(L1, root, p, u);
    PaintedAt(L1, L2, root, u.sib, Across(u, p), Black);
    var u' := u.(sib := Paint(u.sib, Black));
    FocusAcross(L2, root, Paint(u.sib, Black), Across(u, p));
    FocusUp(L2, root, p, u');
    PaintedAt(L2, Tint(L2, u.id, Red), root, Plug(u', p), u.up, Red);
  }

  /** Black parent, red grandparent: the colours before the last rotation of _insert_fixup. */
  lemma OuterAt(L: Cells, root: RBNode?, t: Tree, c: Ctx)
    requires At(L, root, t, c) && c.Frame? && c.up.Frame? && c.id in L && c.up.id in L
    ensures At(Tint(Tint(L, c.id, Black), c.up.id, Red), root,
               Plug(c.up.(color := Red), Plug(c.(color := Black), t)), c.up.up)
  {
    var u, p := c.up, Plug(c.(color := Black), t);
    var L1 := Tint(L, c.id, Black);
    FocusUp(L, root, t, c);
    PaintedAt(L, L1, root, Plug(c, t), u, Black);
    FocusUp(L1, root, p, u);
    PaintedAt(L1, Tint(L1, u.id, Red), root, Plug(u, p), u.up, Red);
  }

  /** _insert_fixup around its first rotation, at the parent. */
  lemma StraightenedAt(L: Cells, root: RBNode?, t: Tree, c: Ctx, items: seq<Entry>)
    requires InsertInv(c, t) && RedFrame(c) && c.up.Frame? && c.onLeft != c.up.onLeft && !IsRed(c.up.sib)
    requires Items(Zip(c, t)) == items
    requires At(L, root, Rotate(Plug(c, t), c.onLeft), c.up)
    ensures
      var t', c' := Child(Rotate(Plug(c, t), c.onLeft), !c.onLeft), Straightened(c, t);
      && Inserting(L, root, t', c', items) && t'.id == c.id && c'.id == t.id
      && RedFrame(c') && c'.onLeft == c.up.onLeft && c'.up == c.up
  {
    StraightenedInv(c, t);
    FocusDown(L, root, Child(Rotate(Plug(c, t), c.onLeft), !c.onLeft), Straightened(c, t));
  }

  /** _insert_fixup after its last rotation, at the grandparent. */
  lemma OutsideAt(L: Cells, root: RBNode?, t: Tree, c: Ctx, items: seq<Entry>)
    requires InsertInv(c, t) && RedFrame(c) && c.up.Frame? && c.onLeft == c.up.onLeft && !IsRed(c.up.sib)
    requires Items(Zip(c, t)) == items
    requires At(L, root, Outer(c, t), c.up.up)
    ensures Outer(c, t).Node?
    ensures Inserting(L, root, t, Enter(c.up.up, Outer(c, t), c.onLeft), items)
    ensures !RedFrame(Enter(c.up.up, Outer(c, t), c.onLeft))
  {
    OuterInv(c, t);
    FocusDown(L, root, t, Enter(c.up.up, Outer(c, t), c.onLeft));
  }

  // ---- deletion ----

  /** The state of _delete_fixup: the focus t, possibly None, is one black node short in c. */
  ghost predicate Deleting(L: Cells, root: RBNode?, t: Tree, c: Ctx, items: seq<Entry>) {
    At(L, root, t, c) && DeleteInv(c, t) && Items(Zip(c, t)) == items
  }

  lemma DeleteStart(L: Cells, root: RBNode?, t: Tree, c: Ctx)
    requires At(L, root, t, c) && DeleteInv(c, t)
    ensures Deleting(L, root, t, c, Items(Zip(c, t)))
  {
  }

  lemma {:induction false} RootIsTop(L: Cells, root: RBNode?, t: Tree, c: Ctx)
    requires At(L, root, t, c)
    ensures root == RootId(Zip(c, t)) && (c.Frame? ==> root != null && root in CtxIds(c))
    ensures root == RootId(t) <==> c.Top?
    decreases c
  {
    if c.Frame? {
      FocusUp(L, root, t, c);
      RootIsTop(L, root, Plug(c, t), c.up);
    }
  }

  /** Everything _delete_fixup reads around the focus: parent, sibling and nephews. */
  lemma DeleteNodes(L: Cells, root: RBNode?, t: Tree, c: Ctx, items: seq<Entry>)
    requires Deleting(L, root, t, c, items)
    ensures root == RootId(t) <==> c.Top?
    ensures t.Node? ==> t.id in L && L[t.id].color == t.color && L[t.id].parent == ParentId(c)
    ensures c.Frame? ==> c.id in L && L[c.id] == FrameCell(c, RootId(t)) && c.id != RootId(t)
    ensures c.Frame? ==>
      && c.sib.Node? && c.sib.id in L && c.sib.id != RootId(t)
      && L[c.sib.id] == Cell(c.sib.key, c.sib.value, c.sib.color, c.id, RootId(c.sib.left), RootId(c.sib.right))
    ensures c.Frame? && c.sib.Node? && c.sib.left.Node? ==>
      c.sib.left.id in L && L[c.sib.left.id].color == c.sib.left.color
    ensures c.Frame? && c.sib.Node? && c.sib.right.Node? ==>
      c.sib.right.id in L && L[c.sib.right.id].color == c.sib.right.color
  {
    RootIsTop(L, root, t, c);
    FocusNode(L, root, t, c);
    if c.Frame? {
      SiblingExists(c, t);
      FocusAcross(L, root, t, c);
      FocusNode(L, root, c.sib, Across(c, t));
      assert Linked(L, c.sib, c.id) && Linked(L, c.sib.left, c.sib.id) && Linked(L, c.sib.right, c.sib.id);
    }
  }

  /** The colours before the rotation at the parent of a red sibling. */
  lemma ReseatColors(L: Cells, root: RBNode?, t: Tree, c: Ctx)
    requires At(L, root, t, c) && c.Frame? && c.sib.Node? && c.sib.id in L && c.id in L
    ensures At(Tint(Tint(L, c.sib.id, Black), c.id, Red), root,
               Plug(c.(color := Red, sib := Paint(c.sib, Black)), t), c.up)
  {
    SiblingPainted(L, root, t, c, Black);
    var L1, c1 := Tint(L, c.sib.id, Black), c.(sib := Paint(c.sib, Black));
    FocusUp(L1, root, t, c1);
    PaintedAt(L1, Tint(L1, c.id, Red), root, Plug(c1, t), c.up, Red);
  }

  lemma SiblingPainted(L: Cells, root: RBNode?, t: Tree, c: Ctx, color: Color)
    requires At(L, root, t, c) && c.Frame? && c.sib.Node? && c.sib.id in L
    ensures At(Tint(L, c.sib.id, color), root, t, c.(sib := Paint(c.sib, color)))
  {
    var L1 := Tint(L, c.sib.id, color);
    FocusAcross(L, root, t, c);
    PaintedAt(L, L1, root, c.sib, Across(c, t), color);
    FocusAcross(L1, root, Paint(c.sib, color), Across(c, t));
  }

  /** Painting a child of the focused node. */
  lemma ChildPainted(L: Cells, root: RBNode?, t: Tree, c: Ctx, left: bool, color: Color)
    requires At(L, root, t, c) && t.Node? && Child(t, left).Node? && Child(t, left).id in L
    ensures At(Tint(L, Child(t, left).id, color), root,
               if left then t.(left := Paint(t.left, color)) else t.(right := Paint(t.right, color)), c)
  {
    var L1 := Tint(L, Child(t, left).id, color);
    var f := Enter(c, t, left);
    FocusDown(L, root, Child(t, left), f);
    PaintedAt(L, L1, root, Child(t, left), f, color);
    FocusUp(L1, root, Paint(Child(t, left), color), f);
  }

  lemma ReseatedAt(L: Cells, root: RBNode?, t: Tree, c: Ctx, items: seq<Entry>)
    requires DeleteInv(c, t) && c.Frame? && IsRed(c.sib) && !IsRed(t) && Items(Zip(c, t)) == items
    requires At(L, root, Reseated(c, t), c.up)
    ensures
      var r := Reseated(c, t);
      && r.Node? && Child(r, c.onLeft).Node?
      && var c' := Enter(Enter(c.up, r, c.onLeft), Child(r, c.onLeft), c.onLeft);
      && Deleting(L, root, t, c', items)
      && c'.id == c.id && c'.color.Red? && !IsRed(c'.sib) && c'.onLeft == c.onLeft && CtxDepth(c'.up) == CtxDepth(c)
  {
    ReseatedInv(c, t);
    var r := Reseated(c, t);
    var c1 := Enter(c.up, r, c.onLeft);
    FocusDown(L, root, Child(r, c.onLeft), c1);
    FocusDown(L, root, t, Enter(c1, Child(r, c.onLeft), c.onLeft));
  }

  lemma LoweredAt(L: Cells, root: RBNode?, t: Tree, c: Ctx, items: seq<Entry>)
    requires Deleting(L, root, t, c, items) && c.Frame? && c.sib.Node? && !IsRed(c.sib) && !IsRed(t)
    requires !IsRed(c.sib.left) && !IsRed(c.sib.right) && c.sib.id in L
    ensures Deleting(Tint(L, c.sib.id, Red), root, Lowered(c, t), c.up, items)
  {
    SiblingPainted(L, root, t, c, Red);
    FocusUp(Tint(L, c.sib.id, Red), root, t, c.(sib := Paint(c.sib, Red)));
    LoweredInv(c, t);
  }

  /** The sibling as it is just before the rotation at the sibling. */
  function Reddened(c: Ctx): Tree
    requires c.Frame? && c.sib.Node?
  {
    if c.onLeft then c.sib.(color := Red, left := Paint(c.sib.left, Black))
    else c.sib.(color := Red, right := Paint(c.sib.right, Black))
  }

  lemma TurnColors(L: Cells, root: RBNode?, t: Tree, c: Ctx)
    requires At(L, root, t, c) && c.Frame? && c.sib.Node? && Child(c.sib, c.onLeft).Node?
    requires Child(c.sib, c.onLeft).id in L && c.sib.id in L
    ensures At(Tint(Tint(L, Child(c.sib, c.onLeft).id, Black), c.sib.id, Red), root, Reddened(c), Across(c, t))
  {
    var near := Child(c.sib, c.onLeft);
    FocusAcross(L, root, t, c);
    ChildPainted(L, root, c.sib, Across(c, t), c.onLeft, Black);
    var L1 := Tint(L, near.id, Black);
    var w1 := if c.onLeft then c.sib.(left := Paint(near, Black)) else c.sib.(right := Paint(near, Black));
    PaintedAt(L1, Tint(L1, c.sib.id, Red), root, w1, Across(c, t), Red);
  }

  lemma TurnedAt(L: Cells, root: RBNode?, t: Tree, c: Ctx, items: seq<Entry>)
    requires DeleteInv(c, t) && c.Frame? && c.sib.Node? && !IsRed(c.sib) && Items(Zip(c, t)) == items
    requires IsRed(Child(c.sib, c.onLeft)) && !IsRed(Child(c.sib, !c.onLeft))
    requires At(L, root, Rotate(Reddened(c), c.onLeft), Across(c, t))
    ensures Deleting(L, root, t, Turned(c), items)
    ensures Turned(c).sib.Node? && !IsRed(Turned(c).sib) && IsRed(Child(Turned(c).sib, !c.onLeft))
  {
    TurnedInv(c, t);
    FocusAcross(L, root, Rotate(Reddened(c), c.onLeft), Across(c, t));
  }

  /** The parent's subtree as it is just before the last rotation. */
  function Balancing(c: Ctx, t: Tree): (r: Tree)
    requires c.Frame? && c.sib.Node?
    ensures r.Node? && r.id == c.id
  {
    var w := c.sib;
    Plug(c.(color := Black, sib := if c.onLeft then w.(color := c.color, right := Paint(w.right, Black))
                                   else w.(color := c.color, left := Paint(w.left, Black))), t)
  }

  lemma SettleColors(L: Cells, root: RBNode?, t: Tree, c: Ctx)
    requires At(L, root, t, c) && c.Frame? && c.sib.Node? && Child(c.sib, !c.onLeft).Node?
    requires c.id in L && c.sib.id in L && Child(c.sib, !c.onLeft).id in L
    ensures At(Tint(Tint(Tint(L, c.sib.id, c.color), c.id, Black), Child(c.sib, !c.onLeft).id, Black), root,
               Balancing(c, t), c.up)
  {
    var far := Child(c.sib, !c.onLeft);
    var L1, c1 := Tint(L, c.sib.id, c.color), c.(sib := Paint(c.sib, c.color));
    SiblingPainted(L, root, t, c, c.color);
    FocusUp(L1, root, t, c1);
    var L2, c2 := Tint(L1, c.id, Black), c1.(color := Black);
    PaintedAt(L1, L2, root, Plug(c1, t), c.up, Black);
    FocusDown(L2, root, t, c2);
    FocusAcross(L2, root, t, c2);
    ChildPainted(L2, root, c2.sib, Across(c2, t), !c.onLeft, Black);
    var L3 := Tint(L2, far.id, Black);
    var w3 := if c.onLeft then c2.sib.(right := Paint(far, Black)) else c2.sib.(left := Paint(far, Black));
    FocusAcross(L3, root, w3, Across(c2, t));
    FocusUp(L3, root, t, c2.(sib := w3));
  }

  lemma SettledAt(L: Cells, root: RBNode?, t: Tree, c: Ctx, items: seq<Entry>)
    requires DeleteInv(c, t) && c.Frame? && c.sib.Node? && !IsRed(c.sib) && !IsRed(t)
    requires IsRed(Child(c.sib, !c.onLeft)) && Items(Zip(c, t)) == items
    requires At(L, root, Rotate(Balancing(c, t), !c.onLeft), c.up)
    ensures Deleting(L, root, Zip(c.up, Settled(c, t)), Top, items)
  {
    SettledInv(c, t);
    FocusTop(L, root, Settled(c, t), c.up);
    BlackenBalanced(Zip(c.up, Settled(c, t)));
  }

  /** Leaving the loop of _delete_fixup: painting the focus and then the root black. */
  lemma DeleteEnd(L: Cells, root: RBNode?, t: Tree, c: Ctx, items: seq<Entry>)
    requires Deleting(L, root, t, c, items) && (IsRed(t) || c.Top?)
    ensures
      var L1 := if t.Node? && t.id in L then Tint(L, t.id, Black) else L;
      var T := Zip(c, Paint(t, Black));
      && At(L1, root, T, Top) && RedBlack(T) && Items(T) == items
      && (root != null ==> root in L1 && Tint(L1, root, Black) == L1)
  {
    RepaidInv(c, t);
    var L1 := if t.Node? && t.id in L then Tint(L, t.id, Black) else L;
    if t.Node? {
      PaintedAt(L, L1, root, t, c, Black);
    }
    FocusTop(L1, root, Paint(t, Black), c);
    FocusNode(L1, root, Zip(c, Paint(t, Black)), Top);
  }

}
