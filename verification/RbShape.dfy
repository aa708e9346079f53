/** The red-black tree of src/orderbook/rb_tree.py seen as a value: a tree of linked
    nodes, and a context that is "the rest of the tree" around a subtree. The pointer
    algorithms in RedBlackTree.dfy move a focus through that pair. */
module RbShape {

  datatype Color = Red | Black

  class RBNode {
    var key: real
    var value: real
    var color: Color
    var parent: RBNode?
    var left: RBNode?
    var right: RBNode?

    constructor (key: real, value: real, color: Color, parent: RBNode?)
      ensures this.key == key && this.value == value && this.color == color && this.parent == parent
      ensures left == null && right == null
    {
      this.key, this.value, this.color, this.parent := key, value, color, parent;
      left, right := null, null;
    }
  }

  /** A subtree, with the node that carries each entry. Nil is Python's None. */
  datatype Tree = Nil | Node(id: RBNode, color: Color, key: real, value: real, left: Tree, right: Tree)

  /** Everything outside a subtree: the path from its parent up to the root, with the
      sibling at each step. onLeft tells that the path goes through the left child. */
  datatype Ctx = Top | Frame(onLeft: bool, id: RBNode, color: Color, key: real, value: real, sib: Tree, up: Ctx)

  type Entry = (real, real)

  function RootId(t: Tree): RBNode? {
    if t.Nil? then null else t.id
  }

  function ParentId(c: Ctx): RBNode? {
    if c.Top? then null else c.id
  }

  /** The subtree rooted at the frame c when t fills its hole. */
  function Plug(c: Ctx, t: Tree): (r: Tree)
    requires c.Frame?
    ensures r.Node?
  {
    if c.onLeft then Node(c.id, c.color, c.key, c.value, t, c.sib)
    else Node(c.id, c.color, c.key, c.value, c.sib, t)
  }

  function Zip(c: Ctx, t: Tree): Tree
    decreases c
  {
    if c.Top? then t else Zip(c.up, Plug(c, t))
  }

  /** The frame left behind when the focus moves from t to its left or right child. */
  function Enter(c: Ctx, t: Tree, left: bool): (r: Ctx)
    requires t.Node?
    ensures r.Frame? && r.up == c && r.onLeft == left
    ensures Plug(r, if left then t.left else t.right) == t
  {
    Frame(left, t.id, t.color, t.key, t.value, if left then t.right else t.left, c)
  }

  function Child(t: Tree, left: bool): Tree
    requires t.Node?
  {
    if left then t.left else t.right
  }

  /** The mirror focus: the sibling of t, with t as its sibling. */
  function Across(c: Ctx, t: Tree): Ctx
    requires c.Frame?
  {
    Frame(!c.onLeft, c.id, c.color, c.key, c.value, t, c.up)
  }

  function Paint(t: Tree, color: Color): Tree {
    if t.Nil? then t else t.(color := color)
  }

  /** What _rotate_left and _rotate_right (mirror == true) do to a subtree. */
  function Rotate(t: Tree, mirror: bool): Tree {
    if t.Nil? || Child(t, mirror).Nil? then t
    else if !mirror then
      var y := t.right;
      y.(left := t.(right := y.left))
    else
      var x := t.left;
      x.(right := t.(left := x.right))
  }

  // ---- entries in key order ----

  function Items(t: Tree): seq<Entry> {
    if t.Nil? then [] else Items(t.left) + [(t.key, t.value)] + Items(t.right)
  }

  function Before(c: Ctx): seq<Entry>
    decreases c
  {
    if c.Top? then [] else if c.onLeft then Before(c.up)
    else Before(c.up) + Items(c.sib) + [(c.key, c.value)]
  }

  function After(c: Ctx): seq<Entry>
    decreases c
  {
    if c.Top? then [] else if !c.onLeft then After(c.up)
    else [(c.key, c.value)] + Items(c.sib) + After(c.up)
  }

  lemma Regroup<T>(a: seq<T>, b: seq<T>, x: T, c: seq<T>, d: seq<T>)
    ensures a + (b + [x] + c) + d == (a + b + [x]) + c + d
    ensures a + (b + [x] + c) + d == a + b + ([x] + c + d)
    ensures a + (b + [x] + c) + d == (a + b) + [x] + (c + d)
  {
  }

  /** Reading the whole tree in key order: what is before the hole, the hole, what is after. */
  lemma {:induction false} ZipItems(c: Ctx, t: Tree)
    ensures Items(Zip(c, t)) == Before(c) + Items(t) + After(c)
    decreases c
  {
    if c.Top? {
    } else {
      ZipItems(c.up, Plug(c, t));
      if c.onLeft {
        Regroup(Before(c.up), Items(t), (c.key, c.value), Items(c.sib), After(c.up));
      } else {
        Regroup(Before(c.up), Items(c.sib), (c.key, c.value), Items(t), After(c.up));
      }
    }
  }

  lemma ZipSameItems(c: Ctx, t: Tree, t': Tree)
    requires Items(t) == Items(t')
    ensures Items(Zip(c, t)) == Items(Zip(c, t'))
  {
    ZipItems(c, t);
    ZipItems(c, t');
  }

  /** Rotations keep the entries and their order. */
  lemma RotateItems(t: Tree, mirror: bool)
    ensures Items(Rotate(t, mirror)) == Items(t)
  {
    if t.Nil? || Child(t, mirror).Nil? {
    } else if !mirror {
      var y := t.right;
      Regroup(Items(t.left) + [(t.key, t.value)], Items(y.left), (y.key, y.value), Items(y.right), []);
    } else {
      var x := t.left;
      Regroup(Items(x.left) + [(x.key, x.value)], Items(x.right), (t.key, t.value), Items(t.right), []);
    }
  }

  function Size(t: Tree): nat {
    if t.Nil? then 0 else 1 + Size(t.left) + Size(t.right)
  }

  lemma SizeIsItems(t: Tree)
    ensures Size(t) == |Items(t)|
  {
  }

  // ---- colours and black height ----

  predicate IsRed(t: Tree) {
    t.Node? && t.color.Red?
  }

  predicate RedFrame(c: Ctx) {
    c.Frame? && c.color.Red?
  }

  /** Black nodes on the leftmost path; by Balanced, on every path. */
  function Bh(t: Tree): nat {
    if t.Nil? then 0 else Bh(t.left) + if t.color.Black? then 1 else 0
  }

  /** No red node with a red child, and equal black height on all paths. */
  predicate Balanced(t: Tree) {
    t.Node? ==>
      && Balanced(t.left) && Balanced(t.right)
      && Bh(t.left) == Bh(t.right)
      && (t.color.Red? ==> !IsRed(t.left) && !IsRed(t.right))
  }

  /** The context is balanced around a hole of black height h. */
  predicate BalancedCtx(c: Ctx, h: nat)
    decreases c
  {
    c.Frame? ==>
      && Balanced(c.sib) && Bh(c.sib) == h
      && (c.color.Red? ==> !IsRed(c.sib) && !RedFrame(c.up))
      && BalancedCtx(c.up, h + if c.color.Black? then 1 else 0)
  }

  predicate RootFrameBlack(c: Ctx)
    decreases c
  {
    c.Frame? ==> if c.up.Top? then c.color.Black? else RootFrameBlack(c.up)
  }

  predicate RedBlack(t: Tree) {
    Balanced(t) && !IsRed(t)
  }

  lemma BlackenBalanced(t: Tree)
    requires Balanced(t)
    ensures RedBlack(Paint(t, Black)) && Bh(Paint(t, Black)) == Bh(t) + if IsRed(t) then 1 else 0
  {
  }

  lemma PlugBalanced(c: Ctx, t: Tree)
    requires c.Frame? && Balanced(t) && BalancedCtx(c, Bh(t)) && !(RedFrame(c) && IsRed(t))
    ensures Balanced(Plug(c, t)) && BalancedCtx(c.up, Bh(Plug(c, t))) && !(RedFrame(c.up) && IsRed(Plug(c, t)))
  {
  }

  lemma {:induction false} ZipBalanced(c: Ctx, t: Tree)
    requires Balanced(t) && BalancedCtx(c, Bh(t)) && !(RedFrame(c) && IsRed(t))
    ensures Balanced(Zip(c, t))
    ensures c.Frame? && RootFrameBlack(c) ==> !IsRed(Zip(c, t))
    decreases c
  {
    if c.Top? {
    } else {
      PlugBalanced(c, t);
      ZipBalanced(c.up, Plug(c, t));
    }
  }

  lemma {:induction false} ZipNode(c: Ctx, t: Tree)
    requires t.Node? || c.Frame?
    ensures Zip(c, t).Node?
    decreases c
  {
    if c.Frame? { ZipNode(c.up, Plug(c, t)); }
  }

  lemma ZipUnfold(c: Ctx, t: Tree)
    requires c.Frame?
    ensures Zip(c, t) == Zip(c.up, Plug(c, t))
  {
  }

  // ---- insertion fix-up, one step at a time ----

  function CtxDepth(c: Ctx): nat
    decreases c
  {
    if c.Top? then 0 else 1 + CtxDepth(c.up)
  }

  /** Loop invariant of _insert_fixup: t is red and the only possible fault is a red parent. */
  predicate InsertInv(c: Ctx, t: Tree) {
    IsRed(t) && Balanced(t) && BalancedCtx(c, Bh(t)) && RootFrameBlack(c)
  }

  /** Red uncle: recolour and move two levels up. */
  function Uncled(c: Ctx, t: Tree): (r: Tree)
    requires c.Frame? && c.up.Frame?
    ensures r.Node? && r.id == c.up.id
  {
    Plug(c.up.(color := Red, sib := Paint(c.up.sib, Black)), Plug(c.(color := Black), t))
  }

  lemma UncledInv(c: Ctx, t: Tree)
    requires InsertInv(c, t) && RedFrame(c) && c.up.Frame? && IsRed(c.up.sib)
    ensures InsertInv(c.up.up, Uncled(c, t))
    ensures Items(Zip(c.up.up, Uncled(c, t))) == Items(Zip(c, t))
  {
    var u, p := c.up, Plug(c.(color := Black), t);
    assert BalancedCtx(u, Bh(t)) && RootFrameBlack(u);
    BlackenBalanced(u.sib);
    assert Balanced(p) && Bh(p) == Bh(t) + 1;
    assert Items(p) == Items(Plug(c, t));
    ZipSameItems(u.up, Plug(u, Plug(c, t)), Uncled(c, t));
  }

  /** Inner grandchild: a rotation at the parent makes it an outer one. */
  function Straightened(c: Ctx, t: Tree): Ctx
    requires c.Frame? && t.Node?
  {
    Enter(c.up, Rotate(Plug(c, t), c.onLeft), !c.onLeft)
  }

  lemma StraightenedInv(c: Ctx, t: Tree)
    requires InsertInv(c, t) && RedFrame(c) && c.up.Frame? && c.onLeft != c.up.onLeft && !IsRed(c.up.sib)
    ensures
      var p, c' := Plug(c, t), Straightened(c, t);
      var t' := Child(Rotate(p, c.onLeft), !c.onLeft);
      && InsertInv(c', t') && RedFrame(c') && t'.id == c.id && c'.id == t.id
      && c'.up == c.up && c'.onLeft == c.up.onLeft
      && Zip(c', t') == Zip(c.up, Rotate(p, c.onLeft))
      && Items(Zip(c', t')) == Items(Zip(c, t))
  {
    var p := Plug(c, t);
    RotateItems(p, c.onLeft);
    ZipSameItems(c.up, p, Rotate(p, c.onLeft));
  }

  /** Outer grandchild: after recolouring, a rotation at the grandparent finishes. */
  function Outer(c: Ctx, t: Tree): Tree
    requires c.Frame? && c.up.Frame?
  {
    Rotate(Plug(c.up.(color := Red), Plug(c.(color := Black), t)), c.up.onLeft)
  }

  lemma OuterInv(c: Ctx, t: Tree)
    requires InsertInv(c, t) && RedFrame(c) && c.up.Frame? && c.onLeft == c.up.onLeft && !IsRed(c.up.sib)
    ensures
      var r := Outer(c, t);
      var c' := Enter(c.up.up, r, c.onLeft);
      && r.Node? && r.id == c.id && Child(r, c.onLeft) == t && r.color.Black?
      && InsertInv(c', t)
      && Zip(c', t) == Zip(c.up.up, r)
      && Items(Zip(c', t)) == Items(Zip(c, t))
  {
    var u, p := c.up, Plug(c.(color := Black), t);
    var g := Plug(u.(color := Red), p);
    assert BalancedCtx(u, Bh(t));
    var g' := Plug(u.(color := Red), c.sib);
    assert Balanced(g') && Bh(g') == Bh(t);
    assert Child(Outer(c, t), !c.onLeft) == g';
    assert Items(p) == Items(Plug(c, t));
    RotateItems(g, u.onLeft);
    ZipSameItems(u.up, Plug(u, Plug(c, t)), Outer(c, t));
    assert RootFrameBlack(u);
  }

  // ---- deletion fix-up, one step at a time ----

  /** Loop invariant of _delete_fixup: the hole wants one black node more than t has,
      and t would be sound once painted black. */
  predicate DeleteInv(c: Ctx, t: Tree) {
    Balanced(Paint(t, Black)) && BalancedCtx(c, Bh(t) + 1) && RootFrameBlack(c)
  }

  /** The sibling of a node that is one black node short always exists. */
  lemma SiblingExists(c: Ctx, t: Tree)
    requires DeleteInv(c, t) && c.Frame?
    ensures c.sib.Node?
  {
  }

  /** Red sibling: recolour and rotate at the parent. */
  function Reseated(c: Ctx, t: Tree): Tree
    requires c.Frame?
  {
    Rotate(Plug(c.(color := Red, sib := Paint(c.sib, Black)), t), !c.onLeft)
  }

  lemma ReseatedInv(c: Ctx, t: Tree)
    requires DeleteInv(c, t) && c.Frame? && IsRed(c.sib) && !IsRed(t)
    ensures
      var r := Reseated(c, t);
      && r.Node? && Child(r, c.onLeft).Node?
      && var c' := Enter(Enter(c.up, r, c.onLeft), Child(r, c.onLeft), c.onLeft);
      && Child(Child(r, c.onLeft), c.onLeft) == t
      && c'.id == c.id && DeleteInv(c', t) && !IsRed(c'.sib) && c'.onLeft == c.onLeft
      && Items(Zip(c', t)) == Items(Zip(c, t))
  {
    var w := c.sib;
    var r := Reseated(c, t);
    var near, far := Child(w, c.onLeft), Child(w, !c.onLeft);
    assert Balanced(near) && Balanced(far) && Bh(near) == Bh(far) == Bh(t) + 1;
    var p := Child(r, c.onLeft);
    var c1 := Enter(c.up, r, c.onLeft);
    var c' := Enter(c1, p, c.onLeft);
    assert c'.sib == near && c1.sib == far && c1.color.Black? && c'.color.Red?;
    assert BalancedCtx(c1, Bh(t) + 1);
    var q := Plug(c.(color := Red, sib := Paint(w, Black)), t);
    assert Items(q) == Items(Plug(c, t));
    RotateItems(q, !c.onLeft);
    ZipSameItems(c.up, Plug(c, t), r);
    assert RootFrameBlack(c1);
    ZipUnfold(c', t);
    ZipUnfold(c1, p);
  }

  /** Black sibling with two black children: paint it red and move up. */
  function Lowered(c: Ctx, t: Tree): (r: Tree)
    requires c.Frame?
    ensures r.Node? && r.id == c.id && r.color == c.color
  {
    Plug(c.(sib := Paint(c.sib, Red)), t)
  }

  lemma LoweredInv(c: Ctx, t: Tree)
    requires DeleteInv(c, t) && c.Frame? && c.sib.Node? && !IsRed(c.sib) && !IsRed(t)
    requires !IsRed(c.sib.left) && !IsRed(c.sib.right)
    ensures DeleteInv(c.up, Lowered(c, t))
    ensures Items(Zip(c.up, Lowered(c, t))) == Items(Zip(c, t))
  {
    assert Balanced(Paint(c.sib, Red)) && Bh(Paint(c.sib, Red)) == Bh(t);
    assert Balanced(t);
    ZipSameItems(c.up, Plug(c, t), Lowered(c, t));
  }

  /** Only the nephew nearer to t is red: rotate at the sibling so that the far one is. */
  function Turned(c: Ctx): (r: Ctx)
    requires c.Frame? && c.sib.Node?
    ensures r.Frame? && r.id == c.id && r.onLeft == c.onLeft && r.up == c.up
  {
    var w := c.sib;
    c.(sib := Rotate(if c.onLeft then w.(color := Red, left := Paint(w.left, Black))
                     else w.(color := Red, right := Paint(w.right, Black)), c.onLeft))
  }

  lemma TurnedInv(c: Ctx, t: Tree)
    requires DeleteInv(c, t) && c.Frame? && c.sib.Node? && !IsRed(c.sib)
    requires IsRed(Child(c.sib, c.onLeft)) && !IsRed(Child(c.sib, !c.onLeft))
    ensures
      var c' := Turned(c);
      && DeleteInv(c', t) && c'.sib.Node? && !IsRed(c'.sib) && IsRed(Child(c'.sib, !c.onLeft))
      && Items(Zip(c', t)) == Items(Zip(c, t))
  {
    var w, c' := c.sib, Turned(c);
    var near, far := Child(w, c.onLeft), Child(w, !c.onLeft);
    assert Balanced(near) && Balanced(near.left) && Balanced(near.right);
    assert Bh(near.left) == Bh(near.right) == Bh(far) == Bh(near) == Bh(t);
    var w1 := Child(c'.sib, !c.onLeft);
    assert w1.id == w.id && w1.color.Red? && Balanced(w1) && Bh(w1) == Bh(t);
    assert Balanced(c'.sib) && Bh(c'.sib) == Bh(t) + 1;
    var w' := if c.onLeft then w.(color := Red, left := Paint(w.left, Black))
              else w.(color := Red, right := Paint(w.right, Black));
    RotateItems(w', c.onLeft);
    assert Items(w') == Items(w) by {
      assert Items(Paint(near, Black)) == Items(near);
    }
    ZipSameItems(c.up, Plug(c, t), Plug(c', t));
  }

  /** The far nephew is red: the last rotation, which supplies the missing black node. */
  function Settled(c: Ctx, t: Tree): Tree
    requires c.Frame? && c.sib.Node?
  {
    var w := c.sib;
    var w' := if c.onLeft then w.(color := c.color, right := Paint(w.right, Black))
              else w.(color := c.color, left := Paint(w.left, Black));
    Rotate(Plug(c.(color := Black, sib := w'), t), !c.onLeft)
  }

  lemma SettledInv(c: Ctx, t: Tree)
    requires DeleteInv(c, t) && c.Frame? && c.sib.Node? && !IsRed(c.sib) && !IsRed(t)
    requires IsRed(Child(c.sib, !c.onLeft))
    ensures RedBlack(Zip(c.up, Settled(c, t)))
    ensures Items(Zip(c.up, Settled(c, t))) == Items(Zip(c, t))
  {
    var w, r := c.sib, Settled(c, t);
    var near, far := Child(w, c.onLeft), Child(w, !c.onLeft);
    assert Balanced(near) && Bh(near) == Bh(far) == Bh(t) && Balanced(far);
    BlackenBalanced(far);
    assert Balanced(t);
    var p := Child(r, c.onLeft);
    assert r.id == w.id && r.color == c.color && p.id == c.id;
    assert Balanced(p) && Bh(p) == Bh(t) + 1;
    assert Child(r, !c.onLeft) == Paint(far, Black);
    assert Balanced(r) && BalancedCtx(c.up, Bh(r));
    ZipBalanced(c.up, r);
    var w' := if c.onLeft then w.(color := c.color, right := Paint(w.right, Black))
              else w.(color := c.color, left := Paint(w.left, Black));
    RotateItems(Plug(c.(color := Black, sib := w'), t), !c.onLeft);
    assert Items(w') == Items(w);
    ZipSameItems(c.up, Plug(c, t), r);
  }

  /** Leaving the loop: painting the focus black repays the debt. */
  lemma RepaidInv(c: Ctx, t: Tree)
    requires DeleteInv(c, t) && (IsRed(t) || c.Top?)
    ensures RedBlack(Zip(c, Paint(t, Black)))
    ensures Items(Zip(c, Paint(t, Black))) == Items(Zip(c, t))
  {
    if IsRed(t) {
      assert Bh(Paint(t, Black)) == Bh(t) + 1;
      ZipBalanced(c, Paint(t, Black));
      ZipSameItems(c, t, Paint(t, Black));
    }
  }

  // ---- taking out the successor ----

  /** The frame in which a walk down left links started. */
  function Base(c: Ctx): Ctx
    decreases c
  {
    if c.Frame? && c.onLeft then Base(c.up) else c
  }

  /** The base frame with the key and value of another node copied into it. */
  function Rekey(c: Ctx, key: real, value: real): (r: Ctx)
    ensures ParentId(r) == ParentId(c)
    decreases c
  {
    if c.Top? then c
    else if c.onLeft then c.(up := Rekey(c.up, key, value))
    else c.(key := key, value := value)
  }

  lemma {:induction false} RekeyItems(c: Ctx, key: real, value: real)
    requires Base(c).Frame?
    ensures
      var z := Base(c);
      var p := Before(z.up) + Items(z.sib);
      && Before(c) == p + [(z.key, z.value)] && Before(Rekey(c, key, value)) == p + [(key, value)]
    ensures After(Rekey(c, key, value)) == After(c)
    decreases c
  {
    if c.onLeft {
      RekeyItems(c.up, key, value);
    }
  }

  lemma {:induction false} RekeyBalanced(c: Ctx, key: real, value: real, h: nat)
    ensures BalancedCtx(Rekey(c, key, value), h) == BalancedCtx(c, h)
    ensures RootFrameBlack(Rekey(c, key, value)) == RootFrameBlack(c)
    decreases c
  {
    if c.Frame? && c.onLeft {
      RekeyBalanced(c.up, key, value, h + if c.color.Black? then 1 else 0);
    }
  }

  /** Unlinking a node with one missing child: a red one leaves a sound tree, a black one
      leaves a hole that is one black node short. */
  lemma SpliceInv(c: Ctx, y: Tree)
    requires y.Node? && (y.left.Nil? || y.right.Nil?)
    requires Balanced(y) && BalancedCtx(c, Bh(y)) && RootFrameBlack(c) && !(RedFrame(c) && IsRed(y))
    requires c.Top? ==> !IsRed(y)
    ensures
      var x := if y.left.Node? then y.left else y.right;
      if IsRed(y) then RedBlack(Zip(c, x)) else DeleteInv(c, x)
  {
    var x := if y.left.Node? then y.left else y.right;
    if IsRed(y) {
      assert x.Nil?;
      ZipBalanced(c, x);
    }
  }

  // ---- the height bound ----

  function Height(t: Tree): nat {
    if t.Nil? then 0
    else 1 + if Height(t.left) > Height(t.right) then Height(t.left) else Height(t.right)
  }

  function Pow2(n: nat): (r: nat)
    ensures r >= 1
  {
    if n == 0 then 1 else 2 * Pow2(n - 1)
  }

  lemma {:induction false} BlackHeightBounds(t: Tree)
    requires Balanced(t)
    ensures Pow2(Bh(t)) <= Size(t) + 1
    ensures Height(t) <= 2 * Bh(t) + if IsRed(t) then 1 else 0
  {
    if t.Node? {
      BlackHeightBounds(t.left);
      BlackHeightBounds(t.right);
    }
  }

  lemma {:induction false} Pow2Mono(a: nat, b: nat)
    requires a <= b
    ensures Pow2(a) <= Pow2(b)
    decreases b
  {
    if a < b { Pow2Mono(a, b - 1); }
  }

  lemma {:induction false} Pow2Double(n: nat)
    ensures Pow2(2 * n) == Pow2(n) * Pow2(n)
  {
    if n > 0 { Pow2Double(n - 1); }
  }

  lemma SquareMono(a: nat, b: nat)
    requires a <= b
    ensures a * a <= b * b
  {
    assert a * a <= a * b;
  }

  /** height <= 2 * log2(size + 1), without the logarithm. */
  lemma HeightBound(t: Tree)
    requires RedBlack(t)
    ensures Pow2(Height(t)) <= (Size(t) + 1) * (Size(t) + 1)
  {
    BlackHeightBounds(t);
    Pow2Mono(Height(t), 2 * Bh(t));
    Pow2Double(Bh(t));
    SquareMono(Pow2(Bh(t)), Size(t) + 1);
  }

}
