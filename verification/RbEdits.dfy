/** Search, grafting a new leaf and unlinking a node: the parts of insert and delete around
    the fix-ups. */
module RbEdits {
  import opened RbShape
  import opened RbLinks
  import opened KeyedSeq

  /** The focus t inside c is where a search for key has arrived in the sound tree T. */
  ghost predicate Searching(L: Cells, root: RBNode?, T: Tree, t: Tree, c: Ctx, key: real) {
    && At(L, root, t, c) && Zip(c, t) == T && Sorted(Items(T))
    && AllBelow(Before(c), key) && AllAbove(After(c), key)
    && Sound(c, t)
  }

  /** No fault anywhere: colours and black heights fit at the focus. */
  ghost predicate Sound(c: Ctx, t: Tree) {
    && Balanced(t) && BalancedCtx(c, Bh(t)) && RootFrameBlack(c)
    && !(RedFrame(c) && IsRed(t)) && (c.Top? ==> !IsRed(t))
  }

  lemma SearchStart(L: Cells, root: RBNode?, T: Tree, key: real)
    requires At(L, root, T, Top) && RedBlack(T) && Sorted(Items(T))
    ensures Searching(L, root, T, T, Top, key)
  {
  }

  /** Everything a search reads at the focus. */
  lemma SearchNode(L: Cells, root: RBNode?, T: Tree, t: Tree, c: Ctx, key: real)
    requires Searching(L, root, T, t, c, key)
    ensures t.Node? ==> t.id in L
    ensures t.Node? ==> L[t.id] == Cell(t.key, t.value, t.color, ParentId(c), RootId(t.left), RootId(t.right))
    ensures c.Frame? ==> c.id in L && L[c.id] == FrameCell(c, RootId(t))
    ensures At(L, root, t, c)
  {
    FocusNode(L, root, t, c);
  }

  lemma NilRoot(L: Cells, T: Tree)
    requires At(L, null, T, Top)
    ensures T.Nil? && L.Keys == {} && Items(T) == []
  {
  }

  lemma SingleNode(L: Cells, T: Tree, key: real, value: real)
    requires T.Node? && T == Node(T.id, Black, key, value, Nil, Nil)
    requires L.Keys == {T.id} && L[T.id] == Cell(key, value, Black, null, null, null)
    ensures At(L, T.id, T, Top) && RedBlack(T) && Items(T) == [(key, value)] && Size(T) == 1
    ensures Sorted(Items(T)) && ToMap(Items(T)) == map[key := value]
  {
    assert Items(T) == [(key, value)];
  }

  lemma SoundDown(c: Ctx, t: Tree, left: bool)
    requires Sound(c, t) && t.Node?
    ensures Sound(Enter(c, t, left), Child(t, left))
  {
  }

  lemma SearchStep(L: Cells, root: RBNode?, T: Tree, t: Tree, c: Ctx, key: real, left: bool)
    requires Searching(L, root, T, t, c, key) && t.Node? && (if left then key < t.key else key > t.key)
    ensures Searching(L, root, T, Child(t, left), Enter(c, t, left), key)
  {
    FocusDown(L, root, Child(t, left), Enter(c, t, left));
    SoundDown(c, t, left);
    ZipUnfold(Enter(c, t, left), Child(t, left));
    SearchKeys(c, t, key, left);
  }

  lemma ItemsAround(c: Ctx, t: Tree)
    requires t.Node?
    ensures Items(Zip(c, t)) == (Before(c) + Items(t.left)) + [(t.key, t.value)] + (Items(t.right) + After(c))
  {
    ZipItems(c, t);
    Regroup(Before(c), Items(t.left), (t.key, t.value), Items(t.right), After(c));
  }

  lemma SearchKeys(c: Ctx, t: Tree, key: real, left: bool)
    requires t.Node? && Sorted(Items(Zip(c, t))) && AllBelow(Before(c), key) && AllAbove(After(c), key)
    requires if left then key < t.key else key > t.key
    ensures AllBelow(Before(Enter(c, t, left)), key) && AllAbove(After(Enter(c, t, left)), key)
  {
    hide Items, Zip, ToMap, Sorted;
    var a, b := Before(c) + Items(t.left), Items(t.right) + After(c);
    ItemsAround(c, t);
    RemoveEntry(a, t.key, t.value, b);
    var e := Enter(c, t, left);
    if left {
      assert After(e) == [(t.key, t.value)] + b && Before(e) == Before(c);
      forall i | 0 <= i < |After(e)|
        ensures After(e)[i].0 > key
      {
        assert i > 0 ==> After(e)[i] == b[i - 1];
      }
    } else {
      assert Before(e) == a + [(t.key, t.value)] && After(e) == After(c);
      forall i | 0 <= i < |Before(e)|
        ensures Before(e)[i].0 < key
      {
        assert i < |a| ==> Before(e)[i] == a[i];
      }
    }
  }

  /** What a search found: an entry with the key, or the gap where it belongs. */
  lemma SearchEnd(L: Cells, root: RBNode?, T: Tree, t: Tree, c: Ctx, key: real)
    requires Searching(L, root, T, t, c, key) && (t.Node? ==> t.key == key)
    ensures t.Node? <==> key in ToMap(Items(T))
    ensures t.Node? ==> ToMap(Items(T))[key] == t.value
    ensures c.Frame? && t.Nil? ==> if c.onLeft then key < c.key else key > c.key
    ensures c.Top? <==> RootId(t) == root
  {
    ZipItems(c, t);
    RootIsTop(L, root, t, c);
    if t.Node? {
      ItemsAround(c, t);
      ToMapAt(Items(T), |Before(c) + Items(t.left)|);
    } else {
      assert Items(T) == Before(c) + After(c);
      InsertEntry(Before(c), key, 0.0, After(c));
      if c.Frame? {
        if c.onLeft {
          assert After(c)[0] == (c.key, c.value);
        } else {
          assert Before(c)[|Before(c)| - 1] == (c.key, c.value);
        }
      }
    }
  }

  // ---- insert ----

  lemma GraftedAt(L: Cells, root: RBNode?, c: Ctx, n: RBNode, key: real, value: real)
    requires At(L, root, Nil, c) && c.Frame? && n !in L
    ensures At(L[c.id := FrameCell(c, n)][n := Cell(key, value, Red, c.id, null, null)], root,
               Node(n, Red, key, value, Nil, Nil), c)
  {
    var L' := L[c.id := FrameCell(c, n)][n := Cell(key, value, Red, c.id, null, null)];
    RehungCtx(L, L', c, Nil, n, root, root);
  }

  /** The tree with a new red leaf in the gap the search found is ready for _insert_fixup. */
  lemma GraftedInv(L: Cells, root: RBNode?, T: Tree, c: Ctx, n: RBNode, key: real, value: real)
    requires Searching(L, root, T, Nil, c, key)
    ensures
      var leaf := Node(n, Red, key, value, Nil, Nil);
      var items := Items(Zip(c, leaf));
      && InsertInv(c, leaf)
      && Sorted(items) && ToMap(items) == ToMap(Items(T))[key := value] && |items| == |Items(T)| + 1
  {
    var leaf := Node(n, Red, key, value, Nil, Nil);
    ZipItems(c, Nil);
    ZipItems(c, leaf);
    assert Items(leaf) == [(key, value)];
    assert Items(T) == Before(c) + After(c);
    InsertEntry(Before(c), key, value, After(c));
  }

  /** Overwriting the value of an existing key. */
  lemma RevaluedAt(L: Cells, root: RBNode?, T: Tree, t: Tree, c: Ctx, key: real, value: real)
    requires Searching(L, root, T, t, c, key) && t.Node? && t.key == key && t.id in L
    ensures
      var t' := t.(value := value);
      var T' := Zip(c, t');
      && At(L[t.id := L[t.id].(value := value)], root, T', Top)
      && RedBlack(T') && Sorted(Items(T')) && ToMap(Items(T')) == ToMap(Items(T))[key := value]
      && Size(T') == Size(T)
  {
    var t' := t.(value := value);
    var L' := L[t.id := L[t.id].(value := value)];
    RevaluedFocus(L, root, t, c, value);
    hide At, Sorted, Items, ToMap, Size, Linked, LinkedCtx;
    FocusTop(L', root, t', c);
    ZipBalanced(c, t');
    Replaced(c, t, t');
  }

  lemma RevaluedFocus(L: Cells, root: RBNode?, t: Tree, c: Ctx, value: real)
    requires At(L, root, t, c) && t.Node? && t.id in L
    ensures At(L[t.id := L[t.id].(value := value)], root, t.(value := value), c)
  {
    var L' := L[t.id := L[t.id].(value := value)];
    LinkedFrame(L, L', t.left, t.id);
    LinkedFrame(L, L', t.right, t.id);
    LinkedCtxFrame(L, L', c, t.id, root);
  }

  lemma Replaced(c: Ctx, t: Tree, t': Tree)
    requires t.Node? && t'.Node? && t' == t.(value := t'.value) && Sorted(Items(Zip(c, t)))
    ensures Sorted(Items(Zip(c, t'))) && Size(Zip(c, t')) == Size(Zip(c, t))
    ensures ToMap(Items(Zip(c, t'))) == ToMap(Items(Zip(c, t)))[t.key := t'.value]
  {
    var a, b := Before(c) + Items(t.left), Items(t.right) + After(c);
    ItemsAround(c, t);
    ItemsAround(c, t');
    ReplaceEntry(a, t.key, t.value, t'.value, b);
    SizeIsItems(Zip(c, t));
    SizeIsItems(Zip(c, t'));
  }

  // ---- leftmost and rightmost ----

  /** A walk down left links from t0 inside c0 has arrived at t inside c. */
  ghost predicate Leftward(L: Cells, root: RBNode?, t0: Tree, c0: Ctx, t: Tree, c: Ctx) {
    && At(L, root, t, c) && Zip(c, t) == Zip(c0, t0) && t.Node? && Sound(c, t)
    && Base(c) == Base(c0) && Before(c) == Before(c0)
  }

  lemma LeftwardStep(L: Cells, root: RBNode?, t0: Tree, c0: Ctx, t: Tree, c: Ctx)
    requires Leftward(L, root, t0, c0, t, c) && t.left.Node?
    ensures Leftward(L, root, t0, c0, t.left, Enter(c, t, true))
  {
    FocusDown(L, root, t.left, Enter(c, t, true));
    SoundDown(c, t, true);
    ZipUnfold(Enter(c, t, true), t.left);
  }

  ghost predicate Rightward(L: Cells, root: RBNode?, T: Tree, t: Tree, c: Ctx) {
    At(L, root, t, c) && Zip(c, t) == T && t.Node? && After(c) == []
  }

  lemma RightwardStep(L: Cells, root: RBNode?, T: Tree, t: Tree, c: Ctx)
    requires Rightward(L, root, T, t, c) && t.right.Node?
    ensures Rightward(L, root, T, t.right, Enter(c, t, false))
  {
    FocusDown(L, root, t.right, Enter(c, t, false));
    ZipUnfold(Enter(c, t, false), t.right);
  }

  // ---- delete ----

  /** The subtree that takes the place of y when y is unlinked. */
  function Spliced(y: Tree): Tree
    requires y.Node?
  {
    if y.left.Node? then y.left else y.right
  }

  ghost predicate Unlinked(L: Cells, L': Cells, root: RBNode?, root': RBNode?, y: Tree, c: Ctx)
    requires y.Node?
  {
    var x := Spliced(y);
    && L'.Keys == L.Keys - {y.id}
    && (x.Node? ==> x.id in L' && L'[x.id] == Cell(x.key, x.value, x.color, ParentId(c), RootId(x.left),
                                                   RootId(x.right)))
    && (if c.Top? then root' == RootId(x) else root' == root && c.id in L' && L'[c.id] == FrameCell(c, RootId(x)))
    && (forall n :: n in L' && n != RootId(x) && n != ParentId(c) ==> n in L && L'[n] == L[n])
  }

  lemma UnlinkNodes(L: Cells, root: RBNode?, y: Tree, c: Ctx)
    requires At(L, root, y, c) && y.Node? && (y.left.Nil? || y.right.Nil?)
    ensures
      var x := Spliced(y);
      && y.id in L && y.id != ParentId(c)
      && L[y.id] == Cell(y.key, y.value, y.color, ParentId(c), RootId(y.left), RootId(y.right))
      && (x.Node? ==> x.id in L && x.id != y.id && x.id != ParentId(c))
      && (x.Node? ==> L[x.id] == Cell(x.key, x.value, x.color, y.id, RootId(x.left), RootId(x.right)))
      && (c.Frame? ==> c.id in L && L[c.id] == FrameCell(c, y.id) && RootId(c.sib) != y.id)
      && (c.Top? ==> root == y.id)
  {
    FocusNode(L, root, y, c);
    assert Linked(L, Spliced(y), y.id);
  }

  lemma UnlinkedAt(L: Cells, L': Cells, root: RBNode?, root': RBNode?, y: Tree, c: Ctx)
    requires At(L, root, y, c) && y.Node? && (y.left.Nil? || y.right.Nil?)
    requires Unlinked(L, L', root, root', y, c)
    ensures At(L', root', Spliced(y), c)
  {
    var x := Spliced(y);
    assert Linked(L, x, y.id) && Ids(y) == {y.id} + Ids(x);
    RehungTree(L, L', x, y.id, ParentId(c));
    RehungCtx(L, L', c, y, RootId(x), root, root');
  }

  lemma {:induction false} RekeyIds(c: Ctx, key: real, value: real)
    requires DistinctCtx(c)
    ensures CtxIds(Rekey(c, key, value)) == CtxIds(c) && DistinctCtx(Rekey(c, key, value))
    ensures ParentId(Rekey(c, key, value)) == ParentId(c)
    ensures Base(c).Frame? ==> Base(c).id in CtxIds(c)
    decreases c
  {
    if c.Frame? && c.onLeft { RekeyIds(c.up, key, value); }
  }

  lemma {:induction false} RekeyLinks(L: Cells, L': Cells, c: Ctx, child: RBNode?, root: RBNode?, key: real,
                                      value: real)
    requires LinkedCtx(L, c, child, root) && DistinctCtx(c) && Base(c).Frame? && Base(c).id in L
    requires L' == L[Base(c).id := L[Base(c).id].(key := key, value := value)]
    ensures LinkedCtx(L', Rekey(c, key, value), child, root)
    decreases c
  {
    if c.onLeft {
      RekeyIds(c.up, key, value);
      LinkedFrame(L, L', c.sib, c.id);
      RekeyLinks(L, L', c.up, c.id, root, key, value);
    } else {
      LinkedFrame(L, L', c.sib, c.id);
      LinkedCtxFrame(L, L', c.up, c.id, root);
    }
  }

  /** Copying the successor's key and value into the node that is to disappear. */
  lemma RekeyedAt(L: Cells, root: RBNode?, x: Tree, c: Ctx, key: real, value: real)
    requires At(L, root, x, c) && Base(c).Frame?
    ensures Base(c).id in L && Base(c).id !in Ids(x)
    ensures At(L[Base(c).id := L[Base(c).id].(key := key, value := value)], root, x, Rekey(c, key, value))
  {
    RekeyIds(c, key, value);
    var z := Base(c).id;
    assert z in L;
    var L' := L[z := L[z].(key := key, value := value)];
    RekeyLinks(L, L', c, RootId(x), root, key, value);
    LinkedFrame(L, L', x, ParentId(c));
  }

  /** Taking out the entry of z when z itself is unlinked. */
  lemma RemovedHere(c: Ctx, y: Tree)
    requires y.Node? && (y.left.Nil? || y.right.Nil?) && Sorted(Items(Zip(c, y)))
    ensures
      var items := Items(Zip(c, Spliced(y)));
      Sorted(items) && ToMap(items) == ToMap(Items(Zip(c, y))) - {y.key} && |items| == |Items(Zip(c, y))| - 1
  {
    var x := Spliced(y);
    ItemsAround(c, y);
    ZipItems(c, x);
    var a, b := Before(c) + Items(y.left), Items(y.right) + After(c);
    assert Items(Zip(c, x)) == a + b;
    RemoveEntry(a, y.key, y.value, b);
  }

  lemma SuccessorSwap<T>(a: seq<T>, z: T, y: T, x: seq<T>, b: seq<T>)
    ensures (a + [z]) + ([y] + x) + b == a + [z] + ([y] + x + b)
    ensures (a + [y]) + x + b == a + ([y] + x + b)
  {
  }

  /** The entries before and after the successor y of z is unlinked and copied into z. */
  lemma ItemsAbove(c: Ctx, y: Tree)
    requires y.Node? && y.left.Nil? && Base(c).Frame?
    ensures
      var z := Base(c);
      var a, b := Before(z.up) + Items(z.sib), [(y.key, y.value)] + Items(y.right) + After(c);
      && Items(Zip(c, y)) == a + [(z.key, z.value)] + b
      && Items(Zip(Rekey(c, y.key, y.value), y.right)) == a + b
  {
    var z, c' := Base(c), Rekey(c, y.key, y.value);
    RekeyItems(c, y.key, y.value);
    ZipItems(c, y);
    ZipItems(c', y.right);
    SuccessorSwap(Before(z.up) + Items(z.sib), (z.key, z.value), (y.key, y.value), Items(y.right), After(c));
    assert Items(y) == [(y.key, y.value)] + Items(y.right);
  }

  /** Taking out the entry of z when its successor y is unlinked and copied into z. */
  lemma RemovedAbove(c: Ctx, y: Tree)
    requires y.Node? && y.left.Nil? && Base(c).Frame? && Sorted(Items(Zip(c, y)))
    ensures
      var items := Items(Zip(Rekey(c, y.key, y.value), Spliced(y)));
      && Sorted(items) && ToMap(items) == ToMap(Items(Zip(c, y))) - {Base(c).key}
      && |items| == |Items(Zip(c, y))| - 1
  {
    var z := Base(c);
    ItemsAbove(c, y);
    RemoveEntry(Before(z.up) + Items(z.sib), z.key, z.value, [(y.key, y.value)] + Items(y.right) + After(c));
  }

  /** The node found by the search and the node y to unlink: z itself, or its successor. */
  ghost predicate Victim(z: Tree, cz: Ctx, y: Tree, c: Ctx) {
    && z.Node? && y.Node? && (y.left.Nil? || y.right.Nil?)
    && Sound(c, y) && Zip(c, y) == Zip(cz, z)
    && (if y == z then c == cz
        else y.left.Nil? && Base(c).Frame? && Base(c).key == z.key && Base(c).id == z.id && y.id != z.id)
  }

  /** The context of the hole after y is unlinked. */
  function Hole(z: Tree, y: Tree, c: Ctx): Ctx
    requires y.Node?
  {
    if y == z then c else Rekey(c, y.key, y.value)
  }

  /** What is left to repair after unlinking, and which entries are left. */
  lemma VictimInv(z: Tree, cz: Ctx, y: Tree, c: Ctx)
    requires Victim(z, cz, y, c) && Sorted(Items(Zip(cz, z)))
    ensures
      var x, h := Spliced(y), Hole(z, y, c);
      var items := Items(Zip(h, x));
      && (if IsRed(y) then RedBlack(Zip(h, x)) else DeleteInv(h, x))
      && Sorted(items) && ToMap(items) == ToMap(Items(Zip(cz, z))) - {z.key}
      && |items| == |Items(Zip(cz, z))| - 1
  {
    var x, h := Spliced(y), Hole(z, y, c);
    if y == z {
      SpliceInv(c, y);
      RemovedHere(c, y);
    } else {
      RekeyBalanced(c, y.key, y.value, Bh(y));
      SpliceInv(c, y);
      RekeySpliced(c, y);
      RemovedAbove(c, y);
    }
  }

  lemma RekeySpliced(c: Ctx, y: Tree)
    requires y.Node? && y.left.Nil? && Base(c).Frame? && Sound(c, y)
    ensures var x, h := y.right, Rekey(c, y.key, y.value);
      if IsRed(y) then RedBlack(Zip(h, x)) else DeleteInv(h, x)
  {
    var x, h := y.right, Rekey(c, y.key, y.value);
    SpliceInv(c, y);
    RekeyBalanced(c, y.key, y.value, Bh(x));
    RekeyBalanced(c, y.key, y.value, Bh(x) + 1);
    if IsRed(y) {
      assert BalancedCtx(c, Bh(x));
      ZipBalanced(h, x);
    }
  }

  lemma VictimHere(L: Cells, root: RBNode?, t: Tree, c: Ctx)
    requires At(L, root, t, c) && t.Node? && (t.left.Nil? || t.right.Nil?) && Sound(c, t)
    ensures Victim(t, c, t, c)
  {
  }

  lemma VictimBelow(L: Cells, root: RBNode?, z: Tree, cz: Ctx, y: Tree, c: Ctx)
    requires At(L, root, z, cz) && z.Node? && z.right.Node?
    requires Leftward(L, root, z.right, Enter(cz, z, false), y, c) && y.left.Nil?
    ensures Victim(z, cz, y, c)
  {
    ZipUnfold(Enter(cz, z, false), z.right);
    RekeyIds(c, 0.0, 0.0);
  }

}
