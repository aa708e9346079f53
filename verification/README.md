# Verified models of the trading platform's cores

This project models twelve independent parts of the platform in Dafny and proves what they are
for. `dafny verify dfyconfig.toml` checks all of it.

* **Order book.** `RedBlackTree.dfy` is the tree with linked nodes, parent pointers and in-place
  fix-up; `RbShape`, `RbLinks` and `RbEdits` hold the reasoning about shapes, links and entries,
  with a focus on one node and its context. `L2OrderBook.dfy` is the two-sided book on top.
* **Spatial index.** `SpatialIndex.dfy` is the R-tree with parent links, bounds and the id-to-leaf
  table. `RTreeShape`, `RTreeUpdates` and `RTreeSearch` argue over snapshots of the node fields:
  what every node satisfies, which bounds are stale on the way up, and why pruning loses nothing.
  `PlaneGeometry` says in positions of the plane what it is to be hit or met.
* **Pine sandbox parser.** `PineParser.dfy` moves a cursor and a depth counter; `PineSyntax` is the
  grammar as functions and `PinePrinter` writes any of its trees with parentheses only where the
  precedence levels need them; `PineRoundTrip` parses them back, and `PineBounds` shows that no
  shorter text parses to the tree and which trees the parser can return at all. `PinePrecedence`
  ranks the operators in a table of its own and shows how two of them associate, `PineForms` how each
  form looks as tokens.
* **Bar and tick pipeline.** `Pipeline.dfy` holds the variables, scope and pipeline; `ScopeSpec`
  the state function and the theorem about deleted ticks, `ScopeMeaning` what a script sees.
* **Matching engine.** `MatchingEngine.dfy` mutates orders and book; `MatchingSpec` says what
  price-time priority means and that only one outcome meets it.
* **Auto-save.** `Autosave.dfy` is a protocol of calls that interleave at every await.
* **Market data codecs.** `Wire` (varints, fixed-width integers, fields), `Protobuf`,
  `FlatBuffers` (tables, frames, the two ends together); `WireMeaning`,
  `ProtobufMeaning` and `FlatBuffersMeaning` give fields, bytes, texts and errors one by one.
* **Editor.** `TextEdits`, `LintEngine` and `TrailingWhitespace`: quick fixes and one rule;
  `LintMeaning` says what lines and offsets are and which fixes are accepted.
* **Pine lexer.** `PineLexer.dfy` over the definitions of `LexerSpec`; `LexerUnique` shows that they
  leave one token list, or one error, for every text, and `LexerMeaning` what the token kinds are.
* **Portfolio ledger and liquidation.** `Portfolio`, `RealSums`, `Liquidation`.
* **Trailing stops.** `TrailingStops` compares the two engines, `TrailingMeaning` says which stop
  and which order each tick leaves, and `TrailingEngines` has their loops.
* **Moving average.** `MovingAverage.dfy`: running window against plain window.

Prices, sizes and coordinates are exact reals; a missing number is an option value. Errors that
the program raises are result values. Each imperative method is proved against a function of its
inputs or of the old state, and the lemmas are about those functions: what they mean without their
own bodies, and what they keep.

What the proofs found in the program:

* `_enter` of the sandbox parser raises before the `try` block, so the depth counter stays one too
  high when the guard trips, and is restored in every other case (`PineParsers.Parser.Leaves`).
* Edits of one quick fix that start at the same offset are applied in the wrong order by the
  second, start-only sort of `apply_quick_fix`: a deletion eats an insertion before it
  (`LintEngine.DeletionEatsInsertion`, and exactly then `LintEngine.FixRightIffStartsDiffer`).
* `apply_quick_fix` splits lines at more characters than its column check cuts off, so two positions
  around a line tabulation have one offset (`LintEngine.RareBreakSwapsInsertions`).
* Stripping a line of blanks between a carriage return and a line feed joins two line breaks, and
  the fixes of later lines miss theirs (`TrailingWhitespace.BridgeBreaksOrder`, and exactly then
  `TrailingWhitespace.AnyOrderStripsIff`).
* A backslash before a carriage return in a string literal makes the Pine lexer lose a line, and
  the end-of-file token shows it exactly then (`LexerUnique.BrokenLiteral`, `LexerUnique.EofShows`).
* The sandbox parser compares string literals by their contents with operators and brackets, so a
  literal that says - or typeof is never read as a string (`PineBounds.OperatorTextUnreadable`), and
  one that says ) ends the argument list (`PineBounds.ClosingText`).
* A script whose raising on confirmed ticks depends on `varip` defeats the isolation of unconfirmed
  ticks even when its writes do not depend on it (`ScopeSpec.LeakyRaise`); what it does on
  unconfirmed ticks never matters (`ScopeSpec.IsolationIffRaisingInsulated`).
* Four branches can never be taken: `w is None` in `_delete_fixup`, the childless inner node and the
  child without bounds in `_choose_leaf`, and the childless root in `remove`.
* A sell stop at or below zero is as loose as one below the watermark: no price reaches it
  (`TrailingStops.FireAlikeIffLoose`).
* The Protobuf quote decoder takes any length-delimited field for the symbol, so an unknown text
  field replaces it (`Protobuf.UnknownTextBecomesSymbol`); `Protobuf.QuoteIffLastText` says exactly
  when a quote comes back.

## Model

| member | source | states |
|---|---|---|
| KeyedSeq.InsertEntry | src/orderbook/rb_tree.py:127-153 | putting a new key between its neighbours keeps the entries sorted and extends the map by exactly that key |
| KeyedSeq.RemoveEntry | src/orderbook/rb_tree.py:204-240 | taking one entry out keeps the rest sorted and removes exactly that key |
| KeyedSeq.SortedUnique | src/orderbook/rb_tree.py:384-402 | a sorted listing is determined by its map, so the listings have one right answer |
| RbShape.RotateItems | src/orderbook/rb_tree.py:323-361 | both rotations keep all entries and their order |
| RbShape.UncledInv | src/orderbook/rb_tree.py:164-168 | recolouring under a red uncle keeps the one-red-red invariant of the insert loop, two levels higher, and all entries |
| RbShape.StraightenedInv | src/orderbook/rb_tree.py:170-176 | the first rotation of an insertion turns an inner grandchild into an outer one and keeps invariant and entries |
| RbShape.OuterInv | src/orderbook/rb_tree.py:178-180 | the last rotation of an insertion leaves no red node above the focus and keeps black heights and entries |
| RbShape.SiblingExists | src/orderbook/rb_tree.py:255-258 | the sibling of a node one black node short is never None, so the `w is None` branches are not taken |
| RbShape.ReseatedInv | src/orderbook/rb_tree.py:249-253 | a red sibling is turned into a black one below a red parent, with the black debt unchanged |
| RbShape.LoweredInv | src/orderbook/rb_tree.py:263-266 | reddening a sibling with two black children moves the debt one level up |
| RbShape.TurnedInv | src/orderbook/rb_tree.py:268-273 | the rotation at the sibling makes its far child red and keeps the debt and the entries |
| RbShape.SettledInv | src/orderbook/rb_tree.py:275-281 | the final rotation of a deletion pays the debt: the whole tree is red-black again |
| RbShape.RepaidInv | src/orderbook/rb_tree.py:318-321 | painting the focus black after the loop gives a red-black tree with the same entries |
| RbShape.SpliceInv | src/orderbook/rb_tree.py:210-240 | unlinking a red node leaves a red-black tree; unlinking a black one leaves a tree exactly one black node short there |
| RbShape.BlackHeightBounds | src/orderbook/rb_tree.py:111-120 | 2^blackheight <= size + 1, and height <= 2 * blackheight plus one for a red root |
| RbShape.HeightBound | src/orderbook/rb_tree.py:111-120 | 2^height <= (size + 1)^2, that is height <= 2 log2(size + 1) |
| RbLinks.RotatedAt | src/orderbook/rb_tree.py:323-361 | the pointer assignments of a rotation realise the rotated tree, with consistent parent links and root |
| RbLinks.InsertEnd | src/orderbook/rb_tree.py:201-202 | leaving the insert loop and painting the root black gives a linked red-black tree with the same entries |
| RbLinks.DeleteEnd | src/orderbook/rb_tree.py:318-321 | leaving the delete loop gives a linked red-black tree with the same entries, and the root is black already |
| RbLinks.UncledAt | src/orderbook/rb_tree.py:164-168 | the three recolourings realise the recoloured subtree on linked nodes |
| RbLinks.ReseatedAt | src/orderbook/rb_tree.py:249-253 | after the rotation at the parent of a red sibling the linked nodes are one black node short below a red parent |
| RbLinks.LoweredAt | src/orderbook/rb_tree.py:263-266 | reddening the linked sibling moves the debt to the parent |
| RbLinks.TurnedAt | src/orderbook/rb_tree.py:268-273 | after the rotation at the sibling its linked far child is red |
| RbLinks.SettledAt | src/orderbook/rb_tree.py:275-281 | after the rotation at the parent the linked tree is red-black |
| RbEdits.SearchEnd | src/orderbook/rb_tree.py:65-74 | a search ends at the node of the key exactly when the key is present, otherwise at the one gap where it belongs |
| RbEdits.GraftedInv | src/orderbook/rb_tree.py:146-153 | the tree with the new red leaf in that gap satisfies the insert invariant, and its map gained exactly that entry |
| RbEdits.RevaluedAt | src/orderbook/rb_tree.py:142-144 | overwriting the value in place keeps shape and colours and changes one binding |
| RbEdits.UnlinkedAt | src/orderbook/rb_tree.py:215-229 | the unlinking assignments realise the tree with the node replaced by its only child |
| RbEdits.VictimInv | src/orderbook/rb_tree.py:210-240 | after unlinking and copying the successor, the map lost exactly the deleted key, and the tree is red-black or one black node short at the hole |
| RbEdits.RekeyedAt | src/orderbook/rb_tree.py:233-235 | copying key and value into z changes the linked tree there and nowhere below |
| RedBlackTrees.RedBlackTree.FindNode | src/orderbook/rb_tree.py:65-74 | returns the linked node of a present key, None exactly when the key is absent |
| RedBlackTrees.RedBlackTree.Get | src/orderbook/rb_tree.py:76-83 | the value bound to the key, the default for a missing one, the KeyError exactly for a missing key without a default |
| RedBlackTrees.RedBlackTree.Insert | src/orderbook/rb_tree.py:127-153 | keeps strict key order, black root, no red-red edge, equal black heights, parent links and size; the map changes by that one binding |
| RedBlackTrees.RedBlackTree.InsertFixup | src/orderbook/rb_tree.py:155-202 | from one possible red-red edge back to a red-black tree with the same entries |
| RedBlackTrees.RedBlackTree.Delete | src/orderbook/rb_tree.py:204-240 | keeps the whole invariant and removes exactly that key; false exactly for a missing key |
| RedBlackTrees.RedBlackTree.Excise | src/orderbook/rb_tree.py:215-235 | unlinks y and moves its key and value into z when they differ, as linked nodes |
| RedBlackTrees.RedBlackTree.DeleteFixup | src/orderbook/rb_tree.py:242-321 | from one missing black node, with a None focus allowed, back to a red-black tree with the same entries |
| RedBlackTrees.RedBlackTree.RotateLeft | src/orderbook/rb_tree.py:323-341 | realises the left rotation on linked nodes |
| RedBlackTrees.RedBlackTree.RotateRight | src/orderbook/rb_tree.py:343-361 | realises the right rotation on linked nodes |
| RedBlackTrees.RedBlackTree.FindMin | src/orderbook/rb_tree.py:85-90 | the first of the sorted entries, None for an empty tree |
| RedBlackTrees.RedBlackTree.FindMax | src/orderbook/rb_tree.py:92-97 | the last of the sorted entries, None for an empty tree |
| RedBlackTrees.RedBlackTree.GetHeight | src/orderbook/rb_tree.py:111-120 | the height, at most 2 log2(size + 1) |
| RedBlackTrees.RedBlackTree.GetItems | src/orderbook/rb_tree.py:384-402 | the entries by ascending key, or exactly reversed |
| RedBlackTrees.RedBlackTree.Contains | src/orderbook/rb_tree.py:62-63 | tells whether the key is bound |
| RedBlackTrees.RedBlackTree.TakeOut | src/orderbook/rb_tree.py:215-240 | unlink, copy, shrink the size and repair: the whole invariant, without that key |
| L2OrderBooks.LevelIsLastUpdate | src/orderbook/l2_order_book.py:33-65 | after any run of updates a price has a level exactly when its last accepted update was not zero, with that quantity; no level is zero |
| L2OrderBooks.PrefixIsListing | src/orderbook/l2_order_book.py:75-87 | a depth listing holds the best levels of the map, sorted, and every level left out is worse than every level listed |
| L2OrderBooks.TopOfListing | src/orderbook/l2_order_book.py:23-31 | the end of the sorted entries is the best price of the map |
| L2OrderBooks.L2OrderBook.UpdateBid | src/orderbook/l2_order_book.py:33-48 | refines the update of the bid map; false exactly for a bad price or quantity, which changes nothing |
| L2OrderBooks.L2OrderBook.UpdateAsk | src/orderbook/l2_order_book.py:50-65 | refines the update of the ask map; false exactly for a bad price or quantity, which changes nothing |
| L2OrderBooks.L2OrderBook.BestBid | src/orderbook/l2_order_book.py:23-26 | the greatest bid price with its quantity, None exactly for no bids |
| L2OrderBooks.L2OrderBook.BestAsk | src/orderbook/l2_order_book.py:28-31 | the least ask price with its quantity, None exactly for no asks |
| L2OrderBooks.L2OrderBook.GetBids | src/orderbook/l2_order_book.py:75-80 | the first `depth` bids by falling price, none for a negative depth |
| L2OrderBooks.L2OrderBook.GetAsks | src/orderbook/l2_order_book.py:82-87 | the first `depth` asks by rising price, none for a negative depth |
| L2OrderBooks.L2OrderBook.GetBidQuantity | src/orderbook/l2_order_book.py:67-69 | the bid quantity at a price, zero for no level |
| L2OrderBooks.L2OrderBook.GetAskQuantity | src/orderbook/l2_order_book.py:71-73 | the ask quantity at a price, zero for no level |
| L2OrderBooks.L2OrderBook.Clear | src/orderbook/l2_order_book.py:89-91 | both sides become empty |
| PlaneGeometry.NearIffMeet | src/interaction/spatial_index.py:113-117 | two positions are within the sum of two radii exactly when some position is within the one of the first and the other of the second |
| RTreeGeometry.CoverValid | src/interaction/spatial_index.py:120-143 | bounds computed from valid boxes are valid, so building them never raises |
| RTreeGeometry.CoverIsLeast | src/interaction/spatial_index.py:120-143 | the computed bounds enclose every given box, and any box that encloses them all encloses the bounds |
| RTreeGeometry.ComputeBounds | src/interaction/spatial_index.py:120-143 | the loop over four extremes computes the union of all boxes, None for none |
| RTreeGeometry.HitNeedsBox | src/interaction/spatial_index.py:113-117 | whatever hit_test accepts, a round point by distance included, has a box that meets the query box, so the box test prunes no hit |
| RTreeGeometry.HitsIffTouches | src/interaction/spatial_index.py:113-117 | an entry is hit exactly when it covers some position within the tolerance of the cursor |
| RTreeGeometry.IntersectsIffShared | src/interaction/spatial_index.py:49-56 | two boxes intersect exactly when they share a position, edges included |
| RTreeGeometry.PickSeeds | src/interaction/spatial_index.py:169-182 | no pair of boxes wastes more area together than the chosen seeds |
| RTreeGeometry.AreaMeaning | src/interaction/spatial_index.py:74-77 | the area of a box is its width times its height |
| RTreeGeometry.PreferenceMeaning | src/interaction/spatial_index.py:201-206 | an element prefers one group by the difference of the two enlargements |
| RTreeGeometry.WasteMeaning | src/interaction/spatial_index.py:169-182 | the waste of a pair is the area of the least box around both that neither covers |
| RTreeGeometry.EnlargementMeaning | src/interaction/spatial_index.py:80-87 | for valid boxes the enlargement is the area that the least box around both adds, never negative |
| RTreeGeometry.GoesFirstMeaning | src/interaction/spatial_index.py:215-237 | an element goes to the group it enlarges less, then to the smaller one, then to the one with fewer elements, then to the first |
| RTreeGeometry.StrongestIsFirstMax | src/interaction/spatial_index.py:199-217 | the element dealt next is the first with the strongest preference for one group |
| RTreeGeometry.DealtKeeps | src/interaction/spatial_index.py:191-237 | dealing out the remaining elements loses and duplicates none, and both groups reach min_entries |
| RTreeGeometry.SplitElements | src/interaction/spatial_index.py:166-237 | partitions its input, both groups have at least min_entries, seeds and dealing order are those of the quadratic split |
| RTreeShape.Rebound | src/interaction/spatial_index.py:156-163 | updating the bounds of a node makes it tight and unsettles no node but its parent |
| RTreeShape.SplitTable | src/interaction/spatial_index.py:449-455 | after the two loops over a split leaf every id maps to the leaf that now holds it, with the same items |
| RTreeShape.SplitInner | src/interaction/spatial_index.py:498-503 | sharing out the children and reassigning their parent keeps all links consistent |
| RTreeShape.NewRoot | src/interaction/spatial_index.py:516-522 | a new root over the two halves keeps links consistent and all leaves level |
| RTreeShape.Attach | src/interaction/spatial_index.py:528-532 | the sibling among its parent's children keeps links consistent |
| RTreeShape.Prune | src/interaction/spatial_index.py:346-349 | taking an empty node out of its parent keeps links consistent |
| RTreeShape.Collapse | src/interaction/spatial_index.py:353-361 | handing over to the only child of the root keeps links consistent and all leaves level |
| RTreeShape.DropItem | src/interaction/spatial_index.py:337-338 | removing the item from leaf and table keeps the table exact |
| RTreeSearch.LeavesLevel | src/interaction/spatial_index.py:331-364 | in every reachable tree all leaves, and only leaves, are equally many parent links below the root |
| RTreeSearch.BoundsKnown | src/interaction/spatial_index.py:470-473 | no node but an empty root lacks bounds, so the `bounds is None` branch of _choose_leaf is not taken |
| RTreeSearch.ItemEnclosed | src/interaction/spatial_index.py:396-404 | the bounds of every node above an item enclose the item |
| RTreeSearch.ScanInner | src/interaction/spatial_index.py:401-404 | replacing a pending node by its children loses no pending item and repeats no node |
| RTreeSearch.ScanSkip | src/interaction/spatial_index.py:401-404 | a child whose bounds miss the query can be skipped without losing a match |
| RTreeSearch.ScanLeaf | src/interaction/spatial_index.py:396-400 | scanning a leaf adds exactly its matches, each once |
| RTreeSearch.ScanEnd | src/interaction/spatial_index.py:392-406 | when nothing is pending the results are exactly the wanted items, each once |
| RTreeUpdates.BoundsLeast | src/interaction/spatial_index.py:261-266 | any box around all items is around the bounds of every node |
| RTreeUpdates.RemoveStart | src/interaction/spatial_index.py:336-341 | without the item only bounds on the path to the root are out of date, and only its leaf may be empty |
| RTreeUpdates.PruneKeep | src/interaction/spatial_index.py:342-350 | a node that still holds something stays, and the next one up is to be updated |
| RTreeUpdates.PruneEmpty | src/interaction/spatial_index.py:346-350 | an empty node leaves its parent, which is the next to be updated and may be empty in turn |
| RTreeUpdates.SettledRoot | src/interaction/spatial_index.py:352-363 | a root that needs no collapse ends the removal with the whole invariant |
| RTreeUpdates.EnlistSettled | src/interaction/spatial_index.py:445-447 | with the new item in leaf and table only bounds on the path are out of date, and only the leaf may be one over |
| RTreeUpdates.FullSettled | src/interaction/spatial_index.py:449-455 | after a split leaf is listed anew the way up can start, with the same contents |
| RTreeUpdates.AttachSettled | src/interaction/spatial_index.py:528-530 | the sibling is among its parent's children, which may be one over, and bounds are right below the parent |
| RTreeUpdates.AttachSplit | src/interaction/spatial_index.py:531-534 | a split parent hands its own sibling to the next level |
| RTreeUpdates.GrowSettled | src/interaction/spatial_index.py:516-522 | the new root over both halves satisfies the whole invariant |
| SpatialIndexes.UpdateBounds | src/interaction/spatial_index.py:156-163 | bounds become the union over items, or over the children that have bounds |
| SpatialIndexes.SpatialIndex.Create | src/interaction/spatial_index.py:243-256 | an empty valid index exactly for admissible limits |
| SpatialIndexes.SpatialIndex.Bounds | src/interaction/spatial_index.py:261-266 | the least box around all items, None exactly for an empty index |
| SpatialIndexes.SpatialIndex.HitTest | src/interaction/spatial_index.py:371-406 | exactly the items that cover some position within the tolerance of the cursor, a round point by distance and a box in each coordinate, each once; refuses a negative tolerance |
| SpatialIndexes.SpatialIndex.QueryRect | src/interaction/spatial_index.py:408-438 | exactly the items whose box shares a position with the rectangle, edges included, each once; refuses a reversed rectangle |
| SpatialIndexes.SpatialIndex.Remove | src/interaction/spatial_index.py:331-364 | removes exactly that id and keeps tight bounds, parent links, level leaves, node limits, no empty non-root node, exact table; tells whether it was there |
| SpatialIndexes.SpatialIndex.PruneStep | src/interaction/spatial_index.py:342-350 | one step up: the node is made tight and, when empty, leaves its parent; only nodes further up are still to be updated |
| SpatialIndexes.SpatialIndex.HandOver | src/interaction/spatial_index.py:356-359 | one turn of that loop: the only child becomes the root, the items and all bounds stay as the removal left them |
| SpatialIndexes.SpatialIndex.CollapseRoot | src/interaction/spatial_index.py:352-363 | the root ends as a leaf or with at least two children; its branch for no children is never taken |
| SpatialIndexes.SpatialIndex.InsertEntry | src/interaction/spatial_index.py:440-457 | the item map gains the entry, replacing one with the same id, and the whole tree invariant holds |
| SpatialIndexes.SpatialIndex.ChooseLeaf | src/interaction/spatial_index.py:459-489 | the leaf reached through children of least enlargement and, among those, least area |
| SpatialIndexes.SpatialIndex.SplitNode | src/interaction/spatial_index.py:491-507 | both halves hold at most max_entries and something, have tight bounds, and only the link to the sibling is missing |
| SpatialIndexes.SpatialIndex.AdjustTree | src/interaction/spatial_index.py:509-534 | settles all bounds and splits up to the root, which may be replaced by a new one |
| SpatialIndexes.SpatialIndex.InsertPoint | src/interaction/spatial_index.py:303-329 | adds the point with its square box; refuses a negative radius |
| SpatialIndexes.SpatialIndex.InsertBar | src/interaction/spatial_index.py:283-301 | adds the bar; refuses reversed coordinates |
| SpatialIndexes.SpatialIndex.Insert | src/interaction/spatial_index.py:268-281 | adds the box under its id |
| SpatialIndexes.SpatialIndex.Clear | src/interaction/spatial_index.py:366-369 | an empty valid index |
| SpatialIndexes.SpatialIndex.PickChild | src/interaction/spatial_index.py:470-489 | the first child of least enlargement and, among those, least area |
| PineRoundTrip.ReadsBinary | src/services/pine_worker_sandbox.py:778-824 | parsing at a precedence level returns the written tree and stops behind it, for every tree, level and context |
| PineRoundTrip.ReadsOwnLevel | src/services/pine_worker_sandbox.py:778-824 | left associativity: operand, operator and operand of one level come back as one left-leaning tree |
| PineRoundTrip.ReadsUnary | src/services/pine_worker_sandbox.py:826-838 | prefix operators and operands come back from parse_unary |
| PineRoundTrip.ReadsPostfix | src/services/pine_worker_sandbox.py:840-865 | a written operand of any kind comes back from parse_postfix, with its loop still to go on |
| PineRoundTrip.ReadsSuffix | src/services/pine_worker_sandbox.py:842-864 | member, call, index and the two counting operators, written behind an operand, are read onto it |
| PineRoundTrip.ReadsItems | src/services/pine_worker_sandbox.py:867-873 | the comma separated expressions of a call, constructor or array come back in order |
| PineRoundTrip.ReadsNew | src/services/pine_worker_sandbox.py:894-899 | a constructor call comes back with its name and arguments |
| PineRoundTrip.ReadsArray | src/services/pine_worker_sandbox.py:906-914 | an array literal comes back with its elements |
| PineRoundTrip.ReadsParens | src/services/pine_worker_sandbox.py:901-905 | a parenthesised tree costs three more levels of depth and comes back unchanged |
| PineRoundTrip.ReadsAssign | src/services/pine_worker_sandbox.py:755-765 | assignments are right-associative: target, operator and value come back as one tree |
| PineRoundTrip.ReadsTernary | src/services/pine_worker_sandbox.py:769-776 | condition and both branches come back as one tree |
| PineRoundTrip.ReadsExpression | src/services/pine_worker_sandbox.py:752-767 | a whole written tree comes back, or the depth guard trips, depending only on its nesting |
| PineRoundTrip.RoundTrip | src/services/pine_worker_sandbox.py:752-922 | write, then parse, any tree of the whole expression grammar: the same tree and the cursor on EOF exactly when nesting stays within the guard, the guard's error otherwise |
| PineRoundTrip.WrittenInjective | src/services/pine_worker_sandbox.py:752-922 | no two trees within the guard are written alike |
| PineRoundTrip.GuardTrips | src/services/pine_worker_sandbox.py:660-667 | n minus signs in front of a number trip the guard exactly for n > 77 |
| PineRoundTrip.ReadsPrefixed | src/services/pine_worker_sandbox.py:830-835 | a prefix operator and its operand come back as one tree, one level deeper |
| PineBounds.ParsedAssignment | src/services/pine_worker_sandbox.py:755-767 | whatever the parser reads can be written back with no more tokens than it passed and no more depth than it used |
| PineBounds.PrintIsShortest | src/services/pine_worker_sandbox.py:752-922 | every list of tokens that parses to a tree is at least as long as the written form of the tree, which parses to the same tree: the written parentheses are the fewest |
| PineBounds.ReadableIff | src/services/pine_worker_sandbox.py:752-922 | the trees that some token list parses to are exactly the parsable ones within the depth guard |
| PineBounds.OperatorTextUnreadable | src/services/pine_worker_sandbox.py:826-838 | a string literal that says -, !, + or typeof is never read as a string, whatever stands around it |
| PineBounds.ClosingText | src/services/pine_worker_sandbox.py:867-873 | f(")") is read as the call f() with the rest left behind, while f((")")) is read as meant |
| PineBounds.ShortNeverTooDeep | src/services/pine_worker_sandbox.py:660-667 | a list of at most 26 tokens never trips the depth guard, whatever the tokens are |
| PineBounds.ParensTripGuard | src/services/pine_worker_sandbox.py:660-667 | n opening parentheses trip the guard exactly for n of 26 and more, so 27 tokens can |
| PinePrecedence.Precedence | src/services/pine_worker_sandbox.py:778-824 | of two binary operators in a row the one of the higher rank binds tighter, and at equal rank the left one, by a table of their ranks |
| PinePrecedence.AtomPrecedence | src/services/pine_worker_sandbox.py:778-824 | the same said of five plain tokens |
| PinePrecedence.AssignmentsLoose | src/services/pine_worker_sandbox.py:755-765 | the five assignments bind less than every binary operator and associate to the right |
| PinePrecedence.PrefixTight | src/services/pine_worker_sandbox.py:826-838 | the prefix operators bind tighter than every binary one and looser than the postfix forms |
| PinePrecedence.TernaryLoose | src/services/pine_worker_sandbox.py:769-776 | the ternary binds less than the binary operators and nests to the right |
| PinePrecedence.OthersEnd | src/services/pine_worker_sandbox.py:752-865 | behind an atom every other token ends the expression |
| PinePrecedence.PlainAtoms | src/services/pine_worker_sandbox.py:826-900 | numbers and strings other than the four prefix operators, and names that are no literal, are read as themselves |
| PineForms.AtomForms | src/services/pine_worker_sandbox.py:875-900 | numbers, strings, names, truth values and the two empty values by the kinds and texts of their tokens |
| PineForms.PostfixForms | src/services/pine_worker_sandbox.py:840-865 | member, call, index and the two counting operators by their literal tokens behind any operand |
| PineForms.ListForms | src/services/pine_worker_sandbox.py:867-914 | arguments and elements stand between commas in their brackets, behind a callee, a constructor name or alone |
| PineForms.ParenForms | src/services/pine_worker_sandbox.py:901-905 | parentheses make an operand of a looser operator, on either side |
| PineParsers.Parser.ParseExpression | src/services/pine_worker_sandbox.py:752-753 | parses an expression; on a written tree whether the depth counter is restored depends on its nesting alone, a short rest of the token list always restores it, and what is returned can be written with no more tokens than were read |
| PineParsers.Parser.ParseAssignment | src/services/pine_worker_sandbox.py:755-767 | assignment is right associative; the cursor never passes EOF, parsing ends, and depth is restored unless the guard tripped |
| PineParsers.Parser.ParseTernary | src/services/pine_worker_sandbox.py:769-776 | condition and both branches, with the missing colon an error; cursor and depth as promised |
| PineParsers.Parser.ParseBinary | src/services/pine_worker_sandbox.py:778-824 | each of the six levels loops over its operators and refines the level function; cursor and depth as promised |
| PineParsers.Parser.ParseUnary | src/services/pine_worker_sandbox.py:826-838 | prefix operators and typeof; cursor and depth as promised |
| PineParsers.Parser.ParsePostfix | src/services/pine_worker_sandbox.py:840-865 | members, calls, indices and postfix steps; cursor and depth as promised |
| PineParsers.Parser.ParseArgList | src/services/pine_worker_sandbox.py:867-873 | comma separated arguments; cursor and depth as promised |
| PineParsers.Parser.ParsePrimary | src/services/pine_worker_sandbox.py:875-922 | atoms, parentheses, arrays and constructor calls; cursor and depth as promised |
| ScopeSpec.SkippedTick | src/engine/pipeline.py:65-98 | for every script, a tick that is unconfirmed or raises leaves everything that is carried over as it was |
| ScopeSpec.KeptTick | src/engine/pipeline.py:65-98 | for a script insulated on confirmed ticks, two states that agree on what is carried over agree after a confirmed tick, and it raises in both or in neither |
| ScopeSpec.DeletedTicks | src/engine/pipeline.py:65-109 | over a whole run, the run without the unconfirmed and raising ticks carries over the same |
| ScopeSpec.UnconfirmedLeaveNoTrace | src/engine/pipeline.py:65-98 | after every confirmed tick all var and standard values are those of the run from which unconfirmed and raising ticks are deleted |
| ScopeSpec.IsolationIffRaisingInsulated | src/engine/pipeline.py:65-98 | all scripts that raise like a given predicate and whose writes on confirmed ticks without a raise ignore varip keep the isolation over every feed, whatever the initial values, exactly when the predicate reads no varip variable on confirmed ticks |
| ScopeSpec.PassedIsFirst | src/engine/pipeline.py:100-118 | the tick at which a feed stops is the first on which the script raises |
| ScopeSpec.LeakyRaise | src/engine/pipeline.py:85-98 | a concrete script whose writes ignore varip but whose raising does not: there deleting ticks does change a var value |
| ScopeMeaning.SeesLatest | src/engine/pipeline.py:65-98 | at every tick the script finds in each variable what it was last given for good: a varip one by any tick, a var one by a confirmed tick, a standard one its initial value |
| Pipelines.Scope.Declare | src/engine/scope.py:60-85 | adds one variable with equal current, bar-start and committed value; false for a known name |
| Pipelines.Scope.OnBarStart | src/engine/scope.py:103-130 | standard variables are reset, var ones return to the committed value, varip ones keep theirs |
| Pipelines.Scope.OnTickEnd | src/engine/scope.py:135-143 | a confirmed tick moves the bar-start values, an unconfirmed one rolls back var and standard variables only |
| Pipelines.Scope.OnBarClose | src/engine/scope.py:145-148 | commits every current value |
| Pipelines.Scope.Snapshot | src/engine/scope.py:150-168 | returns all three values of every variable |
| Pipelines.Scope.RestoreSnapshot | src/engine/scope.py:170-189 | puts all three values, bar index and start flag back |
| Pipelines.ExecutionPipeline.OpenBar | src/engine/pipeline.py:75-83 | closes an open other bar, then starts the new one, exactly when needed |
| Pipelines.ExecutionPipeline.ProcessTick | src/engine/pipeline.py:65-98 | one transactional step: the state function of the tick, or the state before it when the script raises |
| Pipelines.ExecutionPipeline.ProcessHistorical | src/engine/pipeline.py:111-118 | every bar as one confirmed tick, up to the first that raises: the state is that of the bars before it, and the outcome tells; refuses no bars and no script |
| Pipelines.ExecutionPipeline.ProcessBar | src/engine/pipeline.py:100-109 | every given tick, or the bar close without ticks, up to the first that raises: the state is that of the ticks before it |
| Pipelines.ExecutionPipeline.Attempt | src/engine/pipeline.py:74-93 | the try block: raises exactly when the script does, and otherwise reaches the state after the tick |
| MatchingSpec.TradeAt | src/execution/matching_engine.py:78-113 | trade i is with the i-th maker in priority order, at its price, within the taker's limit, for the lesser of what both have left |
| MatchingSpec.FillStops | src/execution/matching_engine.py:78-113 | matching stops only when the taker is filled, the side is empty or the next maker is outside the limit; only the last maker can be partly filled |
| MatchingSpec.FillConserves | src/execution/matching_engine.py:101-102 | what trades is what the taker loses and what the opposite side loses |
| MatchingSpec.FillIsFair | src/execution/matching_engine.py:92-113 | the trades are with the makers from the front, at the price and under the id of the maker and the id and time of the taker, no worse than the limit of the taker, and all but the last take the whole maker |
| MatchingSpec.FillIsPriorityPrefix | src/execution/matching_engine.py:78-113 | the loop meets the declarative reading of price-time priority |
| MatchingSpec.PriorityPrefixUnique | src/execution/matching_engine.py:78-113 | and it is the only outcome that does, in both directions |
| MatchingSpec.PlaceKeepsOrder | src/execution/matching_engine.py:115-117 | a rested order keeps its side sorted by price, timestamp and sequence, and changes nothing else |
| MatchingSpec.OrderedUnique | src/execution/matching_engine.py:36-48 | the sort keys leave no choice: a sorted arrangement of the same orders is unique |
| MatchingSpec.BestFirst | src/execution/matching_engine.py:36-48 | from the front of a side bids fall and asks rise in price, equal prices come by time and equal times by arrival |
| MatchingSpec.SortIsPlace | src/execution/matching_engine.py:115-117 | so append-and-sort is insertion at the one right place |
| MatchingSpec.NothingCrosses | src/execution/matching_engine.py:78-86 | while the taker has quantity left, nothing on the other side is within its limit |
| MatchingSpec.RestsBeyond | src/execution/matching_engine.py:78-117 | a taker that is not filled rests with what is left and faces only prices beyond its limit; a filled one does not rest |
| MatchingSpec.SidesApart | src/execution/matching_engine.py:50-160 | after a submission every bid is below every ask and no id is on both sides |
| MatchingSpec.SubmitSound | src/execution/matching_engine.py:50-160 | every submission keeps both sides sorted, positive, unique in ids and uncrossed |
| MatchingSpec.SubmitConserves | src/execution/matching_engine.py:50-160 | resting quantity plus twice the traded quantity grows by exactly what was submitted |
| MatchingSpec.RunSoundAndConserving | src/execution/matching_engine.py:50-160 | over every run of submissions the book is sound, and all quantity offered rests or was traded |
| MatchingEngines.MatchingEngine.Match | src/execution/matching_engine.py:79-113 | the loop trades exactly the fill of the opposite side and sets the statuses of taker and filled makers |
| MatchingEngines.MatchingEngine.Rest | src/execution/matching_engine.py:115-117 | append and sort put the order at its place |
| MatchingEngines.MatchingEngine.SubmitOrder | src/execution/matching_engine.py:50-160 | refines the submission on books; refused orders change nothing; the taker loses what it traded |
| MatchingEngines.MatchingEngine.TradeHead | src/execution/matching_engine.py:80-113 | one round: the trade with the first maker, and the fill of what is left |
| MatchingEngines.MatchingEngine.Exchange | src/execution/matching_engine.py:101-113 | both parties lose the traded quantity, statuses follow, a filled maker leaves the side |
| MatchingEngines.MatchingEngine.SubmitBuy | src/execution/matching_engine.py:78-117 | fills against the asks and rests what is left among the bids |
| MatchingEngines.MatchingEngine.SubmitSell | src/execution/matching_engine.py:119-158 | fills against the bids and rests what is left among the asks |
| Autosave.StepGuarded | src/services/autosave_engine.py:47-61 | at most one call is between its read and its save of a chart, and it holds the lock |
| Autosave.StepReplays | src/services/autosave_engine.py:63-91 | each step keeps the store and replies equal to a one-by-one run in history order |
| Autosave.Linearizable | src/services/autosave_engine.py:52-91 | under every interleaving, store and replies are those of running the calls one after another |
| Autosave.RepliesTold | src/services/autosave_engine.py:66-91 | each reply is true of the store as the earlier calls left it: no such chart, the stored version of a conflict, or the merged chart one version on; and only an accepted call changes it |
| Autosave.VersionChain | src/services/autosave_engine.py:71-87 | the accepted deltas of a chart expect v, v+1, v+2, ... in turn, the version counts them, and the data is their left fold |
| Autosave.OneWinnerPerVersion | src/services/autosave_engine.py:71-76 | of two calls that expect the same version of a chart at most one is accepted |
| Autosave.Progress | src/services/autosave_engine.py:47-91 | no interleaving deadlocks or runs for ever: until all calls are finished some call can move, and each call moves at most six times |
| Autosave.Finishes | src/services/autosave_engine.py:47-91 | every interleaving can be continued to the end, where each call has replied |
| Autosave.LaterVersion | src/services/autosave_engine.py:81-87 | an accepted call raises the version above what it expected, for good |
| Autosave.StepRecorded | src/services/autosave_engine.py:63-91 | each call takes effect at most once, and a finished call returned what it did then |
| Wire.VarintRoundTrip | src/market_data/deserializers/binary.py:72-100 | decoding an encoded varint gives it back with the offset behind it exactly when it fits the bytes allowed, an error otherwise |
| Wire.VarintRange | src/market_data/deserializers/binary.py:87-100 | the bytes allowed carry every value below 2^77 |
| Wire.EncodeVarint | src/market_data/deserializers/binary.py:72-84 | the loop writes the base-128 digits, low first, with continuation bits; a negative value is first shifted by 2^64 |
| Wire.DecodeVarint | src/market_data/deserializers/binary.py:87-100 | the loop reads a varint, or reports truncation or overflow |
| Wire.FieldRoundTrip | src/market_data/deserializers/binary.py:106-120 | a written field reads back as itself, whatever surrounds it |
| WireMeaning.VarintDigits | src/market_data/deserializers/binary.py:72-84 | byte i of a varint carries the i-th seven bits, lowest first, and whether another byte follows |
| WireMeaning.FieldLayout | src/market_data/deserializers/binary.py:106-118 | the tag of a field is eight times its number plus 0, 1, 2 or 5 for its kind |
| WireMeaning.CutField | src/market_data/deserializers/binary.py:126-180 | a field cut short anywhere is reported, as a truncated varint within tag or length and as a truncated field within the bytes |
| WireMeaning.UnknownWireType | src/market_data/deserializers/binary.py:179-180 | wire types 3, 4, 6 and 7 are refused |
| Protobuf.AnyFieldOrder | src/market_data/deserializers/binary.py:122-199 | any order, any repetition and any unknown fields give the same trade, as long as each field is there |
| Protobuf.TradeRoundTrip | src/market_data/deserializers/binary.py:106-199 | deserialising a serialised trade gives it back |
| Protobuf.QuoteTakesLastText | src/market_data/deserializers/binary.py:215-285 | a field list with the five numbers of a quote in any order, any repetition, any unknown fields and any texts decodes to that quote with the last text as its symbol; an unreadable text or no text is the error |
| Protobuf.QuoteIffLastText | src/market_data/deserializers/binary.py:215-285 | such a list decodes to the quote exactly when all texts are readable and the last one is its symbol |
| Protobuf.AnyQuoteOrder | src/market_data/deserializers/binary.py:215-285 | with no text but the symbol, any order, any repetition and any unknown fields give the same quote |
| Protobuf.UnknownTextBecomesSymbol | src/market_data/deserializers/binary.py:246-255 | an unknown text field behind the six written ones replaces the symbol |
| Protobuf.QuoteRoundTrip | src/market_data/deserializers/binary.py:202-285 | deserialising a serialised quote gives it back |
| Protobuf.NegativeTimestamp | src/market_data/deserializers/binary.py:106-199 | a negative timestamp comes back shifted by 2^64 |
| Protobuf.DecodeTrade | src/market_data/deserializers/binary.py:122-199 | the loop over fields computes the decoding function, errors included |
| Protobuf.DecodeQuote | src/market_data/deserializers/binary.py:215-285 | the loop over fields computes the decoding function, errors included |
| ProtobufMeaning.TradeMeaning | src/market_data/deserializers/binary.py:122-200 | a list of fields is read as a trade exactly when every text is readable, every side is 1, 2 or one of its four names, and all six fields occur; the last of each counts |
| ProtobufMeaning.QuoteMeaning | src/market_data/deserializers/binary.py:215-283 | a list of fields is read as a quote exactly when every text is readable and all five numbers and some text occur; the last of each counts |
| FlatBuffers.TradeTableRoundTrip | src/market_data/deserializers/binary.py:291-391 | the trade table reads back, negative timestamps included |
| FlatBuffers.QuoteTableRoundTrip | src/market_data/deserializers/binary.py:393-487 | the quote table reads back, negative timestamps included |
| FlatBuffers.FrameRoundTrip | src/market_data/deserializers/binary.py:547-571 | a framed body parses back to its kind and body |
| FlatBuffers.MessageRoundTrip | src/market_data/deserializers/binary.py:510-600 | for every trade and quote with timestamp in [0, 2^63) and body below 2^32 bytes, deserialising the serialised frame gives it back, in both protocols |
| FlatBuffers.WrongProtocol | src/market_data/deserializers/binary.py:547-571 | a frame of one protocol is refused by the other |
| FlatBuffersMeaning.FrameLayout | src/market_data/deserializers/binary.py:510-530 | a frame is the magic byte of its protocol, the kind of message, the length with its high byte first, and the body |
| FlatBuffersMeaning.OpenTableIff | src/market_data/deserializers/binary.py:330-346 | the reader opens a table exactly where one is laid out inside the body |
| FlatBuffersMeaning.FieldAtIff | src/market_data/deserializers/binary.py:347-358 | the reader finds a field exactly where its vtable entry puts one inside table and body |
| FlatBuffersMeaning.TradeTableIff | src/market_data/deserializers/binary.py:330-391 | a body is read as a trade exactly when a table stands in it whose fields 0 to 5 hold symbol, price, size, timestamp, id and side |
| FlatBuffersMeaning.QuoteTableIff | src/market_data/deserializers/binary.py:425-486 | a body is read as a quote exactly when a table stands in it whose fields 0 to 5 hold symbol, the two bid and the two ask numbers and the timestamp |
| FlatBuffersMeaning.TablesLaid | src/market_data/deserializers/binary.py:291-328 | the written tables begin with their fixed numbers: position, vtable length, table length, six offsets and the way back |
| FlatBuffersMeaning.TableFaults | src/market_data/deserializers/binary.py:331-345 | a body under eight bytes is too short, every other table that does not open is out of bounds |
| FlatBuffersMeaning.FieldFaults | src/market_data/deserializers/binary.py:347-357 | a field is missing exactly when the vtable has no entry or a zero one for it |
| FlatBuffersMeaning.TextFaults | src/market_data/deserializers/binary.py:359-371 | a text whose bytes are there and do not decode is malformed, one whose bytes are not there is out of bounds |
| FlatBuffersMeaning.SideFault | src/market_data/deserializers/binary.py:378-381 | a trade whose other fields are there is refused for its side exactly when that byte is neither 1 nor 2 |
| FlatBuffersMeaning.FrameFaults | src/market_data/deserializers/binary.py:547-571 | a payload under six bytes is too short, and one with another magic byte, kind or length has a bad header |
| FlatBuffersMeaning.TextsTerminated | src/market_data/deserializers/binary.py:291-328 | both tables end in their strings, each with its length before and a zero byte behind it |
| LintEngine.OverlapsIsShared | src/editor/models.py:53-59 | two ranges overlap exactly when some position lies in both |
| LintEngine.LinesTile | src/editor/lint_engine.py:171-177 | the lines tile the text, none is empty, and all but the last end in one of the separators of splitlines |
| LintEngine.OffsetMonotone | src/editor/lint_engine.py:179-198 | offsets of valid positions lie in the text and never fall; two positions share one exactly around a line break that the column check does not cut off |
| LintEngine.ApplyQuickFix | src/editor/lint_engine.py:154-222 | the validation loops, offset table and rewriting loop give the specified text or the specified error, in the order of the checks |
| LintEngine.FixIsSubstitution | src/editor/lint_engine.py:161-222 | an accepted fix with pairwise distinct start offsets is simultaneous substitution on the original text |
| LintEngine.FixRightIffStartsDiffer | src/editor/lint_engine.py:161-222 | for the ranges of an accepted fix, every choice of new texts gives the simultaneous substitution exactly when no two edits start at one offset |
| LintEngine.AcceptedOrdered | src/editor/lint_engine.py:161-212 | an accepted fix has all its edits inside the text and, sorted, none reaching into the next |
| LintEngine.StartsDifferPlainly | src/editor/lint_engine.py:179-198 | without a rare line break, distinct start offsets are distinct start positions |
| LintEngine.DeletionEatsInsertion | src/editor/lint_engine.py:214-218 | inserting X before the a of ab and deleting the a is accepted and gives ab, where substitution gives Xb |
| LintEngine.RareBreakSwapsInsertions | src/editor/lint_engine.py:171-218 | around a line tabulation, insertions at two different positions are accepted and come out in the wrong order |
| LintEngine.FindConflict | src/editor/lint_engine.py:162-169 | finds a clash exactly when two edits overlap or have equal ranges |
| LintEngine.LineStarts | src/editor/lint_engine.py:175-177 | the offset of every line |
| LintEngine.Locate | src/editor/lint_engine.py:179-198 | the offset of a position, or the IndexError |
| LintMeaning.LinesAreLines | src/editor/lint_engine.py:171-173 | a text is the concatenation of its lines, each ends at its first separator or at the end of the text, and a carriage return keeps its line feed |
| LintMeaning.SeparatorCodes | src/editor/lint_engine.py:171-173 | the separators of splitlines by their character codes |
| LintMeaning.ContentMeaning | src/editor/lint_engine.py:186-191 | the content of a line is what stands before its line feed, carriage return or both |
| LintMeaning.OffsetMeaning | src/editor/lint_engine.py:179-198 | before the offset of a position stand exactly the lines above it and its line up to its column |
| LintMeaning.AcceptedIff | src/editor/lint_engine.py:161-212 | a fix is accepted exactly when no two ranges are equal or overlap, all positions lie in the text and of any two edits one ends before the other starts |
| LintMeaning.RefusedWhy | src/editor/lint_engine.py:161-212 | the ValueError for equal or overlapping ranges comes first, then the IndexError for a position outside the text, then the ValueError for overlapping offsets |
| TextEdits.ReverseIsSimultaneous | src/editor/lint_engine.py:214-218 | applying sorted, separate edits last first equals substituting all at once |
| TextEdits.RightIffDistinctStarts | src/editor/lint_engine.py:214-218 | the result is right for all replacement texts exactly when no two edits start at the same place; with such a tie the stable sort applies them in the wrong order |
| TextEdits.SortAscPairwise | src/editor/lint_engine.py:206-212 | a relation holds of any two edits after sorting exactly when it does before |
| TrailingWhitespace.Check | src/editor/lint_engine.py:60-80 | reports exactly the specified ranges, line by line |
| TrailingWhitespace.DirtyMeaning | src/editor/lint_engine.py:62-69 | a line is dirty exactly when it ends in a space or a tab, and the reported range is the longest run of them at its end |
| TrailingWhitespace.DirtyRangesFacts | src/editor/lint_engine.py:60-80 | exactly the lines with trailing blanks are reported, each once |
| TrailingWhitespace.FixOne | src/editor/lint_engine.py:67-69 | the quick fix of a line cuts its trailing blanks and changes nothing else |
| TrailingWhitespace.AnyOrderStripsIff | src/editor/lint_engine.py:60-80 | applying all reported fixes one by one gives the text with every line stripped and nothing else changed, for every order, exactly when no dirty line comes behind a line of blanks between a CR and an LF |
| TrailingWhitespace.AnyOrderStrips | src/editor/lint_engine.py:60-80 | under that condition any order does so, and leaves nothing to report |
| TrailingWhitespace.ReportedOrderFails | src/editor/lint_engine.py:60-80 | without it the fixes in the order of the report are refused or leave blanks behind |
| TrailingWhitespace.FixKeepsLinesIff | src/editor/lint_engine.py:60-80 | cutting a line leaves the number and content of the other lines exactly when the line is not all that keeps a CR from an LF |
| TrailingWhitespace.BridgeBreaksOrder | src/editor/lint_engine.py:60-80 | with such a line, fixing it first takes a line away and the next reported fix is refused |
| LexerMeaning.CharacterClasses | src/pine_lexer/lexer.py:139-216 | digits, letters, blanks and quotes by their character codes |
| LexerMeaning.DelimiterCodes | src/pine_lexer/lexer.py:78-87 | the eight delimiters by their character codes |
| LexerMeaning.OperatorForms | src/pine_lexer/lexer.py:51-76 | an operator is one of ten characters alone, one of ten before an equals sign, or an arrow |
| LexerMeaning.FloatForms | src/pine_lexer/lexer.py:269-314 | digits with a point among them or at either end, with or without an exponent of one letter, at most one sign and digits, are floats; digits alone are an integer |
| LexerMeaning.StringForms | src/pine_lexer/lexer.py:232-267 | a quote, any characters but the quote, backslashes and line breaks, or a backslash with any character, and the quote again, are a string literal |
| LexerUnique.RightOnce | src/pine_lexer/lexer.py:109-216 | the token rules leave one list of tokens for a text: kinds, values, lines and columns |
| LexerUnique.ValidNeverFails | src/pine_lexer/lexer.py:109-216 | a text that has a right list of tokens has no error |
| LexerUnique.FailsOnce | src/pine_lexer/lexer.py:109-216 | the error of a text has one position |
| LexerUnique.TokenOnce | src/pine_lexer/lexer.py:159-216 | at most one token fits at one place, in extent and kind |
| LexerUnique.PlacedIffNoEscapes | src/pine_lexer/lexer.py:232-267 | all tokens stand at the line and column counted from the text before them exactly when a scan of the text finds no carriage return escaped inside a string literal |
| LexerUnique.EofShows | src/pine_lexer/lexer.py:232-267 | the end-of-file token stands at the count without the escaped carriage returns, and its line is too small exactly when there is one |
| LexerUnique.BrokenLiteral | src/pine_lexer/lexer.py:232-267 | a text of four characters, one string literal over a line break, whose end of file is put at (1, 5) instead of (2, 2) |
| LexerUnique.PlacedWithoutBackslashReturn | src/pine_lexer/lexer.py:232-267 | so they do in every text without a backslash directly before a carriage return |
| PineLexers.Lexer.SkipWhitespace | src/pine_lexer/lexer.py:140-157 | skips exactly the gap; CR, LF and CR LF each count one line |
| PineLexers.Lexer.LexString | src/pine_lexer/lexer.py:232-267 | a closed literal, or the error at its start exactly when no quote closes it |
| PineLexers.Lexer.LexNumber | src/pine_lexer/lexer.py:276-314 | an integer or float that no digit, fraction or exponent could have continued; a dot is left only before another dot |
| PineLexers.Lexer.LexWord | src/pine_lexer/lexer.py:316-341 | the longest word, classified as boolean, keyword or identifier |
| PineLexers.Lexer.NextToken | src/pine_lexer/lexer.py:159-216 | each step shrinks the unread text and yields the one token that fits at its place, at its exact position, or stops where no token starts |
| PineLexers.Lexer.Tokenize | src/pine_lexer/lexer.py:109-123 | the one right list of tokens; or the error behind tokens that are right up to it, at the exact position where no token starts |
| PineLexers.Lexer.LexComment | src/pine_lexer/lexer.py:218-230 | a comment token up to the line break |
| PineLexers.Lexer.LexSymbol | src/pine_lexer/lexer.py:186-216 | two-character operators first, then delimiters and single operators, an error exactly for no symbol |
| Portfolio.TradeBalances | src/paper/portfolio_tracker.py:42-106 | open, increase, reduce, close and reverse: the signed quantity moves by the trade's, and realised profit is the change of basis less the money paid |
| Portfolio.TradeAverages | src/paper/portfolio_tracker.py:49-106 | the entry price is the quantity-weighted average of what is left of the opening trades: increases add a lot, reductions take the same share of each, closing and reversing start afresh |
| Portfolio.BasesPut | src/paper/portfolio_tracker.py:86-106 | changing one position changes the total basis by that position's |
| Portfolio.TradeKeepsBalance | src/paper/portfolio_tracker.py:42-106 | the ledger still agrees with the history after a trade |
| Portfolio.MarkKeepsBalance | src/paper/portfolio_tracker.py:32-40 | the ledger still agrees with the history after a price update |
| Portfolio.EquityIdentity | src/paper/portfolio_tracker.py:108-121 | equity is initial cash less signed trade cost plus net position times last price |
| Portfolio.PortfolioTracker.ExecuteTrade | src/paper/portfolio_tracker.py:42-106 | one symbol gets the position after the trade, its average entry price included, cash and realised profit move by the profit of the trade, and the ledger stays in balance over any history; refused trades change nothing |
| Portfolio.PortfolioTracker.UpdatePrice | src/paper/portfolio_tracker.py:32-40 | only the current price of the symbol changes; the ledger stays in balance; a negative price is refused |
| Portfolio.PortfolioTracker.TotalEquity | src/paper/portfolio_tracker.py:118-121 | equity in terms of the history alone; cash less initial cash is realised profit |
| Portfolio.PortfolioTracker.Settle | src/paper/portfolio_tracker.py:49-106 | the branches compute position and profit after the trade and leave other symbols alone |
| Portfolio.PortfolioTracker.TotalUnrealizedPnl | src/paper/portfolio_tracker.py:108-116 | the sum of unrealised profit over all positions, in any order |
| Liquidation.EvaluateSolvency | src/risk/margin_calculator.py:63-108 | equity, margin, solvency and shortfall; fails exactly when an active position has no mark price |
| Liquidation.TotalsAdd | src/risk/margin_calculator.py:80-98 | both totals are sums over the positions |
| Liquidation.TotalsOfOne | src/risk/margin_calculator.py:80-98 | one position counts its price move times its size, and its rate of the value at the mark price |
| Liquidation.GenerateEvents | src/risk/liquidation_engine.py:94-139 | the events close what the plan says, position by position |
| Liquidation.EventsWithinPositions | src/risk/liquidation_engine.py:126-135 | every event closes at most the size of its position, on the opposite side, at its mark price |
| Liquidation.ExecutionMoves | src/risk/liquidation_engine.py:102-137 | executing the emitted events over the positions in order uses up every one on the position it was made for, keeps equity, lowers margin by what the events relieve, and relieves exactly the lesser of the shortfall and all margin there is to relieve |
| Liquidation.LiquidationRestores | src/risk/liquidation_engine.py:52-80 | after the emitted events are executed the account is solvent exactly when the shortfall could be covered; with positive mark prices, exactly when equity is not negative |
| Liquidation.NextEvent | src/risk/liquidation_engine.py:102-137 | the next event of the list is for a position exactly when something of it is to be closed |
| Liquidation.EvaluateAccount | src/risk/liquidation_engine.py:52-80 | no events for a solvent account; otherwise the events for the shortfall, whose execution restores the account as far as the margin goes |
| TrailingStops.RatchetMonotone | src/trading/trailing_stop_processor.py:90-123 | over any prices a sell stop never falls and a buy stop never rises |
| TrailingStops.RunsInStep | src/execution/simulated_pipeline.py:90-114 | from a loose start, after every price, the ratcheted stop is the watermark less or plus the delta, unless both lie at or below zero, and the engines have fired alike |
| TrailingStops.FireAlikeIffLoose | src/trading/trailing_stop_processor.py:90-123 | the two engines fire on the same tick, or never, over every continuation of the first price exactly when the initial stop is no tighter than that price allows |
| TrailingMeaning.CandidateMeaning | src/trading/trailing_stop_processor.py:97-120 | a new stop lies the amount, or that part of the extreme price, away from it, on the losing side |
| TrailingMeaning.TickMeaning | src/trading/trailing_stop_processor.py:68-123 | one tick: who takes part, who is triggered at which price, and how the extreme and the stop of the others move |
| TrailingMeaning.TrailMeaning | src/execution/simulated_pipeline.py:90-114 | a trailing order is filled at the first price that has come back from the best one by the delta; until then its watermark is the best price |
| TrailingEngines.TrailingStopOrder.Apply | src/trading/trailing_stop_processor.py:75-123 | gating, breach and ratchet of one order refine the tick function |
| TrailingEngines.TrailingStopOrder.Take | src/trading/trailing_stop_processor.py:70-72 | an order of another symbol is passed over, any other takes the tick and fires exactly when that triggers it |
| TrailingEngines.TrailingStopProcessor.TickAll | src/trading/trailing_stop_processor.py:54-125 | the loop over the stored orders ticks each of the symbol once and collects the triggered ones in order |
| TrailingEngines.TrailingStopProcessor.ProcessTick | src/trading/trailing_stop_processor.py:54-125 | the orders of the symbol take one tick, no other changes, and exactly those whose stop the price has reached are returned, each once and in stored order; a price at or below zero is refused |
| TrailingEngines.Order.EvaluateTrailing | src/execution/simulated_pipeline.py:90-114 | watermark and breach refine the evaluation function |
| TrailingEngines.SimulatedExecutionPipeline.ProcessTick | src/execution/simulated_pipeline.py:44-88 | the open orders of the symbol that are due are filled at the price and reported, each once and in stored order; no other order changes but for watermarks |
| TrailingEngines.TrailingStopOrder.Activate | src/trading/trailing_stop_processor.py:75-88 | activation gating by side and activation price |
| TrailingEngines.TrailingStopOrder.Follow | src/trading/trailing_stop_processor.py:90-123 | an active order triggers or its stop is drawn after the best price |
| TrailingEngines.TrailingStopProcessor.Register | src/trading/trailing_stop_processor.py:19-23 | adds an order with a new id; refuses a known one |
| TrailingEngines.Order.Meet | src/execution/simulated_pipeline.py:58-120 | one tick of an open order: it is filled exactly when due, a limit or stop order by its own price, a trailing one by the fall from its watermark |
| MovingAverage.Slide | src/services/pine_worker_sandbox.py:274-286 | sliding the window changes sum and count of missing values by the values that leave and enter |
| MovingAverage.RunningSma | src/services/pine_worker_sandbox.py:255-290 | the running window gives, at every index, the average of its window, missing when a value is missing or the window is not full |
| MovingAverage.PlainSma | src/ta/moving_averages.py:57-76 | summing each window afresh gives the same series; a length below one is refused |
| MovingAverage.SlideOn | src/services/pine_worker_sandbox.py:274-286 | one turn of the loop keeps sum and count exact for the next window |

## Left out

- HTTP, WebSocket, Redis, deployment, charts rendering and the numeric indicator library: input and
  output, or floating-point behaviour.
- Rounding of floats and of the decimal context: all arithmetic is on exact reals; the distance test
  of a round point compares squares.
- Comment trees, streaming bars, FIX framing and trendline clipping: small independent parts whose
  properties would be easier than those here.
- Red-black tree keys and values are reals; `keys` and `__repr__` are left out.
- Sorting is a stable insertion at the one right place; for the book, MatchingSpec.SortIsPlace shows
  that this is no choice.
- Matching orders without a price: a resting one is sorted and matched at price zero, which a trade
  refuses.
- Payloads attached to R-tree items are strings, and results are returned in search order only up to
  rearrangement.
- Parser statements, blocks and programs, the tokenizer of the sandbox, and the conversion of number
  text to a number: the expression grammar works on tokens and keeps the number as written.
- Scope variables with effectful initialisers, mutable values, and variables declared by the script
  while it runs; initialisers are constants.
- Autosave: timestamps, cancelled calls and failing storage; storage is a map keyed by chart id, and
  each storage call takes effect at one moment.
- UTF-8 and the packing of floats are parameters with the laws they need; the bit operations of varints
  are written as arithmetic.
- SyntaxError diagnostics, rule registration and the sorting of diagnostics in the lint engine.
- Digits and letters of the Pine lexer are the ASCII ones.
- Portfolio positions are values in a map, so a position object handed out by `get_position` and changed
  later is not captured; margin utilisation is left out.
- Liquidation.LiquidationRestores: execution at exactly the mark price, and of all events.
- Callbacks, quantities, timestamps and cancellation in the trailing-stop engines.
