/** Bounding boxes, index entries and the quadratic split of src/interaction/spatial_index.py. */
module RTreeGeometry {
  import opened Options
  import opened PlaneGeometry
  import opened Reals

  datatype Box = Box(minX: real, minY: real, maxX: real, maxY: real)

  predicate ValidBox(b: Box) {
    b.minX <= b.maxX && b.minY <= b.maxY
  }

  predicate Intersects(a: Box, b: Box) {
    !(a.maxX < b.minX || a.minX > b.maxX || a.maxY < b.minY || a.minY > b.maxY)
  }

  predicate ContainsPoint(b: Box, x: real, y: real, tolerance: real) {
    b.minX - tolerance <= x <= b.maxX + tolerance && b.minY - tolerance <= y <= b.maxY + tolerance
  }

  predicate Encloses(a: Box, b: Box) {
    a.minX <= b.minX && a.minY <= b.minY && b.maxX <= a.maxX && b.maxY <= a.maxY
  }

  function Union(a: Box, b: Box): Box {
    Box(Min(a.minX, b.minX), Min(a.minY, b.minY), Max(a.maxX, b.maxX), Max(a.maxY, b.maxY))
  }

  function Area(b: Box): real {
    (b.maxX - b.minX) * (b.maxY - b.minY)
  }

  function Enlargement(a: Box, b: Box): real {
    Max(0.0, Area(Union(a, b)) - Area(a))
  }

  /** _compute_bounds: the union of all boxes, None for none. */
  function Cover(bs: seq<Box>): Option<Box> {
    if bs == [] then None
    else
      var c := Cover(bs[..|bs|-1]);
      Some(if c.None? then bs[|bs|-1] else Union(c.value, bs[|bs|-1]))
  }

  /** The cover is the least box that encloses every given box. */
  lemma {:induction false} CoverIsLeast(bs: seq<Box>, b: Box)
    requires bs != []
    ensures Cover(bs).Some? && forall i :: 0 <= i < |bs| ==> Encloses(Cover(bs).value, bs[i])
    ensures (forall i :: 0 <= i < |bs| ==> Encloses(b, bs[i])) ==> Encloses(b, Cover(bs).value)
    decreases |bs|
  {
    if |bs| > 1 {
      CoverIsLeast(bs[..|bs|-1], b);
      assert forall i :: 0 <= i < |bs| - 1 ==> bs[i] == bs[..|bs|-1][i];
    }
  }

  lemma {:induction false} CoverValid(bs: seq<Box>)
    requires bs != [] && forall i :: 0 <= i < |bs| ==> ValidBox(bs[i])
    ensures ValidBox(Cover(bs).value)
    decreases |bs|
  {
    if |bs| > 1 {
      CoverValid(bs[..|bs|-1]);
    }
  }

  method ComputeBounds(bs: seq<Box>) returns (r: Option<Box>)
    ensures r == Cover(bs)
  {
    if bs == [] {
      return None;
    }
    var minX, minY, maxX, maxY := bs[0].minX, bs[0].minY, bs[0].maxX, bs[0].maxY;
    assert bs[..1] == [bs[0]];
    for i := 1 to |bs|
      invariant Cover(bs[..i]) == Some(Box(minX, minY, maxX, maxY))
    {
      assert bs[..i + 1][..i] == bs[..i];
      var b := bs[i];
      if b.minX < minX { minX := b.minX; }
      if b.minY < minY { minY := b.minY; }
      if b.maxX > maxX { maxX := b.maxX; }
      if b.maxY > maxY { maxY := b.maxY; }
    }
    assert bs[..|bs|] == bs;
    r := Some(Box(minX, minY, maxX, maxY));
  }

  // ---- entries ----

  /** An indexed item; a point keeps its centre and radius. */
  datatype Entry = Entry(id: string, bounds: Box, data: string, isPoint: bool, cx: real, cy: real, radius: real)

  predicate ValidEntry(e: Entry) {
    && ValidBox(e.bounds)
    && (e.isPoint ==> e.radius >= 0.0)
    && (e.isPoint ==> e.bounds == Box(e.cx - e.radius, e.cy - e.radius, e.cx + e.radius, e.cy + e.radius))
  }

  function Square(x: real): real {
    Times(x, x)
  }

  /** _IndexEntry.hit_test; the distance is compared through its square. */
  predicate HitsEntry(e: Entry, x: real, y: real, tolerance: real) {
    if e.isPoint then Square(e.cx - x) + Square(e.cy - y) <= Square(e.radius + tolerance)
    else ContainsPoint(e.bounds, x, y, tolerance)
  }

  function QueryBox(x: real, y: real, tolerance: real): Box {
    Box(x - tolerance, y - tolerance, x + tolerance, y + tolerance)
  }

  lemma TimesGrows(x: real, y: real, z: real)
    requires 0.0 <= x && y < z
    ensures Times(x, y) <= Times(x, z) && (0.0 < x ==> Times(x, y) < Times(x, z))
  {
    var d := z - y;
    assert x * z == x * y + x * d;
    ProductSign(x, d);
  }

  lemma ProductSign(x: real, d: real)
    requires x >= 0.0 && d > 0.0
    ensures x * d >= 0.0 && (x > 0.0 ==> x * d > 0.0)
  {}

  lemma TimesCommutes(x: real, y: real)
    ensures Times(x, y) == Times(y, x)
  {}

  lemma SquareGrows(a: real, b: real)
    requires 0.0 <= a < b
    ensures Square(a) < Square(b)
  {
    hide Times;
    TimesGrows(a, a, b);
    TimesGrows(b, a, b);
    TimesCommutes(a, b);
  }

  lemma SquareBound(d: real, r: real)
    requires r >= 0.0 && Square(d) <= Square(r)
    ensures -r <= d <= r
  {
    if d > r {
      SquareGrows(r, d);
    }
    if d < -r {
      assert Square(-d) == Square(d);
      SquareGrows(r, -d);
    }
  }

  /** The box test that prunes the search never loses a hit, round points included. */
  lemma HitNeedsBox(e: Entry, x: real, y: real, tolerance: real)
    requires ValidEntry(e) && tolerance >= 0.0 && HitsEntry(e, x, y, tolerance)
    ensures Intersects(e.bounds, QueryBox(x, y, tolerance))
  {
    if e.isPoint {
      var dx, dy, r := e.cx - x, e.cy - y, e.radius + tolerance;
      assert Square(dx) >= 0.0 && Square(dy) >= 0.0;
      SquareBound(dx, r);
      SquareBound(dy, r);
    }
  }

  // ---- what the tests mean ----

  predicate Inside(b: Box, p: Spot) {
    b.minX <= p.x <= b.maxX && b.minY <= p.y <= b.maxY
  }

  /** Two boxes intersect exactly if they share a position, be it on their edges. */
  lemma IntersectsIffShared(a: Box, b: Box)
    requires ValidBox(a) && ValidBox(b)
    ensures Intersects(a, b) <==> exists p :: Inside(a, p) && Inside(b, p)
  {
    if Intersects(a, b) {
      var p := Spot(Max(a.minX, b.minX), Max(a.minY, b.minY));
      assert Inside(a, p) && Inside(b, p);
    }
  }

  /** The entry covers p: a round point up to its radius, a box up to its edges. */
  predicate Covers(e: Entry, p: Spot) {
    if e.isPoint then Near(Spot(e.cx, e.cy), p, e.radius) else Inside(e.bounds, p)
  }

  /** The cursor may be off by the tolerance: in distance for a round point, in each coordinate
      for a box. */
  predicate Reaches(e: Entry, p: Spot, cursor: Spot, tolerance: real) {
    if e.isPoint then Near(p, cursor, tolerance)
    else -tolerance <= p.x - cursor.x <= tolerance && -tolerance <= p.y - cursor.y <= tolerance
  }

  ghost predicate Touches(e: Entry, cursor: Spot, tolerance: real) {
    exists p :: Covers(e, p) && Reaches(e, p, cursor, tolerance)
  }

  /** An entry is hit exactly if it covers some position within the tolerance of the cursor. */
  lemma HitsIffTouches(e: Entry, x: real, y: real, tolerance: real)
    requires ValidEntry(e) && tolerance >= 0.0
    ensures HitsEntry(e, x, y, tolerance) <==> Touches(e, Spot(x, y), tolerance)
  {
    hide HitsEntry, ContainsPoint;
    var cursor := Spot(x, y);
    if e.isPoint {
      PointHit(e, x, y, tolerance);
      NearIffMeet(Spot(e.cx, e.cy), cursor, e.radius, tolerance);
      PointTouches(e, cursor, tolerance);
    } else {
      BoxHit(e, x, y, tolerance);
    }
  }

  lemma PointHit(e: Entry, x: real, y: real, tolerance: real)
    requires e.isPoint && e.radius >= 0.0 && tolerance >= 0.0
    ensures HitsEntry(e, x, y, tolerance) <==> Near(Spot(e.cx, e.cy), Spot(x, y), e.radius + tolerance)
  {
  }

  lemma PointTouches(e: Entry, cursor: Spot, tolerance: real)
    requires e.isPoint
    ensures Touches(e, cursor, tolerance) <==>
      exists p :: Near(Spot(e.cx, e.cy), p, e.radius) && Near(p, cursor, tolerance)
  {
    hide Near;
    if p :| Near(Spot(e.cx, e.cy), p, e.radius) && Near(p, cursor, tolerance) {
      assert Covers(e, p) && Reaches(e, p, cursor, tolerance);
    }
  }

  lemma BoxHit(e: Entry, x: real, y: real, tolerance: real)
    requires !e.isPoint && ValidBox(e.bounds) && tolerance >= 0.0
    ensures HitsEntry(e, x, y, tolerance) <==> Touches(e, Spot(x, y), tolerance)
  {
    hide Square;
    if HitsEntry(e, x, y, tolerance) {
      var p := Spot(Max(e.bounds.minX, Min(x, e.bounds.maxX)), Max(e.bounds.minY, Min(y, e.bounds.maxY)));
      assert Covers(e, p) && Reaches(e, p, Spot(x, y), tolerance);
    }
  }

  // ---- quadratic split ----

  function Waste(a: Box, b: Box): real {
    Area(Union(a, b)) - Area(a) - Area(b)
  }

  // ---- what the measures mean ----

  lemma AreaMeaning(x: real, y: real, width: real, height: real)
    ensures Area(Box(x, y, x + width, y + height)) == width * height
  {
  }

  lemma CoverOfTwo(a: Box, b: Box)
    ensures Cover([a, b]) == Some(Union(a, b))
  {
    assert [a, b][..1] == [a] && [a][..0] == [];
    assert Cover([a]) == Some(a);
  }

  /** For valid boxes the enlargement is the area that the least box around both adds to the first,
      which is never negative. */
  lemma EnlargementMeaning(a: Box, b: Box)
    requires ValidBox(a) && ValidBox(b)
    ensures Cover([a, b]).Some? && Enlargement(a, b) == Area(Cover([a, b]).value) - Area(a) >= 0.0
  {
    hide Area, Union;
    CoverOfTwo(a, b);
    UnionCovers(a, b);
    AreaGrows(a, Union(a, b));
  }

  lemma UnionCovers(a: Box, b: Box)
    ensures Encloses(Union(a, b), a)
  {
  }

  lemma AreaGrows(a: Box, c: Box)
    requires ValidBox(a) && Encloses(c, a)
    ensures Area(a) <= Area(c)
  {
    ProductGrows(a.maxX - a.minX, c.maxX - c.minX, a.maxY - a.minY, c.maxY - c.minY);
  }

  /** The waste of a pair is the area of the least box around both that neither covers itself. */
  lemma WasteMeaning(a: Box, b: Box)
    ensures Cover([a, b]).Some? && Waste(a, b) == Area(Cover([a, b]).value) - (Area(a) + Area(b))
  {
    CoverOfTwo(a, b);
  }

  /** An element prefers the group it enlarges less by the difference of the two enlargements. */
  lemma PreferenceMeaning(b1: Box, b2: Box, b: Box)
    ensures
      var e1, e2, d := Enlargement(b1, b), Enlargement(b2, b), Preference(b1, b2, b);
      d >= 0.0 && (e1 == e2 + d || e2 == e1 + d)
  {
  }

  /** It goes to the group that it enlarges less, then to the smaller one, then to the one with
      fewer elements, then to the first. */
  lemma GoesFirstMeaning(b1: Box, b2: Box, b: Box, n1: nat, n2: nat)
    ensures
      var e1, e2 := Enlargement(b1, b), Enlargement(b2, b);
      GoesFirst(b1, b2, b, n1, n2) <==>
        e1 < e2 || (e1 == e2 && (Area(b1) < Area(b2) || (Area(b1) == Area(b2) && n1 <= n2)))
  {
  }

  /** No pair of boxes wastes more area than the pair (s1, s2). */
  ghost predicate WorstPair(boxes: seq<Box>, s1: nat, s2: nat)
    requires s1 < s2 < |boxes|
  {
    forall i, j :: 0 <= i < j < |boxes| ==> Waste(boxes[i], boxes[j]) <= Waste(boxes[s1], boxes[s2])
  }

  /** Scans the pairs (i, _) for one worse than the best so far. */
  method PickPartner(boxes: seq<Box>, i: nat, s1: nat, s2: nat, best: Option<real>)
    returns (t1: nat, t2: nat, worst: Option<real>)
    requires i < |boxes| && s1 < s2 < |boxes|
    requires best.Some? ==> best.value == Waste(boxes[s1], boxes[s2])
    ensures t1 < t2 < |boxes|
    ensures worst.Some? ==> worst.value == Waste(boxes[t1], boxes[t2])
    ensures best.Some? ==> worst.Some? && best.value <= worst.value
    ensures i + 1 < |boxes| ==> worst.Some?
    ensures forall b :: i < b < |boxes| ==> Waste(boxes[i], boxes[b]) <= worst.value
  {
    hide Waste;
    t1, t2, worst := s1, s2, best;
    for j := i + 1 to |boxes|
      invariant t1 < t2 < |boxes|
      invariant worst.Some? ==> worst.value == Waste(boxes[t1], boxes[t2])
      invariant best.Some? ==> worst.Some? && best.value <= worst.value
      invariant i + 1 < j ==> worst.Some?
      invariant forall b :: i < b < j ==> Waste(boxes[i], boxes[b]) <= worst.value
    {
      var waste := Waste(boxes[i], boxes[j]);
      if worst.None? || waste > worst.value {
        t1, t2, worst := i, j, Some(waste);
      }
    }
  }

  /** The seeds of the split. */
  method PickSeeds(boxes: seq<Box>) returns (s1: nat, s2: nat)
    requires |boxes| >= 2
    ensures s1 < s2 < |boxes| && WorstPair(boxes, s1, s2)
  {
    hide Waste;
    s1, s2 := 0, 1;
    var best: Option<real> := None;
    for i := 0 to |boxes|
      invariant s1 < s2 < |boxes|
      invariant best.Some? ==> best.value == Waste(boxes[s1], boxes[s2])
      invariant i > 0 ==> best.Some?
      invariant forall a, b :: 0 <= a < i && a < b < |boxes| ==> best.Some? && Waste(boxes[a], boxes[b]) <= best.value
    {
      s1, s2, best := PickPartner(boxes, i, s1, s2, best);
    }
    assert best.value == Waste(boxes[s1], boxes[s2]);
  }

  function Preference(b1: Box, b2: Box, b: Box): real {
    Abs(Enlargement(b1, b) - Enlargement(b2, b))
  }

  /** The first remaining element with the strongest preference for one of the groups. */
  function Strongest<E>(rest: seq<(E, Box)>, b1: Box, b2: Box): (k: nat)
    requires rest != []
    ensures k < |rest|
    decreases |rest|
  {
    var n := |rest| - 1;
    if n == 0 then 0
    else
      var k := Strongest(rest[..n], b1, b2);
      if Preference(b1, b2, rest[n].1) > Preference(b1, b2, rest[k].1) then n else k
  }

  lemma {:induction false} StrongestIsFirstMax<E>(rest: seq<(E, Box)>, b1: Box, b2: Box)
    requires rest != []
    ensures var k := Strongest(rest, b1, b2);
      && (forall i :: 0 <= i < |rest| ==> Preference(b1, b2, rest[i].1) <= Preference(b1, b2, rest[k].1))
      && (forall i :: 0 <= i < k ==> Preference(b1, b2, rest[i].1) < Preference(b1, b2, rest[k].1))
    decreases |rest|
  {
    hide Preference;
    var n := |rest| - 1;
    if n > 0 {
      StrongestIsFirstMax(rest[..n], b1, b2);
      assert forall i :: 0 <= i < n ==> rest[i] == rest[..n][i];
    }
  }

  method PickNext<E>(rest: seq<(E, Box)>, b1: Box, b2: Box) returns (k: nat)
    requires rest != []
    ensures k == Strongest(rest, b1, b2)
  {
    hide Enlargement;
    k := 0;
    var best := -1.0;
    for i := 0 to |rest|
      invariant i == 0 ==> best == -1.0 && k == 0
      invariant i > 0 ==> k == Strongest(rest[..i], b1, b2) && best == Preference(b1, b2, rest[k].1)
    {
      assert rest[..i + 1][..i] == rest[..i];
      var diff := Preference(b1, b2, rest[i].1);
      if diff > best {
        best := diff;
        k := i;
      }
    }
    assert rest[..|rest|] == rest;
  }

  /** Which group the chosen element joins. */
  predicate GoesFirst(b1: Box, b2: Box, cb: Box, n1: nat, n2: nat) {
    var e1, e2 := Enlargement(b1, cb), Enlargement(b2, cb);
    if e1 < e2 then true
    else if e2 < e1 then false
    else if Area(b1) < Area(b2) then true
    else if Area(b2) < Area(b1) then false
    else n1 <= n2
  }

  function BoxesOf<E>(s: seq<(E, Box)>): (r: seq<Box>)
    ensures |r| == |s| && forall i :: 0 <= i < |s| ==> r[i] == s[i].1
  {
    seq(|s|, i requires 0 <= i < |s| => s[i].1)
  }

  /** How the remaining elements are dealt out: all of them to a group that needs them to reach
      the minimum, otherwise the strongest preference is settled first. */
  function Dealt<E>(g1: seq<(E, Box)>, g2: seq<(E, Box)>, b1: Box, b2: Box, rest: seq<(E, Box)>, minEntries: nat)
    : (seq<(E, Box)>, seq<(E, Box)>)
    decreases |rest|
  {
    if |g1| + |rest| == minEntries then (g1 + rest, g2)
    else if |g2| + |rest| == minEntries then (g1, g2 + rest)
    else if rest == [] then (g1, g2)
    else
      var k := Strongest(rest, b1, b2);
      var c, left := rest[k], rest[..k] + rest[k + 1..];
      if GoesFirst(b1, b2, c.1, |g1|, |g2|) then Dealt(g1 + [c], g2, Union(b1, c.1), b2, left, minEntries)
      else Dealt(g1, g2 + [c], b1, Union(b2, c.1), left, minEntries)
  }

  /** Dealing loses and duplicates nothing, and both groups reach the minimum. */
  lemma {:induction false} DealtKeeps<E>(g1: seq<(E, Box)>, g2: seq<(E, Box)>, b1: Box, b2: Box,
                                         rest: seq<(E, Box)>, minEntries: nat)
    requires |g1| + |rest| >= minEntries && |g2| + |rest| >= minEntries
    requires |g1| + |g2| + |rest| >= 2 * minEntries
    ensures var (r1, r2) := Dealt(g1, g2, b1, b2, rest, minEntries);
      && multiset(r1) + multiset(r2) == multiset(g1) + multiset(g2) + multiset(rest)
      && |r1| >= minEntries && |r2| >= minEntries
    decreases |rest|
  {
    hide Union, Strongest, GoesFirst;
    if rest != [] && |g1| + |rest| != minEntries && |g2| + |rest| != minEntries {
      var k := Strongest(rest, b1, b2);
      var c, left := rest[k], rest[..k] + rest[k + 1..];
      WithoutOne(rest, k);
      if GoesFirst(b1, b2, c.1, |g1|, |g2|) {
        DealtKeeps(g1 + [c], g2, Union(b1, c.1), b2, left, minEntries);
      } else {
        DealtKeeps(g1, g2 + [c], b1, Union(b2, c.1), left, minEntries);
      }
    }
  }

  /** Deals out the elements that are not seeds. */
  method DealOut<E>(seed1: (E, Box), seed2: (E, Box), others: seq<(E, Box)>, minEntries: nat)
    returns (g1: seq<(E, Box)>, g2: seq<(E, Box)>)
    ensures (g1, g2) == Dealt([seed1], [seed2], seed1.1, seed2.1, others, minEntries)
  {
    hide Union, Strongest, GoesFirst;
    var b1, b2, rest := seed1.1, seed2.1, others;
    g1, g2 := [seed1], [seed2];
    while rest != []
      invariant Dealt(g1, g2, b1, b2, rest, minEntries) == Dealt([seed1], [seed2], seed1.1, seed2.1, others, minEntries)
      decreases |rest|
    {
      if |g1| + |rest| == minEntries {
        g1 := g1 + rest;
        return;
      }
      if |g2| + |rest| == minEntries {
        g2 := g2 + rest;
        return;
      }
      var k := PickNext(rest, b1, b2);
      var chosen := rest[k];
      rest := rest[..k] + rest[k + 1..];
      if GoesFirst(b1, b2, chosen.1, |g1|, |g2|) {
        g1, b1 := g1 + [chosen], Union(b1, chosen.1);
      } else {
        g2, b2 := g2 + [chosen], Union(b2, chosen.1);
      }
    }
    assert g1 + [] == g1 && g2 + [] == g2;
  }

  /** _split_elements: every element lands in exactly one group and both groups get at least
      minEntries. The groups grow from the pair that wastes the most area. */
  method SplitElements<E>(elements: seq<(E, Box)>, minEntries: nat)
    returns (g1: seq<(E, Box)>, g2: seq<(E, Box)>, ghost s1: nat, ghost s2: nat)
    requires |elements| >= 2 && minEntries >= 1 && |elements| >= 2 * minEntries
    ensures multiset(g1) + multiset(g2) == multiset(elements)
    ensures |g1| >= minEntries && |g2| >= minEntries
    ensures s1 < s2 < |elements| && WorstPair(BoxesOf(elements), s1, s2)
    ensures (g1, g2) == Dealt([elements[s1]], [elements[s2]], elements[s1].1, elements[s2].1,
                              elements[..s1] + elements[s1 + 1..s2] + elements[s2 + 1..], minEntries)
  {
    hide Dealt, Waste;
    var i, j := PickSeeds(BoxesOf(elements));
    s1, s2 := i, j;
    var others := elements[..i] + elements[i + 1..j] + elements[j + 1..];
    WithoutTwo(elements, i, j);
    DealtKeeps([elements[i]], [elements[j]], elements[i].1, elements[j].1, others, minEntries);
    g1, g2 := DealOut(elements[i], elements[j], others, minEntries);
  }

  lemma WithoutOne<T>(s: seq<T>, k: nat)
    requires k < |s|
    ensures multiset(s) == multiset(s[..k] + s[k + 1..]) + multiset{s[k]}
  {
    assert s == s[..k] + [s[k]] + s[k + 1..];
  }

  lemma WithoutTwo<T>(s: seq<T>, i: nat, j: nat)
    requires i < j < |s|
    ensures multiset(s) == multiset{s[i]} + multiset{s[j]} + multiset(s[..i] + s[i + 1..j] + s[j + 1..])
  {
    assert s == s[..i] + [s[i]] + s[i + 1..j] + [s[j]] + s[j + 1..];
  }

  function Firsts<E>(s: seq<(E, Box)>): (r: seq<E>)
    ensures |r| == |s| && forall i :: 0 <= i < |s| ==> r[i] == s[i].0
  {
    seq(|s|, i requires 0 <= i < |s| => s[i].0)
  }

  lemma FirstsCount<E>(s: seq<(E, Box)>, k: nat)
    requires k < |s|
    ensures multiset(Firsts(s)) == multiset{s[k].0} + multiset(Firsts(s[..k] + s[k + 1..]))
  {
    assert Firsts(s) == Firsts(s)[..k] + [s[k].0] + Firsts(s)[k + 1..];
    assert Firsts(s[..k] + s[k + 1..]) == Firsts(s)[..k] + Firsts(s)[k + 1..];
  }

  /** Rearranged pairs have rearranged first components. */
  lemma {:induction false} FirstsPermute<E>(s: seq<(E, Box)>, t: seq<(E, Box)>)
    requires multiset(s) == multiset(t)
    ensures multiset(Firsts(s)) == multiset(Firsts(t))
    decreases |s|
  {
    if s == [] {
      assert |multiset(t)| == |t|;
    } else {
      assert s[0] in multiset(s);
      var k :| 0 <= k < |t| && t[k] == s[0];
      FirstsCount(s, 0);
      FirstsCount(t, k);
      WithoutOne(s, 0);
      WithoutOne(t, k);
      SameRest(multiset(s[..0] + s[1..]), multiset(t[..k] + t[k + 1..]), s[0]);
      FirstsPermute(s[..0] + s[1..], t[..k] + t[k + 1..]);
    }
  }

  lemma SameRest<T>(a: multiset<T>, b: multiset<T>, x: T)
    requires a + multiset{x} == b + multiset{x}
    ensures a == b
  {
    assert a == (a + multiset{x}) - multiset{x} == (b + multiset{x}) - multiset{x} == b;
  }

  lemma FirstsShared<E>(s: seq<(E, Box)>, g1: seq<(E, Box)>, g2: seq<(E, Box)>)
    requires multiset(g1) + multiset(g2) == multiset(s)
    ensures multiset(Firsts(g1)) + multiset(Firsts(g2)) == multiset(Firsts(s))
  {
    FirstsPermute(s, g1 + g2);
    assert Firsts(g1 + g2) == Firsts(g1) + Firsts(g2);
  }
}
