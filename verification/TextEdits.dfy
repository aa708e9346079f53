/** Applying the edits of a quick fix in offset space: the end of apply_quick_fix in
    src/editor/lint_engine.py. */
module TextEdits {

  /** Replace the characters from start up to end by the new text. */
  datatype Edit = Edit(start: nat, end: nat, text: string)

  /** text[:k] and text[k:], which clamp k to the length. */
  function Take(s: string, k: nat): string {
    if k <= |s| then s[..k] else s
  }

  function Drop(s: string, k: nat): string {
    if k <= |s| then s[k..] else []
  }

  function Apply(s: string, e: Edit): string {
    Take(s, e.start) + e.text + Drop(s, e.end)
  }

  /** The loop that applies the edits one after another. */
  function ApplyAll(s: string, order: seq<Edit>): string
    decreases |order|
  {
    if order == [] then s else ApplyAll(Apply(s, order[0]), order[1..])
  }

  /** Simultaneous substitution: what lies between the edits stays, each edit's range becomes its
      new text, and insertions at one place come one after the other. */
  function Substitute(s: string, edits: seq<Edit>, from: nat): string
    requires from <= |s| && Ordered(s, edits) && (edits != [] ==> from <= edits[0].start)
    decreases |edits|
  {
    if edits == [] then s[from..]
    else s[from..edits[0].start] + edits[0].text + Substitute(s, edits[1..], edits[0].end)
  }

  /** Ranges inside the text, in order, not overlapping. */
  predicate Ordered(s: string, edits: seq<Edit>) {
    && (forall i :: 0 <= i < |edits| ==> edits[i].start <= edits[i].end <= |s|)
    && (forall i :: 0 < i < |edits| ==> edits[i - 1].end <= edits[i].start)
  }

  /** An insertion and another edit at the same place. */
  predicate Tied(edits: seq<Edit>) {
    |edits| >= 2 && edits[0].start == edits[1].start
  }

  predicate DistinctStarts(edits: seq<Edit>) {
    forall i :: 0 < i < |edits| ==> edits[i - 1].start != edits[i].start
  }

  // ---- sorting by start, last first ----

  /** Stable: an edit goes behind those with the same start. */
  function InsertDesc(order: seq<Edit>, e: Edit): seq<Edit> {
    if order == [] || order[0].start < e.start then [e] + order else [order[0]] + InsertDesc(order[1..], e)
  }

  /** sort(key=start, reverse=True). */
  function SortDesc(edits: seq<Edit>): seq<Edit> {
    if edits == [] then [] else InsertDesc(SortDesc(edits[..|edits|-1]), edits[|edits|-1])
  }

  lemma {:induction false} InsertBeforeLess(order: seq<Edit>, rest: seq<Edit>, e: Edit)
    requires forall i :: 0 <= i < |rest| ==> rest[i].start < e.start
    ensures InsertDesc(order + rest, e) == InsertDesc(order, e) + rest
    decreases |order|
  {
    if order == [] {
      assert order + rest == rest;
      assert rest == [] ==> InsertDesc(rest, e) == [e];
    } else {
      assert (order + rest)[1..] == order[1..] + rest;
      InsertBeforeLess(order[1..], rest, e);
    }
  }

  lemma {:induction false} InsertKeeps(order: seq<Edit>, e: Edit)
    ensures multiset(InsertDesc(order, e)) == multiset(order) + multiset{e}
    decreases |order|
  {
    if order != [] && order[0].start >= e.start {
      InsertKeeps(order[1..], e);
      assert order == [order[0]] + order[1..];
    }
  }

  lemma {:induction false} SortDescKeeps(edits: seq<Edit>)
    ensures multiset(SortDesc(edits)) == multiset(edits)
    decreases |edits|
  {
    if edits != [] {
      var n := |edits| - 1;
      SortDescKeeps(edits[..n]);
      InsertKeeps(SortDesc(edits[..n]), edits[n]);
      assert edits == edits[..n] + [edits[n]];
    }
  }

  /** Edits with smaller starts end up behind. */
  lemma {:induction false} SortDescBlocks(low: seq<Edit>, high: seq<Edit>)
    requires forall i, j :: 0 <= i < |low| && 0 <= j < |high| ==> low[i].start < high[j].start
    ensures SortDesc(low + high) == SortDesc(high) + SortDesc(low)
    decreases |high|
  {
    hide InsertDesc;
    if high == [] {
      assert low + high == low && SortDesc(high) == [];
      assert SortDesc(high) + SortDesc(low) == SortDesc(low);
    } else {
      var n, all := |high| - 1, low + high;
      SortDescBlocks(low, high[..n]);
      assert all[..|all| - 1] == low + high[..n] && all[|all| - 1] == high[n];
      SortedStarts(low, high[n].start);
      InsertBeforeLess(SortDesc(high[..n]), SortDesc(low), high[n]);
    }
  }

  lemma SortedStarts(low: seq<Edit>, bound: nat)
    requires forall i :: 0 <= i < |low| ==> low[i].start < bound
    ensures forall i :: 0 <= i < |SortDesc(low)| ==> SortDesc(low)[i].start < bound
  {
    SortDescKeeps(low);
    forall i | 0 <= i < |SortDesc(low)|
      ensures SortDesc(low)[i].start < bound
    {
      assert SortDesc(low)[i] in multiset(low);
    }
  }

  // ---- the order of application ----

  lemma {:induction false} ApplyAllConcat(s: string, a: seq<Edit>, b: seq<Edit>)
    ensures ApplyAll(s, a + b) == ApplyAll(ApplyAll(s, a), b)
    decreases |a|
  {
    if a == [] {
      assert a + b == b;
    } else {
      assert (a + b)[1..] == a[1..] + b;
      ApplyAllConcat(Apply(s, a[0]), a[1..], b);
    }
  }

  /** In an ordered list every edit ends before all later ones start. */
  lemma {:induction false} StartsRise(s: string, edits: seq<Edit>, i: nat, j: nat)
    requires Ordered(s, edits) && i <= j < |edits|
    ensures edits[i].start <= edits[j].start
    ensures i < j ==> edits[i].end <= edits[j].start
    decreases j - i
  {
    if i < j {
      StartsRise(s, edits, i, j - 1);
      assert edits[j - 1].end <= edits[j].start;
    }
  }

  lemma OrderedSuffix(s: string, edits: seq<Edit>, k: nat)
    requires Ordered(s, edits) && k <= |edits|
    ensures Ordered(s, edits[k..])
  {
    var rest := edits[k..];
    forall i | 0 < i < |rest|
      ensures rest[i - 1].end <= rest[i].start
    {
      assert rest[i] == edits[k + i] && rest[i - 1] == edits[k + i - 1];
    }
  }

  /** How many edits start where the first one does. */
  function Front(edits: seq<Edit>): (k: nat)
    requires edits != []
    ensures 1 <= k <= |edits| && (k > 1 <==> Tied(edits))
    ensures forall i :: 0 <= i < k ==> edits[i].start == edits[0].start
    ensures k < |edits| ==> edits[k].start != edits[0].start
    decreases |edits|
  {
    if Tied(edits) then 1 + Front(edits[1..]) else 1
  }

  lemma FrontBelow(s: string, edits: seq<Edit>, j: nat)
    requires Ordered(s, edits) && edits != [] && Front(edits) <= j < |edits|
    ensures edits[0].start < edits[j].start
  {
    StartsRise(s, edits, 0, Front(edits));
    StartsRise(s, edits, Front(edits), j);
  }

  /** The edits at the first place come last, in their own order. */
  lemma FrontLast(s: string, edits: seq<Edit>)
    requires Ordered(s, edits) && edits != []
    ensures SortDesc(edits) == SortDesc(edits[Front(edits)..]) + edits[..Front(edits)]
  {
    hide SortDesc;
    var k := Front(edits);
    var low, high := edits[..k], edits[k..];
    assert edits == low + high;
    forall j | 0 <= j < |high|
      ensures edits[0].start < high[j].start
    {
      FrontBelow(s, edits, k + j);
      assert high[j] == edits[k + j];
    }
    forall i | 0 <= i < k
      ensures low[i].start == edits[0].start
    {
      assert low[i] == edits[i];
    }
    SortDescBlocks(low, high);
    SortFront(low);
  }

  lemma {:induction false} InsertLast(order: seq<Edit>, e: Edit)
    requires forall i :: 0 <= i < |order| ==> order[i].start == e.start
    ensures InsertDesc(order, e) == order + [e]
    decreases |order|
  {
    if order == [] {
      assert order + [e] == [e] + order;
    } else {
      InsertLast(order[1..], e);
      assert [order[0]] + (order[1..] + [e]) == order + [e];
    }
  }

  lemma {:induction false} SortFront(low: seq<Edit>)
    requires forall i :: 0 <= i < |low| ==> low[i].start == low[0].start
    ensures SortDesc(low) == low
    decreases |low|
  {
    if low != [] {
      var n := |low| - 1;
      SortFront(low[..n]);
      InsertLast(low[..n], low[n]);
      assert low == low[..n] + [low[n]];
    }
  }

  lemma ApplyFront(s: string, edits: seq<Edit>)
    requires Ordered(s, edits) && edits != []
    ensures ApplyAll(s, SortDesc(edits))
         == ApplyAll(ApplyAll(s, SortDesc(edits[Front(edits)..])), edits[..Front(edits)])
    ensures !Tied(edits) ==> ApplyAll(s, SortDesc(edits)) == Apply(ApplyAll(s, SortDesc(edits[1..])), edits[0])
  {
    hide SortDesc, Apply;
    FrontLast(s, edits);
    var k := Front(edits);
    ApplyAllConcat(s, SortDesc(edits[k..]), edits[..k]);
    if !Tied(edits) {
      assert edits[..1] == [edits[0]] && edits[..1][1..] == [];
    }
  }

  lemma EmptySort()
    ensures SortDesc([]) == []
  {}

  lemma OneMore(s: string, from: nat, e: Edit, t: string, tail: string)
    requires from <= e.start <= e.end <= |s| && t == s[..e.end] + tail
    ensures Apply(t, e) == s[..from] + (s[from..e.start] + e.text + tail)
  {
    assert t[e.end..] == tail && t[..e.start] == s[..e.start] == s[..from] + s[from..e.start];
  }

  // ---- right exactly when no two edits start at the same place ----

  /** Applying edits leaves everything before the first of them. */
  lemma {:induction false} PrefixStays(t: string, order: seq<Edit>, p: nat)
    requires p <= |t| && forall i :: 0 <= i < |order| ==> p <= order[i].start
    ensures |ApplyAll(t, order)| >= p && ApplyAll(t, order)[..p] == t[..p]
    decreases |order|
  {
    if order != [] {
      assert Apply(t, order[0])[..p] == Take(t, order[0].start)[..p];
      PrefixStays(Apply(t, order[0]), order[1..], p);
    }
  }

  lemma SortedPrefixStays(s: string, edits: seq<Edit>, p: nat)
    requires p <= |s| && forall i :: 0 <= i < |edits| ==> p <= edits[i].start
    ensures var t := ApplyAll(s, SortDesc(edits)); |t| >= p && t[..p] == s[..p]
  {
    SortDescKeeps(edits);
    var order := SortDesc(edits);
    forall i | 0 <= i < |order|
      ensures p <= order[i].start
    {
      assert order[i] in multiset(edits);
    }
    PrefixStays(s, order, p);
  }

  /** Without ties, last-first application is simultaneous substitution. */
  lemma {:induction false} ReverseIsSimultaneous(s: string, edits: seq<Edit>, from: nat)
    requires Ordered(s, edits) && DistinctStarts(edits) && from <= |s| && (edits != [] ==> from <= edits[0].start)
    ensures ApplyAll(s, SortDesc(edits)) == s[..from] + Substitute(s, edits, from)
    decreases |edits|
  {
    hide SortDesc, Apply;
    if edits == [] {
      assert s[..from] + s[from..] == s && SortDesc(edits) == [] by {
        EmptySort();
      }
    } else {
      var e, rest := edits[0], edits[1..];
      OrderedSuffix(s, edits, 1);
      forall i | 0 < i < |rest|
        ensures rest[i - 1].start != rest[i].start
      {
        assert rest[i] == edits[i + 1] && rest[i - 1] == edits[i];
      }
      if rest != [] {
        StartsRise(s, edits, 0, 1);
      }
      ReverseIsSimultaneous(s, rest, e.end);
      assert !Tied(edits);
      ApplyFront(s, edits);
      OneMore(s, from, e, ApplyAll(s, SortDesc(rest)), Substitute(s, rest, e.end));
    }
  }

  /** The same ranges with other new texts. */
  function WithTexts(edits: seq<Edit>, texts: seq<string>): (r: seq<Edit>)
    requires |edits| == |texts|
    ensures |r| == |edits| && forall i :: 0 <= i < |r| ==> r[i] == edits[i].(text := texts[i])
  {
    seq(|edits|, i requires 0 <= i < |edits| => edits[i].(text := texts[i]))
  }

  lemma WithTextsOrdered(s: string, edits: seq<Edit>, texts: seq<string>)
    requires Ordered(s, edits) && |edits| == |texts|
    ensures Ordered(s, WithTexts(edits, texts)) && DistinctStarts(WithTexts(edits, texts)) == DistinctStarts(edits)
  {
    var w := WithTexts(edits, texts);
    forall i | 0 < i < |edits|
      ensures w[i - 1].end <= w[i].start && w[i].start == edits[i].start
    {}
    forall i | 0 < i < |edits|
      ensures (w[i - 1].start == w[i].start) == (edits[i - 1].start == edits[i].start)
    {}
  }

  lemma Cancel(a: string, b: string, x: string, y: string)
    requires a + x == b + y && |a| == |b|
    ensures x == y
  {
    assert x == (a + x)[|a|..] && y == (b + y)[|b|..];
  }

  /** Insertions of nothing change nothing. */
  lemma {:induction false} NoOps(t: string, order: seq<Edit>, p: nat)
    requires p <= |t| && forall i :: 0 <= i < |order| ==> order[i] == Edit(p, p, "")
    ensures ApplyAll(t, order) == t
    decreases |order|
  {
    if order != [] {
      assert Apply(t, order[0]) == t;
      NoOps(t, order[1..], p);
    }
  }

  /** Insertions before a replacement at their place: it eats the inserted character instead of
      the last old one. */
  lemma ReplacementDrifts(t: string, p: nat, q: nat, c: char, between: seq<Edit>)
    requires p < q <= |t| && forall i :: 0 <= i < |between| ==> between[i] == Edit(p, p, "")
    ensures
      var v := ApplyAll(t, [Edit(p, p, [c])] + between + [Edit(p, q, "")]);
      |v| > p && v[p] == t[q - 1]
  {
    var first, last := Edit(p, p, [c]), Edit(p, q, "");
    var u := Apply(t, first);
    assert u == t[..p] + [c] + t[p..] && u[q] == t[q - 1];
    NoOps(u, between, p);
    assert [first] + between + [last] == [first] + (between + [last]);
    assert ([first] + (between + [last]))[1..] == between + [last];
    ApplyAllConcat(u, between, [last]);
    assert [last][1..] == [] && ApplyAll(u, [last]) == Apply(u, last) == u[..p] + u[q..];
  }

  /** Insertions at one place come out in the wrong order. */
  lemma InsertionsDrift(t: string, p: nat, c: char, d: char, between: seq<Edit>)
    requires p <= |t| && forall i :: 0 <= i < |between| ==> between[i] == Edit(p, p, "")
    ensures
      var v := ApplyAll(t, [Edit(p, p, [c]), Edit(p, p, [d])] + between);
      |v| > p && v[p] == d
  {
    var first, second := Edit(p, p, [c]), Edit(p, p, [d]);
    var u := Apply(t, first);
    assert u == t[..p] + [c] + t[p..];
    var w := Apply(u, second);
    assert w == u[..p] + [d] + u[p..];
    NoOps(w, between, p);
    var all := [first, second] + between;
    assert all[1..][1..] == between && all[1..][0] == second;
  }

  /** With a tie, some new texts come out wrong. */
  lemma {:induction false} SomeTextsDrift(s: string, edits: seq<Edit>, from: nat) returns (texts: seq<string>)
    requires Ordered(s, edits) && !DistinctStarts(edits) && edits != [] && from <= edits[0].start <= |s|
    ensures |texts| == |edits| && Ordered(s, WithTexts(edits, texts))
    ensures ApplyAll(s, SortDesc(WithTexts(edits, texts))) != s[..from] + Substitute(s, WithTexts(edits, texts), from)
    decreases |edits|
  {
    hide SortDesc, ApplyAll, Substitute, DistinctStarts, Ordered;
    if Tied(edits) {
      texts := DriftAtTie(s, edits, from);
    } else {
      TieBehind(s, edits);
      var others := SomeTextsDrift(s, edits[1..], edits[0].end);
      texts := [""] + others;
      WithTextsOrdered(s, edits, texts);
      assert WithTexts(edits, texts)[1..] == WithTexts(edits[1..], others);
      forall i | 1 <= i < |edits| ensures edits[0].end <= edits[i].start {
        StartsRise(s, edits, 0, i);
      }
      DriftStays(s, WithTexts(edits, texts), from);
    }
  }

  lemma TieBehind(s: string, edits: seq<Edit>)
    requires Ordered(s, edits) && !DistinctStarts(edits) && !Tied(edits)
    ensures |edits| > 2 && Ordered(s, edits[1..]) && !DistinctStarts(edits[1..])
    ensures edits[0].end <= edits[1].start <= |s|
  {
    OrderedSuffix(s, edits, 1);
    var i :| 0 < i < |edits| && edits[i - 1].start == edits[i].start;
    assert i > 1 && edits[1..][i - 2].start == edits[1..][i - 1].start;
    assert edits[1 - 1].end <= edits[1].start;
  }

  lemma {:induction false} FrontOfTexts(edits: seq<Edit>, texts: seq<string>)
    requires |edits| == |texts| && edits != []
    ensures Front(WithTexts(edits, texts)) == Front(edits)
    decreases |edits|
  {
    if Tied(edits) {
      FrontOfTexts(edits[1..], texts[1..]);
      assert WithTexts(edits, texts)[1..] == WithTexts(edits[1..], texts[1..]);
    }
  }

  /** In a tie all edits but the last are insertions. */
  lemma TieIsInsertions(s: string, edits: seq<Edit>, i: nat)
    requires Ordered(s, edits) && edits != [] && i + 1 < Front(edits)
    ensures edits[i].start == edits[i].end == edits[0].start
  {
    StartsRise(s, edits, i, i + 1);
  }

  /** Texts that show a tie: one character inserted before a replacement by nothing, or two
      different characters inserted. */
  function TieTexts(n: nat, c: char, d: string): (texts: seq<string>)
    requires n >= 2
    ensures |texts| == n && texts[0] == [c] && texts[1] == d && forall i :: 2 <= i < n ==> texts[i] == ""
  {
    [[c], d] + seq(n - 2, i => "")
  }

  lemma DriftAtTie(s: string, edits: seq<Edit>, from: nat) returns (texts: seq<string>)
    requires Ordered(s, edits) && Tied(edits) && from <= edits[0].start
    ensures |texts| == |edits| && Ordered(s, WithTexts(edits, texts))
    ensures ApplyAll(s, SortDesc(WithTexts(edits, texts))) != s[..from] + Substitute(s, WithTexts(edits, texts), from)
  {
    hide SortDesc, ApplyAll, Apply, Front;
    var k := Front(edits);
    var p, q := edits[0].start, edits[k - 1].end;
    var c := if q > p && s[q - 1] == 'x' then 'y' else 'x';
    texts := TieTexts(|edits|, c, if q > p then "" else "z");
    var w := WithTexts(edits, texts);
    WithTextsOrdered(s, edits, texts);
    FrontOfTexts(edits, texts);
    forall i | 0 <= i < k - 1 ensures w[i].start == w[i].end == p {
      TieIsInsertions(s, edits, i);
    }
    TieDrifts(s, w, p, q, c);
    FirstText(s, w, from);
  }

  /** With these texts the character at the tie is not the inserted one. */
  lemma TieDrifts(s: string, w: seq<Edit>, p: nat, q: nat, c: char)
    requires Ordered(s, w) && Tied(w) && w[0] == Edit(p, p, [c]) && q == w[Front(w) - 1].end
    requires forall i :: 1 <= i < Front(w) ==> w[i].start == p && w[i].text == if i == 1 && q == p then "z" else ""
    requires forall i :: 0 <= i < Front(w) - 1 ==> w[i].end == p
    requires if q > p then q <= |s| && c != s[q - 1] else c != 'z'
    ensures var v := ApplyAll(s, SortDesc(w)); |v| <= p || v[p] != c
  {
    hide SortDesc, ApplyAll, Apply, Front;
    var k := Front(w);
    forall i | 0 <= i < |w[k..]| ensures q <= w[k..][i].start {
      StartsRise(s, w, k - 1, k + i);
    }
    var t := ApplyAll(s, SortDesc(w[k..]));
    SortedPrefixStays(s, w[k..], q);
    ApplyFront(s, w);
    if q > p {
      GroupReplacement(t, w[..k], p, q, c);
      assert t[q - 1] == t[..q][q - 1] == s[q - 1];
    } else {
      GroupInsertions(t, w[..k], p, c);
    }
  }

  lemma GroupReplacement(t: string, g: seq<Edit>, p: nat, q: nat, c: char)
    requires |g| >= 2 && p < q <= |t| && g[0] == Edit(p, p, [c]) && g[|g| - 1] == Edit(p, q, "")
    requires forall i :: 1 <= i < |g| - 1 ==> g[i] == Edit(p, p, "")
    ensures var v := ApplyAll(t, g); |v| > p && v[p] == t[q - 1]
  {
    hide ApplyAll;
    var between := g[1..|g| - 1];
    assert g == [Edit(p, p, [c])] + between + [Edit(p, q, "")];
    ReplacementDrifts(t, p, q, c, between);
  }

  lemma GroupInsertions(t: string, g: seq<Edit>, p: nat, c: char)
    requires |g| >= 2 && p <= |t| && g[0] == Edit(p, p, [c]) && g[1] == Edit(p, p, "z")
    requires forall i :: 2 <= i < |g| ==> g[i] == Edit(p, p, "")
    ensures var v := ApplyAll(t, g); |v| > p && v[p] == 'z'
  {
    hide ApplyAll;
    var between := g[2..];
    assert g == [Edit(p, p, [c]), Edit(p, p, "z")] + between;
    InsertionsDrift(t, p, c, 'z', between);
  }

  lemma FirstText(s: string, w: seq<Edit>, from: nat)
    requires Ordered(s, w) && w != [] && from <= w[0].start && w[0].text != ""
    ensures |s[..from] + Substitute(s, w, from)| > w[0].start
    ensures (s[..from] + Substitute(s, w, from))[w[0].start] == w[0].text[0]
  {
  }

  /** An untied edit in front does not repair a wrong result behind it. */
  lemma DriftStays(s: string, w: seq<Edit>, from: nat)
    requires Ordered(s, w) && w != [] && !Tied(w) && from <= w[0].start && Ordered(s, w[1..])
    requires forall i :: 1 <= i < |w| ==> w[0].end <= w[i].start
    requires ApplyAll(s, SortDesc(w[1..])) != s[..w[0].end] + Substitute(s, w[1..], w[0].end)
    ensures ApplyAll(s, SortDesc(w)) != s[..from] + Substitute(s, w, from)
  {
    hide SortDesc, ApplyAll, Apply;
    var e, rest := w[0], w[1..];
    var t := ApplyAll(s, SortDesc(rest));
    ApplyFront(s, w);
    SortedPrefixStays(s, rest, e.end);
    NoRepair(s, from, e, t, Substitute(s, rest, e.end));
  }

  lemma NoRepair(s: string, from: nat, e: Edit, t: string, sub: string)
    requires from <= e.start <= e.end <= |s| && |t| >= e.end && t[..e.end] == s[..e.end] && t != s[..e.end] + sub
    ensures Apply(t, e) != s[..from] + (s[from..e.start] + e.text + sub)
  {
    hide Apply;
    var tail := t[e.end..];
    assert t == s[..e.end] + tail;
    OneMore(s, from, e, t, tail);
    var a := s[..from] + (s[from..e.start] + e.text);
    assert s[..from] + (s[from..e.start] + e.text + tail) == a + tail;
    assert s[..from] + (s[from..e.start] + e.text + sub) == a + sub;
    if a + tail == a + sub {
      Cancel(a, a, tail, sub);
    }
  }

  /** The edits come out as simultaneous substitution. */
  ghost predicate Right(s: string, edits: seq<Edit>) {
    Ordered(s, edits) && ApplyAll(s, SortDesc(edits)) == Substitute(s, edits, 0)
  }

  /** Whatever the new texts, the result is right: that holds exactly when no two edits start at
      the same place. */
  lemma RightIffDistinctStarts(s: string, edits: seq<Edit>)
    requires Ordered(s, edits)
    ensures (forall texts: seq<string> :: |texts| == |edits| ==> Right(s, WithTexts(edits, texts))) <==>
      DistinctStarts(edits)
  {
    if DistinctStarts(edits) {
      forall texts: seq<string> | |texts| == |edits|
        ensures Right(s, WithTexts(edits, texts))
      {
        WithTextsOrdered(s, edits, texts);
        ReverseIsSimultaneous(s, WithTexts(edits, texts), 0);
        assert s[..0] == "";
      }
    } else {
      var texts := SomeTextsDrift(s, edits, 0);
      assert s[..0] == "";
      assert !Right(s, WithTexts(edits, texts));
    }
  }

  // ---- sorting by start and end ----

  predicate NotAfter(a: Edit, b: Edit) {
    a.start < b.start || (a.start == b.start && a.end <= b.end)
  }

  /** Stable: an edit goes behind those with the same key. */
  function InsertAsc(s: seq<Edit>, e: Edit): seq<Edit> {
    if s == [] || !NotAfter(s[0], e) then [e] + s else [s[0]] + InsertAsc(s[1..], e)
  }

  /** sort(key=(start, end)). */
  function SortAsc(s: seq<Edit>): seq<Edit> {
    if s == [] then [] else InsertAsc(SortAsc(s[..|s|-1]), s[|s|-1])
  }

  predicate Ascending(s: seq<Edit>) {
    forall i :: 0 < i < |s| ==> NotAfter(s[i - 1], s[i])
  }

  /** rel holds of any two of the edits, whichever comes first. */
  predicate Pairwise(s: seq<Edit>, rel: (Edit, Edit) -> bool) {
    forall i, j :: 0 <= i < j < |s| ==> rel(s[i], s[j]) && rel(s[j], s[i])
  }

  lemma {:induction false} InsertAscKeeps(s: seq<Edit>, e: Edit)
    ensures multiset(InsertAsc(s, e)) == multiset(s) + multiset{e}
    ensures forall x :: x in InsertAsc(s, e) ==> x in s || x == e
    decreases |s|
  {
    if s != [] && NotAfter(s[0], e) {
      assert s == [s[0]] + s[1..];
      InsertAscKeeps(s[1..], e);
    }
  }

  lemma {:induction false} InsertAscOrder(s: seq<Edit>, e: Edit)
    requires Ascending(s)
    ensures Ascending(InsertAsc(s, e))
    ensures InsertAsc(s, e)[0] == if s != [] && NotAfter(s[0], e) then s[0] else e
    decreases |s|
  {
    if s != [] && NotAfter(s[0], e) {
      InsertAscOrder(s[1..], e);
    }
  }

  /** Where an edit goes. */
  function Slot(s: seq<Edit>, e: Edit): (k: nat)
    ensures k <= |s| && InsertAsc(s, e) == s[..k] + [e] + s[k..]
  {
    if s == [] || !NotAfter(s[0], e) then 0
    else
      var k := Slot(s[1..], e);
      BehindFirst(s, e, k);
      k + 1
  }

  lemma BehindFirst(s: seq<Edit>, e: Edit, k: nat)
    requires s != [] && k < |s|
    ensures [s[0]] + (s[1..][..k] + [e] + s[1..][k..]) == s[..k + 1] + [e] + s[k + 1..]
  {
  }

  /** e is related to all of the edits, both ways. */
  predicate RelatedTo(s: seq<Edit>, e: Edit, rel: (Edit, Edit) -> bool) {
    forall i :: 0 <= i < |s| ==> rel(s[i], e) && rel(e, s[i])
  }

  lemma InsertAscPairwise(s: seq<Edit>, e: Edit, rel: (Edit, Edit) -> bool)
    ensures Pairwise(InsertAsc(s, e), rel) <==> Pairwise(s, rel) && RelatedTo(s, e, rel)
  {
    hide InsertAsc;
    var k := Slot(s, e);
    assert s[..k] + s[k..] == s;
    if Pairwise(s, rel) && RelatedTo(s, e, rel) {
      SpliceIn(s, k, e, rel);
    }
    if Pairwise(InsertAsc(s, e), rel) {
      SpliceOut(s, k, e, rel);
    }
  }

  lemma SpliceIn(s: seq<Edit>, k: nat, e: Edit, rel: (Edit, Edit) -> bool)
    requires k <= |s| && Pairwise(s, rel) && RelatedTo(s, e, rel)
    ensures Pairwise(s[..k] + [e] + s[k..], rel)
  {
    var t := s[..k] + [e] + s[k..];
    forall i, j | 0 <= i < j < |t|
      ensures rel(t[i], t[j]) && rel(t[j], t[i])
    {
      var a, b := if i < k then i else i - 1, if j < k then j else j - 1;
      assert i != k ==> t[i] == s[a];
      assert j != k ==> t[j] == s[b];
    }
  }

  lemma SpliceOut(s: seq<Edit>, k: nat, e: Edit, rel: (Edit, Edit) -> bool)
    requires k <= |s| && Pairwise(s[..k] + [e] + s[k..], rel)
    ensures Pairwise(s, rel) && RelatedTo(s, e, rel)
  {
    var t := s[..k] + [e] + s[k..];
    forall i, j | 0 <= i < j < |s|
      ensures rel(s[i], s[j]) && rel(s[j], s[i])
    {
      var a, b := if i < k then i else i + 1, if j < k then j else j + 1;
      assert s[i] == t[a] && s[j] == t[b];
    }
    forall i | 0 <= i < |s|
      ensures rel(s[i], e) && rel(e, s[i])
    {
      var a := if i < k then i else i + 1;
      assert s[i] == t[a] && t[k] == e;
    }
  }

  lemma {:induction false} SortAscKeeps(s: seq<Edit>)
    ensures multiset(SortAsc(s)) == multiset(s)
    ensures forall x :: x in SortAsc(s) ==> x in s
    decreases |s|
  {
    hide InsertAsc;
    if s != [] {
      var n := |s| - 1;
      SortAscKeeps(s[..n]);
      InsertAscKeeps(SortAsc(s[..n]), s[n]);
      assert s == s[..n] + [s[n]];
    }
  }

  lemma {:induction false} SortAscOrder(s: seq<Edit>)
    ensures Ascending(SortAsc(s))
    decreases |s|
  {
    if s != [] {
      SortAscOrder(s[..|s| - 1]);
      InsertAscOrder(SortAsc(s[..|s| - 1]), s[|s| - 1]);
    }
  }

  /** A relation that holds of any two of the edits does so before and after sorting. */
  lemma {:induction false} SortAscPairwise(s: seq<Edit>, rel: (Edit, Edit) -> bool)
    ensures Pairwise(SortAsc(s), rel) <==> Pairwise(s, rel)
    decreases |s|
  {
    hide InsertAsc, Pairwise, RelatedTo;
    if s == [] {
      assert Pairwise(SortAsc(s), rel) == Pairwise(s, rel);
    } else {
      var n := |s| - 1;
      SortAscPairwise(s[..n], rel);
      RelatedMembers(s[..n], s[n], rel);
      InsertAscPairwise(SortAsc(s[..n]), s[n], rel);
      PairwiseSnoc(s[..n], s[n], rel);
      assert s == s[..n] + [s[n]];
    }
  }

  lemma PairwiseSnoc(s: seq<Edit>, e: Edit, rel: (Edit, Edit) -> bool)
    ensures Pairwise(s + [e], rel) <==> Pairwise(s, rel) && RelatedTo(s, e, rel)
  {
    assert s[..|s|] + [e] + s[|s|..] == s + [e];
    if Pairwise(s, rel) && RelatedTo(s, e, rel) {
      SpliceIn(s, |s|, e, rel);
    }
    if Pairwise(s + [e], rel) {
      SpliceOut(s, |s|, e, rel);
    }
  }

  lemma RelatedMembers(s: seq<Edit>, e: Edit, rel: (Edit, Edit) -> bool)
    ensures RelatedTo(SortAsc(s), e, rel) == RelatedTo(s, e, rel)
  {
    hide SortAsc;
    SortAscMembers(s);
    assert forall i :: 0 <= i < |s| ==> s[i] in SortAsc(s);
    assert forall i :: 0 <= i < |SortAsc(s)| ==> SortAsc(s)[i] in s;
  }

  lemma SortAscMembers(s: seq<Edit>)
    ensures |SortAsc(s)| == |s| && forall x :: x in SortAsc(s) <==> x in s
  {
    SortAscKeeps(s);
    assert |multiset(SortAsc(s))| == |multiset(s)|;
    assert forall x :: x in SortAsc(s) <==> x in multiset(SortAsc(s));
    assert forall x :: x in s <==> x in multiset(s);
  }

  // ---- sorting looks at ranges only ----

  lemma {:induction false} SlotSame(s: seq<Edit>, texts: seq<string>, e: Edit, text: string)
    requires |s| == |texts|
    ensures Slot(WithTexts(s, texts), e.(text := text)) == Slot(s, e)
    decreases |s|
  {
    if s != [] {
      SlotSame(s[1..], texts[1..], e, text);
      assert WithTexts(s, texts)[1..] == WithTexts(s[1..], texts[1..]);
    }
  }

  lemma InsertWithTexts(s: seq<Edit>, texts: seq<string>, e: Edit, text: string)
    requires |s| == |texts|
    ensures |InsertAsc(s, e)| == |s| + 1
    ensures InsertAsc(WithTexts(s, texts), e.(text := text))
         == WithTexts(InsertAsc(s, e), texts[..Slot(s, e)] + [text] + texts[Slot(s, e)..])
  {
    hide InsertAsc;
    SlotSame(s, texts, e, text);
  }

  /** Other texts come out of the sorting at the places of the old ones. */
  lemma {:induction false} SortCarries(edits: seq<Edit>, texts: seq<string>) returns (sortedTexts: seq<string>)
    requires |edits| == |texts|
    ensures |sortedTexts| == |SortAsc(edits)|
    ensures SortAsc(WithTexts(edits, texts)) == WithTexts(SortAsc(edits), sortedTexts)
    decreases |edits|
  {
    hide InsertAsc, WithTexts;
    if edits == [] {
      sortedTexts := [];
      NoTexts(edits, texts);
    } else {
      var n := |edits| - 1;
      var others := SortCarries(edits[..n], texts[..n]);
      var order, k := SortAsc(edits[..n]), Slot(SortAsc(edits[..n]), edits[n]);
      sortedTexts := others[..k] + [texts[n]] + others[k..];
      InsertWithTexts(order, others, edits[n], texts[n]);
      SortWithTexts(edits, texts[..n], texts[n]);
      assert texts == texts[..n] + [texts[n]];
    }
  }

  /** Any texts of the sorted edits are those of some texts of the edits. */
  lemma {:induction false} SortReaches(edits: seq<Edit>, sortedTexts: seq<string>) returns (texts: seq<string>)
    requires |edits| == |SortAsc(edits)| == |sortedTexts|
    ensures |texts| == |edits| && SortAsc(WithTexts(edits, texts)) == WithTexts(SortAsc(edits), sortedTexts)
    decreases |edits|
  {
    hide InsertAsc, WithTexts;
    if edits == [] {
      texts := [];
      NoTexts(edits, sortedTexts);
    } else {
      var n := |edits| - 1;
      var order, k := SortAsc(edits[..n]), Slot(SortAsc(edits[..n]), edits[n]);
      SortAscMembers(edits[..n]);
      var rest := sortedTexts[..k] + sortedTexts[k + 1..];
      Spliced(sortedTexts, k);
      var others := SortReaches(edits[..n], rest);
      texts := others + [sortedTexts[k]];
      InsertWithTexts(order, rest, edits[n], sortedTexts[k]);
      SortWithTexts(edits, others, sortedTexts[k]);
    }
  }

  lemma Spliced(texts: seq<string>, k: nat)
    requires k < |texts|
    ensures var rest := texts[..k] + texts[k + 1..]; rest[..k] + [texts[k]] + rest[k..] == texts
  {
  }

  lemma NoTexts(edits: seq<Edit>, texts: seq<string>)
    requires edits == [] && texts == []
    ensures WithTexts(edits, texts) == [] && SortAsc(edits) == []
  {
  }

  lemma SortWithTexts(edits: seq<Edit>, others: seq<string>, text: string)
    requires edits != [] && |others| == |edits| - 1
    ensures
      var n := |edits| - 1;
      SortAsc(WithTexts(edits, others + [text]))
        == InsertAsc(SortAsc(WithTexts(edits[..n], others)), edits[n].(text := text))
  {
    hide InsertAsc;
    var n := |edits| - 1;
    assert WithTexts(edits, others + [text])[..n] == WithTexts(edits[..n], others);
  }
}
