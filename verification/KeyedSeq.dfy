/** Strictly sorted sequences of (key, value) pairs, and the maps they stand for. */
module KeyedSeq {

  type Entry = (real, real)

  predicate Sorted(s: seq<Entry>) {
    forall i, j :: 0 <= i < j < |s| ==> s[i].0 < s[j].0
  }

  predicate AllBelow(s: seq<Entry>, k: real) {
    forall i :: 0 <= i < |s| ==> s[i].0 < k
  }

  predicate AllAbove(s: seq<Entry>, k: real) {
    forall i :: 0 <= i < |s| ==> k < s[i].0
  }

  function ToMap(s: seq<Entry>): map<real, real> {
    if s == [] then map[] else ToMap(s[..|s|-1])[s[|s|-1].0 := s[|s|-1].1]
  }

  lemma {:induction false} ToMapConcat(a: seq<Entry>, b: seq<Entry>)
    ensures ToMap(a + b) == ToMap(a) + ToMap(b)
    decreases |b|
  {
    if b == [] {
      assert a + b == a;
    } else {
      assert (a + b)[..|a + b| - 1] == a + b[..|b|-1];
      ToMapConcat(a, b[..|b|-1]);
    }
  }

  lemma {:induction false} ToMapKeys(s: seq<Entry>, k: real)
    ensures k in ToMap(s) <==> exists i :: 0 <= i < |s| && s[i].0 == k
    decreases |s|
  {
    if s != [] {
      ToMapKeys(s[..|s|-1], k);
      if k == s[|s|-1].0 {
      } else if k in ToMap(s) {
        var i :| 0 <= i < |s| - 1 && s[..|s|-1][i].0 == k;
        assert s[i].0 == k;
      } else {
        assert forall i :: 0 <= i < |s| - 1 ==> s[i] == s[..|s|-1][i];
      }
    }
  }

  lemma {:induction false} ToMapAt(s: seq<Entry>, i: nat)
    requires Sorted(s) && i < |s|
    ensures s[i].0 in ToMap(s) && ToMap(s)[s[i].0] == s[i].1
    decreases |s|
  {
    if i < |s| - 1 {
      ToMapAt(s[..|s|-1], i);
    }
  }

  /** A new key between its neighbours extends the map by that key. */
  lemma InsertEntry(a: seq<Entry>, k: real, v: real, b: seq<Entry>)
    requires Sorted(a + b) && AllBelow(a, k) && AllAbove(b, k)
    ensures Sorted(a + [(k, v)] + b)
    ensures k !in ToMap(a + b) && ToMap(a + [(k, v)] + b) == ToMap(a + b)[k := v]
  {
    InsertSorted(a, k, v, b);
    hide Sorted;
    ToMapConcat(a, b);
    ToMapConcat(a + [(k, v)], b);
    ToMapConcat(a, [(k, v)]);
    ToMapKeys(b, k);
    ToMapKeys(a, k);
    assert ToMap([(k, v)]) == map[k := v];
  }

  lemma InsertSorted(a: seq<Entry>, k: real, v: real, b: seq<Entry>)
    requires Sorted(a + b) && AllBelow(a, k) && AllAbove(b, k)
    ensures Sorted(a + [(k, v)] + b)
  {
    var s, ab := a + [(k, v)] + b, a + b;
    forall i, j | 0 <= i < j < |s|
      ensures s[i].0 < s[j].0
    {
      assert i < |a| ==> s[i] == ab[i];
      assert i > |a| ==> s[i] == ab[i - 1];
      assert j < |a| ==> s[j] == ab[j];
      assert j > |a| ==> s[j] == ab[j - 1];
    }
  }

  lemma ReplaceEntry(a: seq<Entry>, k: real, v: real, v': real, b: seq<Entry>)
    requires Sorted(a + [(k, v)] + b)
    ensures Sorted(a + [(k, v')] + b)
    ensures k in ToMap(a + [(k, v)] + b) && ToMap(a + [(k, v')] + b) == ToMap(a + [(k, v)] + b)[k := v']
  {
    RemoveEntry(a, k, v, b);
    InsertEntry(a, k, v, b);
    InsertEntry(a, k, v', b);
  }

  lemma RemoveEntry(a: seq<Entry>, k: real, v: real, b: seq<Entry>)
    requires Sorted(a + [(k, v)] + b)
    ensures Sorted(a + b) && AllBelow(a, k) && AllAbove(b, k)
    ensures k in ToMap(a + [(k, v)] + b) && ToMap(a + b) == ToMap(a + [(k, v)] + b) - {k}
  {
    var s, ab := a + [(k, v)] + b, a + b;
    assert s[|a|] == (k, v);
    forall i, j | 0 <= i < j < |ab|
      ensures ab[i].0 < ab[j].0
    {
      assert ab[i] == s[if i < |a| then i else i + 1];
      assert ab[j] == s[if j < |a| then j else j + 1];
    }
    forall i | 0 <= i < |a|
      ensures a[i].0 < k
    {
      assert a[i] == s[i];
    }
    forall i | 0 <= i < |b|
      ensures k < b[i].0
    {
      assert b[i] == s[|a| + 1 + i];
    }
    InsertEntry(a, k, v, b);
  }

  /** A sorted sequence is determined by its map. */
  lemma {:induction false} SortedUnique(a: seq<Entry>, b: seq<Entry>)
    requires Sorted(a) && Sorted(b) && ToMap(a) == ToMap(b)
    ensures a == b
    decreases |a|
  {
    if a == [] {
      if b != [] { ToMapAt(b, |b| - 1); }
    } else {
      ToMapAt(a, |a| - 1);
      ToMapKeys(b, a[|a|-1].0);
      ToMapAt(b, |b| - 1);
      ToMapKeys(a, b[|b|-1].0);
      ToMapAt(b, |b| - 1);
      var a', b' := a[..|a|-1], b[..|b|-1];
      assert a == a' + [a[|a|-1]] + [] && b == b' + [b[|b|-1]] + [];
      RemoveEntry(a', a[|a|-1].0, a[|a|-1].1, []);
      RemoveEntry(b', b[|b|-1].0, b[|b|-1].1, []);
      assert a' + [] == a' && b' + [] == b';
      SortedUnique(a', b');
    }
  }
}
