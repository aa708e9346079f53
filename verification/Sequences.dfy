/** Sequences without repetition, and reversed ones. */
module Sequences {
  ghost predicate NoDup<T>(s: seq<T>) {
    forall i, j :: 0 <= i < j < |s| ==> s[i] != s[j]
  }

  lemma {:induction false} NoDupCounts<T>(s: seq<T>, x: T)
    requires NoDup(s)
    ensures multiset(s)[x] <= 1
    decreases |s|
  {
    if s != [] {
      var n := |s| - 1;
      assert s == s[..n] + [s[n]];
      NoDupCounts(s[..n], x);
      assert s[n] !in s[..n];
    }
  }

  lemma CountsNoDup<T>(s: seq<T>)
    requires forall x :: x in s ==> multiset(s)[x] <= 1
    ensures NoDup(s)
  {
    forall i, j | 0 <= i < j < |s|
      ensures s[i] != s[j]
    {
      assert s == s[..i] + [s[i]] + s[i + 1..j] + [s[j]] + s[j + 1..];
      assert multiset(s)[s[i]] <= 1;
    }
  }

  lemma NoDupConcat<T>(s: seq<T>, t: seq<T>)
    requires NoDup(s) && NoDup(t) && forall x :: x in t ==> x !in s
    ensures NoDup(s + t)
  {
    var all := s + t;
    forall i, j | 0 <= i < j < |all|
      ensures all[i] != all[j]
    {
      if i < |s| && j >= |s| {
        assert all[j] == t[j - |s|] && all[j] in t && all[i] in s;
      }
    }
  }

  lemma PermutedNoDup<T>(s: seq<T>, t: seq<T>)
    requires NoDup(s) && multiset(s) == multiset(t)
    ensures NoDup(t) && forall x :: x in s <==> x in t
  {
    forall x | x in t
      ensures multiset(t)[x] <= 1
    {
      NoDupCounts(s, x);
    }
    CountsNoDup(t);
    assert forall x :: x in s <==> x in multiset(s);
    assert forall x :: x in t <==> x in multiset(t);
  }

  function Reverse<T>(s: seq<T>): (r: seq<T>)
    ensures |r| == |s| && forall i :: 0 <= i < |s| ==> r[i] == s[|s| - 1 - i]
  {
    if s == [] then [] else Reverse(s[1..]) + [s[0]]
  }

  lemma {:induction false} ReverseConcat<T>(a: seq<T>, b: seq<T>)
    ensures Reverse(a + b) == Reverse(b) + Reverse(a)
    decreases |a|
  {
    if a == [] {
      assert a + b == b;
    } else {
      assert (a + b)[1..] == a[1..] + b;
      ReverseConcat(a[1..], b);
    }
  }

  lemma ReverseTwice<T>(s: seq<T>)
    ensures Reverse(Reverse(s)) == s
  {
  }

  lemma ReverseNone<T>(acc: seq<T>)
    ensures acc + Reverse([]) == acc + [] == acc
  {
  }

  /** Reversing around one element, and the same list read forwards, behind acc. */
  lemma ReverseAround<T>(a: seq<T>, e: T, b: seq<T>, acc: seq<T>)
    ensures acc + Reverse(b) + [e] + Reverse(a) == acc + Reverse(a + [e] + b)
    ensures acc + a + [e] + b == acc + (a + [e] + b)
  {
    hide Reverse;
    ReverseConcat(a + [e], b);
    ReverseConcat(a, [e]);
    ReverseOne(e);
    Regroup(acc, Reverse(b), [e], Reverse(a));
    Regroup(acc, a, [e], b);
  }

  lemma ReverseOne<T>(e: T)
    ensures Reverse([e]) == [e]
  {
  }

  lemma Regroup<T>(p: seq<T>, q: seq<T>, r: seq<T>, s: seq<T>)
    ensures p + q + r + s == p + (q + r + s) == p + (q + (r + s))
  {
  }
}
