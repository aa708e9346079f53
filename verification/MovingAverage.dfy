/** The simple moving average twice: the running window of TaLib.sma in
    src/services/pine_worker_sandbox.py and the plain one of src/ta/moving_averages.py. */
module MovingAverage {
  import opened Options

  /** A missing value stands for NaN. */
  type Series = seq<Option<real>>

  /** The sum of the values present. */
  function SumPresent(w: Series): real {
    if w == [] then 0.0
    else
      var n := |w| - 1;
      SumPresent(w[..n]) + if w[n].Some? then w[n].value else 0.0
  }

  function CountMissing(w: Series): nat {
    if w == [] then 0
    else
      var n := |w| - 1;
      CountMissing(w[..n]) + if w[n].Some? then 0 else 1
  }

  /** The average of a window, missing as soon as one value is. */
  ghost function Average(w: Series): Option<real>
    requires w != []
  {
    if None in w then None else Some(SumPresent(w) / |w| as real)
  }

  /** The moving average at index i: missing while the window is not full. */
  ghost function At(source: Series, length: nat, i: nat): Option<real>
    requires length >= 1 && i < |source|
  {
    if i + 1 < length then None else Average(source[i + 1 - length..i + 1])
  }

  ghost predicate IsAverage(source: Series, length: nat, result: Series) {
    length >= 1 && |result| == |source| && forall i :: 0 <= i < |source| ==> result[i] == At(source, length, i)
  }

  lemma {:induction false} NoneMissing(w: Series)
    ensures CountMissing(w) == 0 <==> None !in w
    decreases |w|
  {
    if w != [] {
      NoneMissing(w[..|w| - 1]);
      assert w == w[..|w| - 1] + [w[|w| - 1]];
    }
  }

  /** The window loses its first value. */
  lemma {:induction false} DropFirst(w: Series)
    requires w != []
    ensures SumPresent(w) == (if w[0].Some? then w[0].value else 0.0) + SumPresent(w[1..])
    ensures CountMissing(w) == (if w[0].Some? then 0 else 1) + CountMissing(w[1..])
    decreases |w|
  {
    var n := |w| - 1;
    if n > 0 {
      DropFirst(w[..n]);
      assert w[1..][..n - 1] == w[..n][1..];
    }
  }

  /** Sliding the window by one. */
  lemma Slide(source: Series, from: nat, to: nat)
    requires from < to < |source|
    ensures var w, v := source[from..to], source[from + 1..to + 1];
      && SumPresent(v) == SumPresent(w) - (if source[from].Some? then source[from].value else 0.0)
                          + (if source[to].Some? then source[to].value else 0.0)
      && CountMissing(v)
           == CountMissing(w) - (if source[from].Some? then 0 else 1) + (if source[to].Some? then 0 else 1)
  {
    DropFirst(source[from..to]);
    assert source[from..to][1..] == source[from + 1..to];
    assert source[from + 1..to + 1][..to - from - 1] == source[from + 1..to];
  }

  /** What the two counters know about a window. */
  ghost predicate Tracks(w: Series, sum: real, missing: nat) {
    sum == SumPresent(w) && missing == CountMissing(w)
  }

  lemma TracksAverage(source: Series, len: nat, i: nat, sum: real, missing: nat)
    requires 1 <= len <= i + 1 <= |source| && Tracks(source[i + 1 - len..i + 1], sum, missing)
    ensures At(source, len, i) == Current(sum, missing, len)
  {
    NoneMissing(source[i + 1 - len..i + 1]);
  }

  function Current(sum: real, missing: nat, len: nat): Option<real>
    requires len >= 1
  {
    if missing == 0 then Some(sum / len as real) else None
  }

  lemma AtEarly(source: Series, len: nat)
    requires 1 <= len
    ensures forall i :: 0 <= i < |source| && i + 1 < len ==> At(source, len, i) == None
  {}

  /** The entries up to the first full window. */
  lemma FirstAverages(source: Series, len: nat, res: Series, sum: real, missing: nat)
    requires 1 <= len <= |source| == |res| && Tracks(source[0..len], sum, missing)
    requires forall j :: 0 <= j < |res| ==> res[j] == None
    ensures forall j :: 0 <= j < len ==> res[len - 1 := Current(sum, missing, len)][j] == At(source, len, j)
  {
    hide Tracks, Current, Average;
    var i := len - 1;
    assert source[i + 1 - len..i + 1] == source[0..len];
    TracksAverage(source, len, i, sum, missing);
    AtEarly(source, len);
  }

  lemma ShortSource(source: Series, len: nat)
    requires len > |source|
    ensures IsAverage(source, len, AllMissing(|source|))
  {
    AtEarly(source, len);
  }

  function Window(length: int): (r: nat)
    ensures r >= 1 && r >= length && (r == 1 || r == length)
  {
    if length < 1 then 1 else length
  }

  function AllMissing(n: nat): (r: Series)
    ensures |r| == n && forall i :: 0 <= i < n ==> r[i] == None
  {
    seq(n, i => None)
  }

  /** TaLib.sma: one pass with a running sum and a count of missing values. A length below one is
      read as one. */
  method RunningSma(source: Series, length: int) returns (res: Series)
    ensures IsAverage(source, Window(length), res)
  {
    hide Tracks, Average, At, Current, IsAverage;
    var len := Window(length);
    var n := |source|;
    res := AllMissing(n);
    if len > n {
      ShortSource(source, len);
      return;
    }
    var sum, missing := FirstWindow(source, len);
    FirstAverages(source, len, res, sum, missing);
    res := res[len - 1 := Current(sum, missing, len)];
    res := SlideAll(source, len, res, sum, missing);
  }

  method SlideAll(source: Series, len: nat, first: Series, firstSum: real, firstMissing: nat) returns (res: Series)
    requires 1 <= len <= |source| == |first| && Tracks(source[0..len], firstSum, firstMissing)
    requires forall j :: 0 <= j < len ==> first[j] == At(source, len, j)
    ensures IsAverage(source, len, res)
  {
    hide Tracks, At, Current;
    res := first;
    var sum, missing := firstSum, firstMissing;
    for i := len to |source|
      invariant |res| == |source| && Tracks(source[i - len..i], sum, missing)
      invariant forall j :: 0 <= j < i ==> res[j] == At(source, len, j)
    {
      sum, missing := SlideOn(source, len, i, sum, missing);
      TracksAverage(source, len, i, sum, missing);
      res := res[i := Current(sum, missing, len)];
    }
  }

  method FirstWindow(source: Series, len: nat) returns (sum: real, missing: nat)
    requires len <= |source|
    ensures Tracks(source[0..len], sum, missing)
  {
    sum, missing := 0.0, 0;
    for i := 0 to len
      invariant Tracks(source[..i], sum, missing)
    {
      assert source[..i + 1][..i] == source[..i];
      if source[i].None? {
        missing := missing + 1;
      } else {
        sum := sum + source[i].value;
      }
    }
    assert source[0..len] == source[..len];
  }

  /** The window moves on to include index i. */
  method SlideOn(source: Series, len: nat, i: nat, oldSum: real, oldMissing: nat) returns (sum: real, missing: nat)
    requires 1 <= len <= i < |source| && Tracks(source[i - len..i], oldSum, oldMissing)
    ensures Tracks(source[i + 1 - len..i + 1], sum, missing)
  {
    Slide(source, i - len, i);
    sum := oldSum;
    var count: int := oldMissing;
    if source[i - len].None? {
      count := count - 1;
    } else {
      sum := sum - source[i - len].value;
    }
    if source[i].None? {
      count := count + 1;
    } else {
      sum := sum + source[i].value;
    }
    missing := count;
  }

  /** sma of moving_averages: each window summed afresh; None for the ValueError of a length below
      one. */
  method PlainSma(source: Series, length: int) returns (res: Option<Series>)
    ensures res.Some? == (length >= 1)
    ensures res.Some? ==> IsAverage(source, length, res.value)
  {
    if length < 1 {
      return None;
    }
    var len: nat := length;
    var n := |source|;
    var out := AllMissing(n);
    if n < len {
      return Some(out);
    }
    for i := len - 1 to n
      invariant |out| == n
      invariant forall j :: 0 <= j < i ==> out[j] == At(source, len, j)
      invariant forall j :: i <= j < n ==> out[j] == None
    {
      var average := WindowAverage(source[i + 1 - len..i + 1]);
      out := out[i := average];
    }
    res := Some(out);
  }

  /** sum(window) / length; a sum with a NaN in it is NaN. */
  method WindowAverage(w: Series) returns (r: Option<real>)
    requires w != []
    ensures r == Average(w)
  {
    var sum: Option<real> := Some(0.0);
    for i := 0 to |w|
      invariant sum == if None in w[..i] then None else Some(SumPresent(w[..i]))
    {
      assert w[..i + 1][..i] == w[..i];
      assert None in w[..i + 1] <==> None in w[..i] || w[i] == None;
      sum := if sum.None? || w[i].None? then None else Some(sum.value + w[i].value);
    }
    assert w[..|w|] == w;
    r := if sum.None? then None else Some(sum.value / |w| as real);
  }
}
