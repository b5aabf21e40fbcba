/** Sequence utilities the track aggregation is built from: sums and means of
    reals, extrema, order-preserving de-duplication and order-preserving removal. */
module Sequences {

  /** Sum of a sequence of reals. */
  function Sum(xs: seq<real>): real
  {
    if |xs| == 0 then 0.0 else Sum(xs[..|xs| - 1]) + xs[|xs| - 1]
  }

  /** Arithmetic mean of a non-empty sequence (pandas' `mean()` of a column). */
  function Mean(xs: seq<real>): real
    requires |xs| > 0
  {
    Sum(xs) / |xs| as real
  }

  /** The mean of a single value is that value. */
  lemma MeanOfOne(x: real)
    ensures Mean([x]) == x
  {
    assert [x][..0] == [];
    assert Sum([x]) == x;
  }

  /** The least element of a non-empty sequence. */
  function Min(xs: seq<real>): (m: real)
    requires |xs| > 0
    ensures m in xs
    ensures forall k :: 0 <= k < |xs| ==> m <= xs[k]
  {
    if |xs| == 1 then xs[0]
    else
      var rest := Min(xs[1..]);
      assert forall k :: 1 <= k < |xs| ==> xs[k] == xs[1..][k - 1];
      if xs[0] <= rest then xs[0] else rest
  }

  /** The greatest element of a non-empty sequence. */
  function Max(xs: seq<real>): (m: real)
    requires |xs| > 0
    ensures m in xs
    ensures forall k :: 0 <= k < |xs| ==> xs[k] <= m
  {
    if |xs| == 1 then xs[0]
    else
      var rest := Max(xs[1..]);
      assert forall k :: 1 <= k < |xs| ==> xs[k] == xs[1..][k - 1];
      if rest <= xs[0] then xs[0] else rest
  }

  /** A sum of n values that all lie in [lo, hi] lies in [n * lo, n * hi]. */
  lemma {:induction false} SumBounds(xs: seq<real>, lo: real, hi: real)
    requires forall k :: 0 <= k < |xs| ==> lo <= xs[k] <= hi
    ensures |xs| as real * lo <= Sum(xs) <= |xs| as real * hi
  {
    if |xs| > 0 {
      var init := xs[..|xs| - 1];
      assert forall k :: 0 <= k < |init| ==> init[k] == xs[k];
      SumBounds(init, lo, hi);
      assert |xs| as real * lo == |init| as real * lo + lo;
      assert |xs| as real * hi == |init| as real * hi + hi;
    }
  }

  /** A mean of values that all lie in [lo, hi] lies in [lo, hi]. */
  lemma MeanBounds(xs: seq<real>, lo: real, hi: real)
    requires |xs| > 0
    requires forall k :: 0 <= k < |xs| ==> lo <= xs[k] <= hi
    ensures lo <= Mean(xs) <= hi
  {
    SumBounds(xs, lo, hi);
    var n := |xs| as real;
    assert Mean(xs) * n == Sum(xs);
  }

  /** A mean lies between the least and the greatest element it averages. */
  lemma MeanBetweenMinMax(xs: seq<real>)
    requires |xs| > 0
    ensures Min(xs) <= Mean(xs) <= Max(xs)
  {
    MeanBounds(xs, Min(xs), Max(xs));
  }

  /** A non-empty sequence contains its first element. `AllInsideNothingOff`
      uses it to conclude that no cycle is off the transect. */
  lemma HeadIsMember(s: seq<int>)
    ensures |s| > 0 ==> s[0] in s
  {
  }

  predicate NoDuplicates(xs: seq<int>)
  {
    forall i, j :: 0 <= i < j < |xs| ==> xs[i] != xs[j]
  }

  /** Position of the first occurrence of `x` in `xs`. */
  function FirstIndex(xs: seq<int>, x: int): (i: nat)
    requires x in xs
    ensures i < |xs| && xs[i] == x
    ensures x !in xs[..i]
  {
    var init := xs[..|xs| - 1];
    assert xs == init + [xs[|xs| - 1]];
    if x in init then
      var i := FirstIndex(init, x);
      assert xs[..i] == init[..i];
      i
    else
      |xs| - 1
  }

  /** Every element of `r` occurs in `xs`, and `r` lists them in the order of
      their first appearance in `xs`. */
  predicate InFirstAppearanceOrder(r: seq<int>, xs: seq<int>)
  {
    && (forall i :: 0 <= i < |r| ==> r[i] in xs)
    && (forall i, j :: 0 <= i < j < |r| ==>
          r[i] in xs && r[j] in xs && FirstIndex(xs, r[i]) < FirstIndex(xs, r[j]))
  }

  /** The distinct elements of `xs` in first-appearance order: numpy/pandas `unique()`. */
  function Distinct(xs: seq<int>): (r: seq<int>)
    ensures NoDuplicates(r)
    ensures forall x :: x in r <==> x in xs
    ensures |r| <= |xs|
  {
    if |xs| == 0 then []
    else
      var init := xs[..|xs| - 1];
      assert xs == init + [xs[|xs| - 1]];
      var d := Distinct(init);
      if xs[|xs| - 1] in d then d else d + [xs[|xs| - 1]]
  }

  /** The elements of `r` that are not in `out`, in their order in `r`
      (`r[np.isin(r, out) == False]`). */
  function Without(r: seq<int>, out: set<int>): (s: seq<int>)
    ensures forall x :: x in s <==> x in r && x !in out
    ensures |s| <= |r|
  {
    if |r| == 0 then []
    else
      var init := r[..|r| - 1];
      assert r == init + [r[|r| - 1]];
      var w := Without(init, out);
      if r[|r| - 1] in out then w else w + [r[|r| - 1]]
  }

  /** Once `r` lists elements of `xs` in first-appearance order, it has no duplicates. */
  lemma OrderedHasNoDuplicates(r: seq<int>, xs: seq<int>)
    requires InFirstAppearanceOrder(r, xs)
    ensures NoDuplicates(r)
  {
    forall i, j | 0 <= i < j < |r|
      ensures r[i] != r[j]
    {
      assert FirstIndex(xs, r[i]) < FirstIndex(xs, r[j]);
    }
  }

  /** Appending an element whose first appearance comes after those of all the
      listed elements keeps first-appearance order. */
  lemma AppendKeepsOrder(r: seq<int>, x: int, xs: seq<int>)
    requires InFirstAppearanceOrder(r, xs)
    requires x in xs
    requires forall y :: y in r ==> y in xs && FirstIndex(xs, y) < FirstIndex(xs, x)
    ensures InFirstAppearanceOrder(r + [x], xs)
  {
    var s := r + [x];
    forall i, j | 0 <= i < j < |s|
      ensures s[i] in xs && s[j] in xs && FirstIndex(xs, s[i]) < FirstIndex(xs, s[j])
    {
      assert s[i] == r[i] && s[i] in r;
      if j < |r| {
        assert s[j] == r[j];
      }
    }
  }

  /** `Distinct` keeps the first-appearance order of `xs`. */
  lemma {:induction false} DistinctOrder(xs: seq<int>)
    ensures InFirstAppearanceOrder(Distinct(xs), xs)
  {
    if |xs| > 0 {
      var n := |xs|;
      var init := xs[..n - 1];
      assert xs == init + [xs[n - 1]];
      var d := Distinct(init);
      DistinctOrder(init);
      forall y | y in init
        ensures FirstIndex(xs, y) == FirstIndex(init, y)
      {
      }
      assert InFirstAppearanceOrder(d, xs);
      if xs[n - 1] !in d {
        assert FirstIndex(xs, xs[n - 1]) == n - 1;
        AppendKeepsOrder(d, xs[n - 1], xs);
      }
    }
  }

  /** Removing elements keeps the first-appearance order of what remains. */
  lemma {:induction false} WithoutKeepsOrder(r: seq<int>, out: set<int>, xs: seq<int>)
    requires InFirstAppearanceOrder(r, xs)
    ensures InFirstAppearanceOrder(Without(r, out), xs)
  {
    if |r| > 0 {
      var n := |r|;
      var init := r[..n - 1];
      assert r == init + [r[n - 1]];
      assert InFirstAppearanceOrder(init, xs);
      WithoutKeepsOrder(init, out, xs);
      var w := Without(init, out);
      if r[n - 1] !in out {
        forall y | y in w
          ensures y in xs && FirstIndex(xs, y) < FirstIndex(xs, r[n - 1])
        {
          var k :| 0 <= k < |init| && init[k] == y;
          assert r[k] == y;
        }
        AppendKeepsOrder(w, r[n - 1], xs);
      }
    }
  }

  /** On a non-decreasing sequence, first-appearance order is strictly ascending
      numeric order. */
  lemma OrderedOfSortedIsAscending(r: seq<int>, xs: seq<int>)
    requires forall i, j :: 0 <= i <= j < |xs| ==> xs[i] <= xs[j]
    requires InFirstAppearanceOrder(r, xs)
    ensures forall i, j :: 0 <= i < j < |r| ==> r[i] < r[j]
  {
    OrderedHasNoDuplicates(r, xs);
    forall i, j | 0 <= i < j < |r|
      ensures r[i] < r[j]
    {
      var a, b := FirstIndex(xs, r[i]), FirstIndex(xs, r[j]);
      assert xs[a] <= xs[b];
      assert r[i] != r[j];
    }
  }
}
