/**
 * The two-sample Kolmogorov-Smirnov statistic: the largest distance between
 * the two empirical distribution functions, evaluated at every pooled value.
 */
module Ks {
  import opened Wrappers
  import opened Sorting

  /** The `ValueError` raised for an empty sample. */
  datatype KsError = EmptySample

  function Abs(x: real): real { if x < 0.0 then -x else x }

  /**
   * `np.searchsorted(sorted, x, side="right")`: the position after the last
   * value that is at most `x`, found by walking the sorted prefix.
   */
  function SearchSortedRight(sorted: seq<real>, x: real): (i: nat)
    ensures i <= |sorted|
    ensures forall k :: 0 <= k < i ==> sorted[k] <= x
    ensures i < |sorted| ==> x < sorted[i]
  {
    if sorted == [] || x < sorted[0] then 0 else 1 + SearchSortedRight(sorted[1..], x)
  }

  /** On a sorted sample the right insertion point is the number of values at most `x`. */
  lemma {:induction false} SearchSortedRightCounts(sorted: seq<real>, x: real)
    requires Sorted(sorted)
    ensures SearchSortedRight(sorted, x) == CountAtMost(sorted, x)
  {
    if sorted != [] {
      SearchSortedRightCounts(sorted[1..], x);
      if x < sorted[0] {
        CountAtMostNone(sorted, x);
      }
    }
  }

  lemma FractionBounds(c: nat, n: nat)
    requires 0 < n && c <= n
    ensures 0.0 <= c as real / n as real <= 1.0
  {
    var q := c as real / n as real;
    assert q * n as real == c as real;
  }

  /** The empirical distribution function of a sorted sample at `x`. */
  function Ecdf(sorted: seq<real>, x: real): (f: real)
    requires |sorted| > 0
    ensures 0.0 <= f <= 1.0
  {
    FractionBounds(SearchSortedRight(sorted, x), |sorted|);
    SearchSortedRight(sorted, x) as real / |sorted| as real
  }

  /** The distance between the two distribution functions at `x`. */
  function Gap(ref: seq<real>, prod: seq<real>, x: real): (g: real)
    requires |ref| > 0 && |prod| > 0
    ensures 0.0 <= g <= 1.0
  {
    Abs(Ecdf(ref, x) - Ecdf(prod, x))
  }

  /** `np.max` of the distances at the given points. */
  function MaxGap(ref: seq<real>, prod: seq<real>, points: seq<real>): (m: real)
    requires |ref| > 0 && |prod| > 0 && |points| > 0
    ensures forall k :: 0 <= k < |points| ==> Gap(ref, prod, points[k]) <= m
    ensures exists k :: 0 <= k < |points| && m == Gap(ref, prod, points[k])
  {
    if |points| == 1 then Gap(ref, prod, points[0])
    else
      var rest := MaxGap(ref, prod, points[1..]);
      var here := Gap(ref, prod, points[0]);
      assert forall k :: 1 <= k < |points| ==> points[k] == points[1..][k - 1];
      if here < rest then rest else here
  }

  /** `kolmogorov_smirnov_stat(reference, production)`. */
  function Ks(reference: seq<real>, production: seq<real>): (r: Result<real, KsError>)
    ensures r.Failure? <==> |reference| == 0 || |production| == 0
    ensures r.Success? ==> 0.0 <= r.value <= 1.0
  {
    var ref := Sort(reference);
    var prod := Sort(production);
    if |ref| == 0 || |prod| == 0 then Failure(EmptySample)
    else Success(MaxGap(ref, prod, ref + prod))
  }

  /** Two maxima over the same points of the same distances are equal. */
  lemma MaxGapAgree(ref1: seq<real>, prod1: seq<real>, points1: seq<real>,
                    ref2: seq<real>, prod2: seq<real>, points2: seq<real>)
    requires |ref1| > 0 && |prod1| > 0 && |points1| > 0
    requires |ref2| > 0 && |prod2| > 0 && |points2| > 0
    requires forall x :: x in points1 <==> x in points2
    requires forall x :: x in points1 ==> Gap(ref1, prod1, x) == Gap(ref2, prod2, x)
    ensures MaxGap(ref1, prod1, points1) == MaxGap(ref2, prod2, points2)
  {
    var m1, m2 := MaxGap(ref1, prod1, points1), MaxGap(ref2, prod2, points2);
    var k1 :| 0 <= k1 < |points1| && m1 == Gap(ref1, prod1, points1[k1]);
    var k2 :| 0 <= k2 < |points2| && m2 == Gap(ref2, prod2, points2[k2]);
    assert points1[k1] in points2;
    var j2 :| 0 <= j2 < |points2| && points2[j2] == points1[k1];
    assert points2[k2] in points1;
    var j1 :| 0 <= j1 < |points1| && points1[j1] == points2[k2];
  }

  /** Swapping the samples does not change the statistic. */
  lemma KsSymmetric(a: seq<real>, b: seq<real>)
    ensures Ks(a, b) == Ks(b, a)
  {
    if |a| > 0 && |b| > 0 {
      var sa, sb := Sort(a), Sort(b);
      MaxGapAgree(sa, sb, sa + sb, sb, sa, sb + sa);
    }
  }

  /** The statistic depends only on the multisets of values, not on their order. */
  lemma KsPermutationInvariant(a: seq<real>, a': seq<real>, b: seq<real>, b': seq<real>)
    requires multiset(a) == multiset(a') && multiset(b) == multiset(b')
    ensures Ks(a, b) == Ks(a', b')
  {
    var sa, sa', sb, sb' := Sort(a), Sort(a'), Sort(b), Sort(b');
    assert |a| == |multiset(a)| == |a'| && |b| == |multiset(b)| == |b'|;
    if |a| > 0 && |b| > 0 {
      forall x | x in sa + sb ensures Gap(sa, sb, x) == Gap(sa', sb', x) {
        SearchSortedRightCounts(sa, x);
        SearchSortedRightCounts(sa', x);
        SearchSortedRightCounts(sb, x);
        SearchSortedRightCounts(sb', x);
        CountAtMostPermutation(sa, sa', x);
        CountAtMostPermutation(sb, sb', x);
      }
      forall x ensures x in sa + sb <==> x in sa' + sb' {
        assert x in sa <==> x in multiset(sa);
        assert x in sa' <==> x in multiset(sa');
        assert x in sb <==> x in multiset(sb);
        assert x in sb' <==> x in multiset(sb');
      }
      MaxGapAgree(sa, sb, sa + sb, sa', sb', sa' + sb');
    }
  }

  /** A sample compared with itself has statistic 0. */
  lemma KsOfIdenticalSamples(a: seq<real>)
    requires |a| > 0
    ensures Ks(a, a) == Success(0.0)
  {
    var sa := Sort(a);
    var m := MaxGap(sa, sa, sa + sa);
    var k :| 0 <= k < |sa + sa| && m == Gap(sa, sa, (sa + sa)[k]);
  }

  /** At its own largest value a sorted sample's distribution function is 1. */
  lemma EcdfAtMaximum(sorted: seq<real>)
    requires Sorted(sorted) && |sorted| > 0
    ensures Ecdf(sorted, sorted[|sorted| - 1]) == 1.0
  {
    var x := sorted[|sorted| - 1];
    SearchSortedRightCounts(sorted, x);
    CountAtMostAll(sorted, x);
    var n := |sorted| as real;
    assert n / n == 1.0;
  }

  /** Below every value of a sample its distribution function is 0. */
  lemma EcdfBelowMinimum(sorted: seq<real>, x: real)
    requires Sorted(sorted) && |sorted| > 0
    requires forall k :: 0 <= k < |sorted| ==> x < sorted[k]
    ensures Ecdf(sorted, x) == 0.0
  {
    SearchSortedRightCounts(sorted, x);
    CountAtMostNone(sorted, x);
  }

  lemma BelowAll(a: seq<real>, b: seq<real>, sb: seq<real>, x: real)
    requires x in multiset(a) && multiset(sb) == multiset(b)
    requires forall i, j :: 0 <= i < |a| && 0 <= j < |b| ==> a[i] < b[j]
    ensures forall k :: 0 <= k < |sb| ==> x < sb[k]
  {
    var i :| 0 <= i < |a| && a[i] == x;
    forall k | 0 <= k < |sb| ensures x < sb[k] {
      assert sb[k] in multiset(b);
      var j :| 0 <= j < |b| && b[j] == sb[k];
      assert a[i] < b[j];
    }
  }

  /** When every reference value lies below every production value the statistic is 1. */
  lemma KsOfSeparatedSamples(a: seq<real>, b: seq<real>)
    requires |a| > 0 && |b| > 0
    requires forall i, j :: 0 <= i < |a| && 0 <= j < |b| ==> a[i] < b[j]
    ensures Ks(a, b) == Success(1.0)
  {
    var sa, sb := Sort(a), Sort(b);
    var x := sa[|sa| - 1];
    assert x in multiset(a) by { assert x in multiset(sa); }
    BelowAll(a, b, sb, x);
    EcdfAtMaximum(sa);
    EcdfBelowMinimum(sb, x);
    KsReachesOne(a, b, |sa| - 1);
  }

  /** A pooled point where one distribution function is 1 and the other 0 gives the statistic 1. */
  lemma KsReachesOne(a: seq<real>, b: seq<real>, k: nat)
    requires k < |a| && |b| > 0
    requires Ecdf(Sort(a), Sort(a)[k]) == 1.0 && Ecdf(Sort(b), Sort(a)[k]) == 0.0
    ensures Ks(a, b) == Success(1.0)
  {
    var sa, sb := Sort(a), Sort(b);
    var points := sa + sb;
    assert points[k] == sa[k];
    MaxGapReachesOne(sa, sb, points, k);
  }

  /** A point where the distance is 1 makes the maximum 1. */
  lemma MaxGapReachesOne(ref: seq<real>, prod: seq<real>, points: seq<real>, k: nat)
    requires |ref| > 0 && |prod| > 0 && k < |points|
    requires Ecdf(ref, points[k]) == 1.0 && Ecdf(prod, points[k]) == 0.0
    ensures MaxGap(ref, prod, points) == 1.0
  {
    var m := MaxGap(ref, prod, points);
    assert Gap(ref, prod, points[k]) == 1.0;
    var j :| 0 <= j < |points| && m == Gap(ref, prod, points[j]);
  }
}
