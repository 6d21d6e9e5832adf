/**
 * The Population Stability Index of a production sample against a reference
 * sample, binned on the reference sample's quantiles (numpy semantics, exact
 * rational arithmetic).
 */
module Psi {
  import opened Wrappers
  import opened Sorting

  /** The two `ValueError`s the computation can raise. */
  datatype PsiError =
    | EmptySample       // a sample with no values
    | NegativeBinCount  // `np.linspace` refuses `bins + 1 < 0` points

  /**
   * The natural logarithm is not computed: the model takes it as a parameter
   * and lemmas require only that it maps 1 to 0 and is strictly increasing on the
   * positive reals.
   */
  ghost predicate IsLogarithm(ln: real -> real) {
    && ln(1.0) == 0.0
    && forall x: real, y: real :: 0.0 < x < y ==> ln(x) < ln(y)
  }

  predicate StrictlyIncreasing(s: seq<real>) { forall i, j :: 0 <= i < j < |s| ==> s[i] < s[j] }

  function Max(a: real, b: real): real { if a < b then b else a }

  function Sum(s: seq<nat>): nat {
    if s == [] then 0 else s[0] + Sum(s[1..])
  }

  // ---------------------------------------------------------------- quantiles

  /** `np.linspace(0, 1, bins + 1)` in exact arithmetic: the levels i / bins. */
  function Levels(bins: int): (qs: seq<real>)
    requires bins >= -1
    ensures |qs| == bins + 1
    ensures forall i :: 0 <= i < |qs| ==> 0.0 <= qs[i] <= 1.0
    ensures forall i, j :: 0 <= i <= j < |qs| ==> qs[i] <= qs[j]
    ensures bins >= 1 ==> qs[0] == 0.0 && qs[bins] == 1.0
    ensures bins >= 1 ==> forall i :: 0 <= i < |qs| ==> qs[i] * bins as real == i as real
  {
    if bins < 1 then (if bins == 0 then [0.0] else [])
    else
      var qs := seq(bins + 1, i requires 0 <= i <= bins => Level(i, bins));
      forall i, j | 0 <= i <= j < |qs| ensures 0.0 <= qs[i] <= qs[j] <= 1.0 {
        LevelMonotone(i, j, bins);
      }
      qs
  }

  function Level(i: nat, bins: nat): (q: real)
    requires bins >= 1
    ensures i == 0 ==> q == 0.0
    ensures i == bins ==> q == 1.0
    ensures q * bins as real == i as real
  {
    DivSelf(bins as real);
    i as real / bins as real
  }

  lemma DivSelf(d: real)
    requires d > 0.0
    ensures d / d == 1.0
  {
  }

  lemma LevelMonotone(i: nat, j: nat, bins: nat)
    requires i <= j <= bins && bins >= 1
    ensures 0.0 <= Level(i, bins) <= Level(j, bins) <= 1.0
  {
    DivMonotone(i as real, j as real, bins as real);
    DivMonotone(j as real, bins as real, bins as real);
  }

  lemma MulNonNegative(a: real, b: real)
    requires a >= 0.0 && b >= 0.0
    ensures a * b >= 0.0
  {
  }

  lemma MulPositive(a: real, b: real)
    requires a > 0.0 && b > 0.0
    ensures a * b > 0.0
  {
  }

  lemma DivMonotone(a: real, b: real, d: real)
    requires 0.0 <= a <= b && d > 0.0
    ensures 0.0 <= a / d <= b / d
  {
    var x, y := a / d, b / d;
    assert x * d == a && y * d == b;
    if x < 0.0 {
      MulPositive(-x, d);
    }
    if x > y {
      MulPositive(x - y, d);
    }
  }

  /** The index after `lo`, clipped to the last index (numpy's `next` index). */
  function NextIndex(lo: int, n: nat): int { if lo + 1 < n then lo + 1 else lo }

  /** Linear interpolation at the virtual index `h` of a sorted sample. */
  function Interpolate(xs: seq<real>, h: real): (v: real)
    requires Sorted(xs) && |xs| > 0 && 0.0 <= h <= (|xs| - 1) as real
    ensures 0 <= h.Floor < |xs|
    ensures xs[h.Floor] <= v <= xs[NextIndex(h.Floor, |xs|)]
  {
    var lo := h.Floor;
    var hi := NextIndex(lo, |xs|);
    var gamma := h - lo as real;
    assert 0.0 <= gamma < 1.0;
    MulNonNegative(gamma, xs[hi] - xs[lo]);
    MulNonNegative(1.0 - gamma, xs[hi] - xs[lo]);
    assert (1.0 - gamma) * (xs[hi] - xs[lo]) == (xs[hi] - xs[lo]) - gamma * (xs[hi] - xs[lo]);
    xs[lo] + gamma * (xs[hi] - xs[lo])
  }

  lemma InterpolateMonotone(xs: seq<real>, h1: real, h2: real)
    requires Sorted(xs) && |xs| > 0 && 0.0 <= h1 <= h2 <= (|xs| - 1) as real
    ensures Interpolate(xs, h1) <= Interpolate(xs, h2)
  {
    var lo1, lo2 := h1.Floor, h2.Floor;
    if lo1 == lo2 {
      var d := xs[NextIndex(lo1, |xs|)] - xs[lo1];
      MulNonNegative(h2 - h1, d);
      assert (h2 - lo2 as real) * d - (h1 - lo1 as real) * d == (h2 - h1) * d;
    } else {
      assert lo1 < lo2;
      assert xs[NextIndex(lo1, |xs|)] <= xs[lo2];
    }
  }

  /** numpy's virtual index (n - 1) * q for a sample of n values. */
  function VirtualIndex(last: nat, q: real): (h: real)
    requires 0.0 <= q <= 1.0
    ensures 0.0 <= h <= last as real
  {
    MulNonNegative(last as real, q);
    MulNonNegative(last as real, 1.0 - q);
    last as real * q
  }

  lemma VirtualIndexMonotone(last: nat, q1: real, q2: real)
    requires 0.0 <= q1 <= q2 <= 1.0
    ensures VirtualIndex(last, q1) <= VirtualIndex(last, q2)
  {
    MulNonNegative(last as real, q2 - q1);
  }

  /** `np.quantile(sample, q)` with numpy's default "linear" method, on the sorted sample. */
  function Quantile(xs: seq<real>, q: real): (v: real)
    requires Sorted(xs) && |xs| > 0 && 0.0 <= q <= 1.0
    ensures xs[0] <= v <= xs[|xs| - 1]
  {
    Interpolate(xs, VirtualIndex(|xs| - 1, q))
  }

  lemma QuantileMonotone(xs: seq<real>, q1: real, q2: real)
    requires Sorted(xs) && |xs| > 0 && 0.0 <= q1 <= q2 <= 1.0
    ensures Quantile(xs, q1) <= Quantile(xs, q2)
  {
    VirtualIndexMonotone(|xs| - 1, q1, q2);
    InterpolateMonotone(xs, VirtualIndex(|xs| - 1, q1), VirtualIndex(|xs| - 1, q2));
  }

  /** At the level k / (n - 1) the quantile of a sorted sample of n values is its k-th value. */
  lemma QuantileAtSample(xs: seq<real>, k: nat)
    requires Sorted(xs) && |xs| > 1 && k < |xs|
    ensures 0.0 <= k as real / (|xs| - 1) as real <= 1.0
    ensures Quantile(xs, k as real / (|xs| - 1) as real) == xs[k]
  {
    var last := (|xs| - 1) as real;
    DivMonotone(k as real, last, last);
    DivSelf(last);
    var q := k as real / last;
    assert VirtualIndex(|xs| - 1, q) == k as real;
  }

  /** Between the levels k / (n - 1) and (k + 1) / (n - 1) the quantile moves linearly from the k-th value
      of the sorted sample to the next one. */
  lemma QuantileBetweenSamples(xs: seq<real>, k: nat, q: real)
    requires Sorted(xs) && k + 1 < |xs| && 0.0 <= q <= 1.0
    requires k as real <= (|xs| - 1) as real * q <= (k + 1) as real
    ensures Quantile(xs, q) == xs[k] + ((|xs| - 1) as real * q - k as real) * (xs[k + 1] - xs[k])
  {
    var h := VirtualIndex(|xs| - 1, q);
    if h == (k + 1) as real {
      assert h.Floor == k + 1;
    } else {
      assert h.Floor == k;
    }
  }

  /** The quantiles of the sorted sample at the levels of `Levels(bins)`. */
  function Quantiles(xs: seq<real>, bins: int): (qs: seq<real>)
    requires Sorted(xs) && |xs| > 0 && bins >= -1
    ensures |qs| == bins + 1
    ensures Sorted(qs)
    ensures forall i :: 0 <= i < |qs| ==> xs[0] <= qs[i] <= xs[|xs| - 1]
    ensures bins >= 1 ==> qs[0] == xs[0] && qs[bins] == xs[|xs| - 1]
    ensures forall i :: 0 <= i < |qs| ==> qs[i] == Quantile(xs, Levels(bins)[i])
  {
    var levels := Levels(bins);
    var qs := seq(bins + 1, i requires 0 <= i <= bins => Quantile(xs, levels[i]));
    forall i, j | 0 <= i <= j < |qs| ensures qs[i] <= qs[j] {
      QuantileMonotone(xs, levels[i], levels[j]);
    }
    qs
  }

  // ---------------------------------------------------------------- edges

  /** `np.unique` on an already sorted sequence: one copy of each value. */
  function Dedup(s: seq<real>): (r: seq<real>)
    requires Sorted(s)
    ensures StrictlyIncreasing(r)
    ensures |r| <= |s|
    ensures forall x :: x in r <==> x in s
    ensures s != [] ==> r != [] && r[0] == s[0] && r[|r| - 1] == s[|s| - 1]
  {
    if |s| <= 1 then s
    else if s[0] == s[1] then Dedup(s[1..])
    else
      var rest := Dedup(s[1..]);
      assert forall x :: x in s <==> x == s[0] || x in s[1..];
      forall i | 0 <= i < |rest| ensures s[0] < rest[i] {
        assert rest[i] in s[1..];
      }
      [s[0]] + rest
  }

  /**
   * The bin edges: the distinct reference quantiles at levels 0, 1/bins, ..., 1;
   * when fewer than two remain, the single bin [min - 0.5, max + 0.5].
   */
  function Edges(reference: seq<real>, bins: int): (edges: seq<real>)
    requires |reference| > 0 && bins >= -1
    ensures 2 <= |edges| <= (if bins >= 1 then bins + 1 else 2)
    ensures StrictlyIncreasing(edges)
    ensures forall i :: 0 <= i < |reference| ==> edges[0] <= reference[i] <= edges[|edges| - 1]
  {
    var sorted := Sort(reference);
    var unique := Dedup(Quantiles(sorted, bins));
    SortedBounds(reference, sorted);
    if |unique| < 2 then [sorted[0] - 0.5, sorted[|sorted| - 1] + 0.5] else unique
  }

  lemma SortedBounds(s: seq<real>, sorted: seq<real>)
    requires |s| > 0 && Sorted(sorted) && multiset(sorted) == multiset(s)
    ensures |sorted| > 0
    ensures forall i :: 0 <= i < |s| ==> sorted[0] <= s[i] <= sorted[|sorted| - 1]
  {
    assert |sorted| == |multiset(s)| == |s|;
    forall i | 0 <= i < |s| ensures sorted[0] <= s[i] <= sorted[|sorted| - 1] {
      assert s[i] in multiset(sorted);
    }
  }

  /** A constant reference sample v, ..., v yields the one bin [v - 0.5, v + 0.5]. */
  lemma {:induction false} ConstantReferenceEdges(reference: seq<real>, v: real, bins: int)
    requires |reference| > 0 && bins >= -1
    requires forall i :: 0 <= i < |reference| ==> reference[i] == v
    ensures Edges(reference, bins) == [v - 0.5, v + 0.5]
  {
    var sorted := Sort(reference);
    SortedBounds(reference, sorted);
    ConstantEnds(reference, sorted, v);
    QuantilesOfConstant(sorted, bins, v);
    DedupConstant(Quantiles(sorted, bins), v);
  }

  lemma ConstantEnds(s: seq<real>, sorted: seq<real>, v: real)
    requires |sorted| > 0 && multiset(sorted) == multiset(s)
    requires forall i :: 0 <= i < |s| ==> s[i] == v
    ensures sorted[0] == v && sorted[|sorted| - 1] == v
  {
    assert sorted[0] in multiset(s) && sorted[|sorted| - 1] in multiset(s);
  }

  lemma QuantilesOfConstant(sorted: seq<real>, bins: int, v: real)
    requires Sorted(sorted) && |sorted| > 0 && bins >= -1
    requires sorted[0] == v && sorted[|sorted| - 1] == v
    ensures forall i :: 0 <= i < |Quantiles(sorted, bins)| ==> Quantiles(sorted, bins)[i] == v
  {
  }

  lemma DedupConstant(s: seq<real>, v: real)
    requires Sorted(s) && forall i :: 0 <= i < |s| ==> s[i] == v
    ensures |Dedup(s)| <= 1
  {
  }

  /** With at least one bin requested, the fallback is taken only for a constant reference. */
  lemma {:induction false} FallbackOnlyForConstantReference(reference: seq<real>, bins: int)
    requires |reference| > 0 && bins >= 1
    requires exists i, j :: 0 <= i < j < |reference| && reference[i] != reference[j]
    ensures Edges(reference, bins) == Dedup(Quantiles(Sort(reference), bins))
  {
    var sorted := Sort(reference);
    SortedBounds(reference, sorted);
    var i, j :| 0 <= i < j < |reference| && reference[i] != reference[j];
    assert sorted[0] < sorted[|sorted| - 1];
    var qs := Quantiles(sorted, bins);
    var unique := Dedup(qs);
    assert unique[0] == sorted[0] && unique[|unique| - 1] == sorted[|sorted| - 1];
  }

  // ---------------------------------------------------------------- histogram

  /** numpy.histogram's bin k: [e_k, e_{k+1}), the last bin also holding its right edge. */
  predicate InBin(edges: seq<real>, k: nat, x: real)
    requires k + 1 < |edges|
  {
    edges[k] <= x && (x < edges[k + 1] || (k + 2 == |edges| && x == edges[k + 1]))
  }

  function BinCount(xs: seq<real>, edges: seq<real>, k: nat): (n: nat)
    requires k + 1 < |edges|
    ensures n <= |xs|
  {
    if xs == [] then 0 else (if InBin(edges, k, xs[0]) then 1 else 0) + BinCount(xs[1..], edges, k)
  }

  /** `np.histogram(xs, bins=edges)[0]`: the count of each bin. */
  function Histogram(xs: seq<real>, edges: seq<real>): (counts: seq<nat>)
    requires |edges| >= 2
    ensures |counts| == |edges| - 1
    ensures forall k :: 0 <= k < |counts| ==> counts[k] == BinCount(xs, edges, k)
  {
    seq(|edges| - 1, k requires 0 <= k < |edges| - 1 => BinCount(xs, edges, k))
  }

  /** The number of values in the closed range [lo, hi]. */
  function CountInRange(xs: seq<real>, lo: real, hi: real): (n: nat)
    ensures n <= |xs|
  {
    if xs == [] then 0 else (if lo <= xs[0] <= hi then 1 else 0) + CountInRange(xs[1..], lo, hi)
  }

  function Indicators(edges: seq<real>, x: real, j: nat): (ind: seq<nat>)
    requires j < |edges|
    ensures |ind| == j
  {
    seq(j, k requires 0 <= k < j => if InBin(edges, k, x) then 1 else 0)
  }

  lemma {:induction false} SumBack(s: seq<nat>)
    requires s != []
    ensures Sum(s) == Sum(s[..|s| - 1]) + s[|s| - 1]
  {
    if |s| > 1 {
      assert s[1..][..|s| - 2] == s[..|s| - 1][1..];
      SumBack(s[1..]);
    }
  }

  /** A value lies in at most one bin: the first j bins hold it once exactly when it is below e_j. */
  lemma {:induction false} SumIndicators(edges: seq<real>, x: real, j: nat)
    requires StrictlyIncreasing(edges) && 1 <= j < |edges|
    ensures Sum(Indicators(edges, x, j)) ==
      if edges[0] <= x && (x < edges[j] || (j == |edges| - 1 && x == edges[j])) then 1 else 0
  {
    var ind := Indicators(edges, x, j);
    SumBack(ind);
    if j > 1 {
      assert ind[..j - 1] == Indicators(edges, x, j - 1);
      SumIndicators(edges, x, j - 1);
    } else {
      assert ind[..0] == [];
    }
  }

  lemma {:induction false} SumAdd(a: seq<nat>, b: seq<nat>, c: seq<nat>)
    requires |a| == |b| == |c|
    requires forall k :: 0 <= k < |c| ==> c[k] == a[k] + b[k]
    ensures Sum(c) == Sum(a) + Sum(b)
  {
    if c != [] {
      SumAdd(a[1..], b[1..], c[1..]);
    }
  }

  /** The bin counts add up to the number of values within [first edge, last edge]. */
  lemma {:induction false} HistogramTotal(xs: seq<real>, edges: seq<real>)
    requires |edges| >= 2 && StrictlyIncreasing(edges)
    ensures Sum(Histogram(xs, edges)) == CountInRange(xs, edges[0], edges[|edges| - 1])
  {
    var m := |edges| - 1;
    if xs == [] {
      assert forall k :: 0 <= k < m ==> Histogram(xs, edges)[k] == 0;
      ZeroSum(Histogram(xs, edges));
    } else {
      HistogramTotal(xs[1..], edges);
      SumIndicators(edges, xs[0], m);
      SumAdd(Histogram(xs[1..], edges), Indicators(edges, xs[0], m), Histogram(xs, edges));
    }
  }

  lemma {:induction false} ZeroSum(s: seq<nat>)
    requires forall k :: 0 <= k < |s| ==> s[k] == 0
    ensures Sum(s) == 0
  {
    if s != [] {
      ZeroSum(s[1..]);
    }
  }

  lemma {:induction false} CountInRangeAll(xs: seq<real>, lo: real, hi: real)
    requires forall i :: 0 <= i < |xs| ==> lo <= xs[i] <= hi
    ensures CountInRange(xs, lo, hi) == |xs|
  {
    if xs != [] {
      CountInRangeAll(xs[1..], lo, hi);
    }
  }

  /** Every reference value falls in exactly one bin: the reference counts add up to the sample size. */
  lemma ReferenceCountsTotal(reference: seq<real>, bins: int)
    requires |reference| > 0 && bins >= -1
    ensures Sum(Histogram(reference, Edges(reference, bins))) == |reference|
  {
    var edges := Edges(reference, bins);
    HistogramTotal(reference, edges);
    CountInRangeAll(reference, edges[0], edges[|edges| - 1]);
  }

  /** Production values outside [first edge, last edge] are dropped, so their counts add up to at most the sample size. */
  lemma ProductionCountsTotal(reference: seq<real>, production: seq<real>, bins: int)
    requires |reference| > 0 && bins >= -1
    ensures var edges := Edges(reference, bins);
      Sum(Histogram(production, edges)) == CountInRange(production, edges[0], edges[|edges| - 1]) <= |production|
  {
    HistogramTotal(production, Edges(reference, bins));
  }

  // ---------------------------------------------------------------- the index

  /** Each bin's share of the sample (`counts / max(size, 1)`), floored at `minFraction`. */
  function Fractions(counts: seq<nat>, size: nat, minFraction: real): (f: seq<real>)
    requires minFraction > 0.0
    ensures |f| == |counts|
    ensures forall k :: 0 <= k < |f| ==> f[k] >= minFraction
    ensures forall k :: 0 <= k < |f| ==> f[k] >= counts[k] as real / (if size > 1 then size else 1) as real
    ensures forall k :: 0 <= k < |f| ==>
      f[k] == minFraction || f[k] == counts[k] as real / (if size > 1 then size else 1) as real
  {
    var denominator := (if size > 1 then size else 1) as real;
    seq(|counts|, k requires 0 <= k < |counts| => Max(counts[k] as real / denominator, minFraction))
  }

  /** The floored bin fractions of `xs` over the given edges. */
  function BinFractions(xs: seq<real>, edges: seq<real>, minFraction: real): (f: seq<real>)
    requires |edges| >= 2 && minFraction > 0.0
    ensures |f| == |edges| - 1
    ensures forall k :: 0 <= k < |f| ==> f[k] > 0.0
    ensures forall k :: 0 <= k < |f| ==>
      && f[k] >= minFraction
      && f[k] >= BinCount(xs, edges, k) as real / (if |xs| > 1 then |xs| else 1) as real
      && (f[k] == minFraction || f[k] == BinCount(xs, edges, k) as real / (if |xs| > 1 then |xs| else 1) as real)
  {
    Fractions(Histogram(xs, edges), |xs|, minFraction)
  }

  /** One bin's contribution (p - r) * ln(p / r). */
  function Term(p: real, r: real, ln: real -> real): real
    requires r > 0.0
  {
    (p - r) * ln(p / r)
  }

  function PsiSum(p: seq<real>, r: seq<real>, ln: real -> real): real
    requires |p| == |r| && forall k :: 0 <= k < |r| ==> r[k] > 0.0
  {
    if p == [] then 0.0 else Term(p[0], r[0], ln) + PsiSum(p[1..], r[1..], ln)
  }

  /** `population_stability_index(reference, production, bins, min_fraction)`. */
  function Psi(reference: seq<real>, production: seq<real>, bins: int, minFraction: real, ln: real -> real)
    : (r: Result<real, PsiError>)
    requires minFraction > 0.0
    ensures r.Failure? <==> |reference| == 0 || |production| == 0 || bins < -1
    ensures r == Failure(EmptySample) <==> |reference| == 0 || |production| == 0
  {
    if |reference| == 0 || |production| == 0 then Failure(EmptySample)
    else if bins + 1 < 0 then Failure(NegativeBinCount)
    else
      var edges := Edges(reference, bins);
      Success(PsiSum(BinFractions(production, edges, minFraction), BinFractions(reference, edges, minFraction), ln))
  }

  // ---------------------------------------------------------------- properties

  /** Each term is non-negative, and zero only when the two fractions agree. */
  lemma TermSign(p: real, r: real, ln: real -> real)
    requires IsLogarithm(ln) && p > 0.0 && r > 0.0
    ensures Term(p, r, ln) >= 0.0
    ensures Term(p, r, ln) == 0.0 <==> p == r
  {
    var x := p / r;
    assert x * r == p;
    if x <= 0.0 {
      MulNonNegative(-x, r);
    }
    if p > r {
      if x <= 1.0 {
        MulNonNegative(1.0 - x, r);
      }
      assert ln(x) > ln(1.0);
      MulPositive(p - r, ln(x));
    } else if p < r {
      if x >= 1.0 {
        MulNonNegative(x - 1.0, r);
      }
      assert ln(x) < ln(1.0);
      MulPositive(r - p, -ln(x));
    }
  }

  lemma {:induction false} PsiSumSign(p: seq<real>, r: seq<real>, ln: real -> real)
    requires IsLogarithm(ln)
    requires |p| == |r| && forall k :: 0 <= k < |r| ==> r[k] > 0.0 && p[k] > 0.0
    ensures PsiSum(p, r, ln) >= 0.0
    ensures PsiSum(p, r, ln) == 0.0 <==> p == r
  {
    if p != [] {
      TermSign(p[0], r[0], ln);
      PsiSumSign(p[1..], r[1..], ln);
      assert p == r <==> p[0] == r[0] && p[1..] == r[1..] by {
        if p[0] == r[0] && p[1..] == r[1..] {
          assert p == [p[0]] + p[1..] && r == [r[0]] + r[1..];
        }
      }
    }
  }

  /** The index is never negative. */
  lemma PsiNonNegative(reference: seq<real>, production: seq<real>, bins: int, minFraction: real, ln: real -> real)
    requires IsLogarithm(ln) && minFraction > 0.0
    requires Psi(reference, production, bins, minFraction, ln).Success?
    ensures Psi(reference, production, bins, minFraction, ln).value >= 0.0
  {
    var edges := Edges(reference, bins);
    PsiSumSign(BinFractions(production, edges, minFraction), BinFractions(reference, edges, minFraction), ln);
  }

  /** The index is zero exactly when every bin has the same floored fraction in both samples. */
  lemma PsiZeroIff(reference: seq<real>, production: seq<real>, bins: int, minFraction: real, ln: real -> real)
    requires IsLogarithm(ln) && minFraction > 0.0
    requires Psi(reference, production, bins, minFraction, ln).Success?
    ensures var edges := Edges(reference, bins);
      Psi(reference, production, bins, minFraction, ln).value == 0.0
      <==> BinFractions(production, edges, minFraction) == BinFractions(reference, edges, minFraction)
  {
    var edges := Edges(reference, bins);
    PsiSumSign(BinFractions(production, edges, minFraction), BinFractions(reference, edges, minFraction), ln);
  }

  lemma {:induction false} PsiSumSelf(p: seq<real>, ln: real -> real)
    requires forall k :: 0 <= k < |p| ==> p[k] > 0.0
    ensures PsiSum(p, p, ln) == 0.0
  {
    if p != [] {
      PsiSumSelf(p[1..], ln);
    }
  }

  /** A sample compared with itself has index 0, whatever the logarithm. */
  lemma PsiOfIdenticalSamples(sample: seq<real>, bins: int, minFraction: real, ln: real -> real)
    requires |sample| > 0 && bins >= -1 && minFraction > 0.0
    ensures Psi(sample, sample, bins, minFraction, ln) == Success(0.0)
  {
    PsiSumSelf(BinFractions(sample, Edges(sample, bins), minFraction), ln);
  }

  lemma {:induction false} BinCountAll(xs: seq<real>, edges: seq<real>, k: nat)
    requires k + 1 < |edges|
    requires forall i :: 0 <= i < |xs| ==> InBin(edges, k, xs[i])
    ensures BinCount(xs, edges, k) == |xs|
  {
    if xs != [] {
      BinCountAll(xs[1..], edges, k);
    }
  }

  lemma {:induction false} BinCountNone(xs: seq<real>, edges: seq<real>, k: nat)
    requires k + 1 < |edges|
    requires forall i :: 0 <= i < |xs| ==> !InBin(edges, k, xs[i])
    ensures BinCount(xs, edges, k) == 0
  {
    if xs != [] {
      BinCountNone(xs[1..], edges, k);
    }
  }

  lemma ConstantSampleFractions(xs: seq<real>, edges: seq<real>, inside: bool, minFraction: real)
    requires |xs| > 0 && |edges| == 2 && 0.0 < minFraction <= 1.0
    requires forall i :: 0 <= i < |xs| ==> InBin(edges, 0, xs[i]) == inside
    ensures BinFractions(xs, edges, minFraction) == [if inside then 1.0 else minFraction]
  {
    if inside {
      BinCountAll(xs, edges, 0);
    } else {
      BinCountNone(xs, edges, 0);
    }
    var counts := Histogram(xs, edges);
    assert counts == [if inside then |xs| else 0];
    var d := (if |xs| > 1 then |xs| else 1) as real;
    assert d == |xs| as real;
    DivSelf(d);
    var f := Fractions(counts, |xs|, minFraction);
    assert f[0] == Max(counts[0] as real / d, minFraction);
    assert f == [f[0]];
  }

  /**
   * A constant reference v and a constant production sample w more than 0.5 away
   * share no bin: the production fraction is floored, and
   * PSI = (min_fraction - 1) * ln(min_fraction), which is positive for min_fraction < 1.
   */
  lemma DisjointConstantSamples(reference: seq<real>, production: seq<real>, v: real, w: real,
                                bins: int, minFraction: real, ln: real -> real)
    requires |reference| > 0 && |production| > 0 && bins >= -1
    requires forall i :: 0 <= i < |reference| ==> reference[i] == v
    requires forall i :: 0 <= i < |production| ==> production[i] == w
    requires w < v - 0.5 || v + 0.5 < w
    requires 0.0 < minFraction <= 1.0
    ensures Psi(reference, production, bins, minFraction, ln) ==
            Success((minFraction - 1.0) * ln(minFraction / 1.0))
    ensures IsLogarithm(ln) && minFraction < 1.0 ==> Psi(reference, production, bins, minFraction, ln).value > 0.0
  {
    ConstantReferenceEdges(reference, v, bins);
    var edges := [v - 0.5, v + 0.5];
    assert forall i :: 0 <= i < |reference| ==> InBin(edges, 0, reference[i]);
    assert forall i :: 0 <= i < |production| ==> !InBin(edges, 0, production[i]);
    ConstantSampleFractions(reference, edges, true, minFraction);
    ConstantSampleFractions(production, edges, false, minFraction);
    var p, r := [minFraction], [1.0];
    assert PsiSum(p, r, ln) == Term(minFraction, 1.0, ln) by {
      assert p[1..] == [] && r[1..] == [];
    }
    assert Term(minFraction, 1.0, ln) == (minFraction - 1.0) * ln(minFraction / 1.0);
    assert Psi(reference, production, bins, minFraction, ln) == Success(PsiSum(p, r, ln));
    if IsLogarithm(ln) && minFraction < 1.0 {
      TermSign(minFraction, 1.0, ln);
    }
  }
}
