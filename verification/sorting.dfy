/** `np.sort` on a one-dimensional float array, and counting by threshold. */
module Sorting {

  predicate Sorted(s: seq<real>) { forall i, j :: 0 <= i <= j < |s| ==> s[i] <= s[j] }

  /** Places `x` into the sorted sequence `s`. */
  function Insert(x: real, s: seq<real>): (r: seq<real>)
    requires Sorted(s)
    ensures Sorted(r)
    ensures multiset(r) == multiset(s) + multiset{x}
    ensures |r| == |s| + 1
  {
    if s == [] || x <= s[0] then
      SortedCons(x, s);
      [x] + s
    else
      var rest := Insert(x, s[1..]);
      assert s == [s[0]] + s[1..];
      forall k | 0 <= k < |rest| ensures s[0] <= rest[k] {
        assert rest[k] in multiset(rest);
      }
      SortedCons(s[0], rest);
      [s[0]] + rest
  }

  /** A value no larger than any element of a sorted sequence can go in front of it. */
  lemma SortedCons(x: real, s: seq<real>)
    requires Sorted(s) && forall k :: 0 <= k < |s| ==> x <= s[k]
    ensures Sorted([x] + s)
  {
    var r := [x] + s;
    forall i, j | 0 <= i <= j < |r| ensures r[i] <= r[j] {
      if 0 < i {
        assert r[i] == s[i - 1] && r[j] == s[j - 1];
      } else if 0 < j {
        assert r[j] == s[j - 1];
      }
    }
  }

  /** The ascending rearrangement of `s` (`np.sort`). */
  function Sort(s: seq<real>): (r: seq<real>)
    ensures Sorted(r)
    ensures multiset(r) == multiset(s)
    ensures |r| == |s|
  {
    if s == [] then []
    else
      assert s == [s[0]] + s[1..];
      Insert(s[0], Sort(s[1..]))
  }

  /** The number of elements of `s` that are at most `x`. */
  function CountAtMost(s: seq<real>, x: real): (n: nat)
    ensures n <= |s|
  {
    if s == [] then 0 else (if s[0] <= x then 1 else 0) + CountAtMost(s[1..], x)
  }

  lemma {:induction false} CountAtMostAppend(s: seq<real>, t: seq<real>, x: real)
    ensures CountAtMost(s + t, x) == CountAtMost(s, x) + CountAtMost(t, x)
  {
    if s != [] {
      assert (s + t)[1..] == s[1..] + t;
      CountAtMostAppend(s[1..], t, x);
    } else {
      assert s + t == t;
    }
  }

  /** The count depends on the elements of `s` only, not on their order. */
  lemma {:induction false} CountAtMostPermutation(s: seq<real>, t: seq<real>, x: real)
    requires multiset(s) == multiset(t)
    ensures CountAtMost(s, x) == CountAtMost(t, x)
    decreases |s|
  {
    if s != [] {
      assert s[0] in multiset(t);
      var i :| 0 <= i < |t| && t[i] == s[0];
      var rest := t[..i] + t[i + 1..];
      assert t == t[..i] + [t[i]] + t[i + 1..];
      assert s == [s[0]] + s[1..];
      assert multiset(t) == multiset(t[..i]) + multiset{t[i]} + multiset(t[i + 1..]);
      assert multiset(s) == multiset{s[0]} + multiset(s[1..]);
      assert multiset(rest) == multiset(t[..i]) + multiset(t[i + 1..]);
      calc {
        multiset(s[1..]);
        multiset(s) - multiset{s[0]};
        multiset(t) - multiset{t[i]};
        multiset(rest);
      }
      CountAtMostPermutation(s[1..], rest, x);
      CountAtMostAppend(t[..i], t[i + 1..], x);
      CountAtMostAppend(t[..i] + [t[i]], t[i + 1..], x);
      CountAtMostAppend(t[..i], [t[i]], x);
    } else {
      assert |t| == |multiset(t)| == 0;
    }
  }

  /** Every element is at most `x` exactly when all of `s` is counted. */
  lemma {:induction false} CountAtMostAll(s: seq<real>, x: real)
    ensures CountAtMost(s, x) == |s| <==> forall i :: 0 <= i < |s| ==> s[i] <= x
  {
    if s != [] {
      CountAtMostAll(s[1..], x);
      assert forall i :: 1 <= i < |s| ==> s[i] == s[1..][i - 1];
    }
  }

  /** No element is at most `x` exactly when the count is zero. */
  lemma {:induction false} CountAtMostNone(s: seq<real>, x: real)
    ensures CountAtMost(s, x) == 0 <==> forall i :: 0 <= i < |s| ==> x < s[i]
  {
    if s != [] {
      CountAtMostNone(s[1..], x);
      assert forall i :: 1 <= i < |s| ==> s[i] == s[1..][i - 1];
    }
  }
}
