/** Exact arithmetic over finite sequences of reals: the sums, means, extrema,
    counts, median and path length from which the flow metrics are built. */
module Numeric {

  function Abs(x: real): real
  {
    if x < 0.0 then -x else x
  }

  function Sum(s: seq<real>): real
  {
    if s == [] then 0.0 else s[0] + Sum(s[1..])
  }

  function Mean(s: seq<real>): real
    requires |s| > 0
  {
    Sum(s) / |s| as real
  }

  function MinOf(s: seq<real>): (m: real)
    requires |s| > 0
    ensures m in s
    ensures forall i :: 0 <= i < |s| ==> m <= s[i]
  {
    if |s| == 1 then s[0]
    else
      var rest := MinOf(s[1..]);
      if s[0] <= rest then s[0] else rest
  }

  function MaxOf(s: seq<real>): (m: real)
    requires |s| > 0
    ensures m in s
    ensures forall i :: 0 <= i < |s| ==> s[i] <= m
  {
    if |s| == 1 then s[0]
    else
      var rest := MaxOf(s[1..]);
      if s[0] >= rest then s[0] else rest
  }

  function MinInt(s: seq<int>): (m: int)
    requires |s| > 0
    ensures m in s
    ensures forall i :: 0 <= i < |s| ==> m <= s[i]
  {
    if |s| == 1 then s[0]
    else
      var rest := MinInt(s[1..]);
      if s[0] <= rest then s[0] else rest
  }

  function MaxInt(s: seq<int>): (m: int)
    requires |s| > 0
    ensures m in s
    ensures forall i :: 0 <= i < |s| ==> s[i] <= m
  {
    if |s| == 1 then s[0]
    else
      var rest := MaxInt(s[1..]);
      if s[0] >= rest then s[0] else rest
  }

  /** The number of entries of `s` strictly greater than `t`. */
  function CountAbove(s: seq<real>, t: real): (n: nat)
    ensures n <= |s|
  {
    if s == [] then 0
    else (if s[0] > t then 1 else 0) + CountAbove(s[1..], t)
  }

  /** Every entry multiplied by `c`. */
  function Scale(s: seq<real>, c: real): seq<real>
  {
    seq(|s|, i requires 0 <= i < |s| => Times(c, s[i]))
  }

  /** Multiplication, named so that equal factors give provably equal
      products. */
  function Times(c: real, x: real): real
  {
    c * x
  }

  /** The sum of the absolute differences of consecutive entries: the first
      entry has no predecessor and contributes no term. */
  function PathLength(s: seq<real>): (p: real)
    ensures p >= 0.0
  {
    if |s| < 2 then 0.0 else Abs(s[1] - s[0]) + PathLength(s[1..])
  }

  /** The absolute differences of consecutive entries, one fewer than the
      entries (none for fewer than two). */
  function AbsDiffs(s: seq<real>): seq<real>
  {
    if |s| < 2 then [] else [Abs(s[1] - s[0])] + AbsDiffs(s[1..])
  }

  /** Entry `i` of the steps is the step from entry `i` to entry `i + 1`. */
  lemma {:induction false} AbsDiffsAt(s: seq<real>)
    ensures |AbsDiffs(s)| == if |s| < 2 then 0 else |s| - 1
    ensures forall i :: 0 <= i < |AbsDiffs(s)| ==> AbsDiffs(s)[i] == Abs(s[i + 1] - s[i])
  {
    if |s| >= 2 {
      AbsDiffsAt(s[1..]);
      assert forall i :: 1 <= i < |AbsDiffs(s)| ==> AbsDiffs(s)[i] == AbsDiffs(s[1..])[i - 1];
    }
  }

  ghost predicate Sorted(s: seq<real>)
  {
    forall i, j :: 0 <= i < j < |s| ==> s[i] <= s[j]
  }

  ghost predicate Constant(s: seq<real>)
  {
    forall i, j :: 0 <= i < |s| && 0 <= j < |s| ==> s[i] == s[j]
  }

  /** `x` placed before the first entry it does not exceed. */
  function Insert(x: real, s: seq<real>): seq<real>
  {
    if s == [] || x <= s[0] then [x] + s else [s[0]] + Insert(x, s[1..])
  }

  /** Insertion sort. */
  function Sort(s: seq<real>): seq<real>
  {
    if s == [] then [] else Insert(s[0], Sort(s[1..]))
  }

  /** Inserting adds exactly `x`. */
  lemma {:induction false} InsertPermutation(x: real, s: seq<real>)
    ensures |Insert(x, s)| == |s| + 1
    ensures multiset(Insert(x, s)) == multiset(s) + multiset{x}
  {
    if s != [] && x > s[0] {
      InsertPermutation(x, s[1..]);
      assert s == [s[0]] + s[1..];
    }
  }

  /** A lower bound of `x` and of every entry bounds the result. */
  lemma {:induction false} InsertAtLeast(x: real, s: seq<real>, lo: real)
    requires lo <= x && forall i :: 0 <= i < |s| ==> lo <= s[i]
    ensures forall i :: 0 <= i < |Insert(x, s)| ==> lo <= Insert(x, s)[i]
  {
    if s != [] && x > s[0] {
      InsertAtLeast(x, s[1..], lo);
      assert forall i :: 1 <= i < |Insert(x, s)| ==> Insert(x, s)[i] == Insert(x, s[1..])[i - 1];
    }
  }

  /** Inserting into a sorted sequence keeps it sorted. */
  lemma {:induction false} InsertSorted(x: real, s: seq<real>)
    requires Sorted(s)
    ensures Sorted(Insert(x, s))
  {
    if s == [] || x <= s[0] {
      var r := [x] + s;
      forall i, j | 0 <= i < j < |r| ensures r[i] <= r[j] {
        assert r[j] == s[j - 1];
        if i > 0 {
          assert r[i] == s[i - 1];
        }
      }
    } else {
      var tail := s[1..];
      assert Sorted(tail) by {
        forall i, j | 0 <= i < j < |tail| ensures tail[i] <= tail[j] {
          assert tail[i] == s[i + 1] && tail[j] == s[j + 1];
        }
      }
      InsertSorted(x, tail);
      InsertAtLeast(x, tail, s[0]);
      var rest := Insert(x, tail);
      var r := [s[0]] + rest;
      forall i, j | 0 <= i < j < |r| ensures r[i] <= r[j] {
        assert r[j] == rest[j - 1];
        if i > 0 {
          assert r[i] == rest[i - 1];
        }
      }
    }
  }

  /** Sorting yields a sorted permutation. */
  lemma {:induction false} SortSpec(s: seq<real>)
    ensures Sorted(Sort(s))
    ensures multiset(Sort(s)) == multiset(s)
    ensures |Sort(s)| == |s|
  {
    if s != [] {
      SortSpec(s[1..]);
      InsertSorted(s[0], Sort(s[1..]));
      InsertPermutation(s[0], Sort(s[1..]));
      assert s == [s[0]] + s[1..];
    }
  }

  /** The middle entry of the sorted values, or the exact average of the two
      middle entries when their number is even. */
  function Median(v: seq<real>): real
    requires |v| > 0
  {
    SortSpec(v);
    var s := Sort(v);
    var n := |s|;
    if n % 2 == 1 then s[n / 2] else (s[n / 2 - 1] + s[n / 2]) / 2.0
  }

  /** Sorting keeps every value between the smallest and the largest. */
  lemma SortWithin(v: seq<real>)
    requires |v| > 0
    ensures |Sort(v)| == |v|
    ensures forall k :: 0 <= k < |v| ==> MinOf(v) <= Sort(v)[k] <= MaxOf(v)
  {
    var s := Sort(v);
    SortSpec(v);
    forall k | 0 <= k < |v| ensures MinOf(v) <= s[k] <= MaxOf(v) {
      assert s[k] in multiset(v);
    }
  }

  /** The median lies between the smallest and the largest value. */
  lemma MedianBounds(v: seq<real>)
    requires |v| > 0
    ensures MinOf(v) <= Median(v) <= MaxOf(v)
  {
    SortWithin(v);
  }

  // ---------------------------------------------------------------------------
  // Sums

  lemma {:induction false} SumAppend(a: seq<real>, b: seq<real>)
    ensures Sum(a + b) == Sum(a) + Sum(b)
  {
    if a == [] {
      assert a + b == b;
    } else {
      assert (a + b)[1..] == a[1..] + b;
      SumAppend(a[1..], b);
    }
  }

  lemma {:induction false} SumAtMost(s: seq<real>, hi: real)
    requires forall i :: 0 <= i < |s| ==> s[i] <= hi
    ensures Sum(s) <= |s| as real * hi
  {
    if s != [] {
      SumAtMost(s[1..], hi);
      assert |s| as real * hi == |s[1..]| as real * hi + hi;
    }
  }

  lemma {:induction false} SumAtLeast(s: seq<real>, lo: real)
    requires forall i :: 0 <= i < |s| ==> lo <= s[i]
    ensures |s| as real * lo <= Sum(s)
  {
    if s != [] {
      SumAtLeast(s[1..], lo);
      assert |s| as real * lo == |s[1..]| as real * lo + lo;
    }
  }

  /** Dividing a quantity in `[n*lo, n*hi]` by `n` gives a value in `[lo, hi]`. */
  lemma DivideBounds(a: real, n: real, lo: real, hi: real)
    requires n > 0.0 && n * lo <= a <= n * hi
    ensures lo <= a / n <= hi
  {
    var m := a / n;
    assert a == n * m;
    assert n * (m - lo) >= 0.0;
    assert n * (hi - m) >= 0.0;
  }

  /** A mean of entries that all lie in `[lo, hi]` lies in `[lo, hi]`. */
  lemma MeanBetween(s: seq<real>, lo: real, hi: real)
    requires |s| > 0
    requires forall i :: 0 <= i < |s| ==> lo <= s[i] <= hi
    ensures lo <= Mean(s) <= hi
  {
    SumAtLeast(s, lo);
    SumAtMost(s, hi);
    DivideBounds(Sum(s), |s| as real, lo, hi);
  }

  /** The mean lies between the smallest and the largest entry. */
  lemma MeanBounds(s: seq<real>)
    requires |s| > 0
    ensures MinOf(s) <= Mean(s) <= MaxOf(s)
  {
    MeanBetween(s, MinOf(s), MaxOf(s));
  }

  /** When every entry is at most `t` and one is strictly below it, the sum
      is strictly below `n*t`. */
  lemma {:induction false} SumBelowStrict(s: seq<real>, t: real, j: nat)
    requires j < |s| && s[j] < t
    requires forall i :: 0 <= i < |s| ==> s[i] <= t
    ensures Sum(s) < |s| as real * t
  {
    assert |s| as real * t == |s[1..]| as real * t + t;
    if j == 0 {
      SumAtMost(s[1..], t);
    } else {
      SumBelowStrict(s[1..], t, j - 1);
    }
  }

  lemma ScaleCons(x: real, s: seq<real>, c: real)
    ensures Scale([x] + s, c) == [Times(c, x)] + Scale(s, c)
  {
    var l := Scale([x] + s, c);
    var r := [Times(c, x)] + Scale(s, c);
    assert l[0] == Times(c, ([x] + s)[0]);
    forall i | 1 <= i < |l| ensures l[i] == r[i] {
      assert ([x] + s)[i] == s[i - 1];
    }
  }

  /** A count out of `n` that leaves at least one entry out is a fraction
      in `[0, 1)`. */
  lemma FractionBounds(k: nat, n: nat)
    requires k < n
    ensures 0.0 <= k as real / n as real < 1.0
  {
    var f := k as real / n as real;
    assert f * n as real == k as real;
  }

  lemma {:induction false} SumScale(s: seq<real>, c: real)
    ensures Sum(Scale(s, c)) == Times(c, Sum(s))
  {
    if s != [] {
      assert forall i :: 0 <= i < |s| - 1 ==> Scale(s, c)[1..][i] == Scale(s[1..], c)[i];
      assert Scale(s, c)[1..] == Scale(s[1..], c);
      SumScale(s[1..], c);
    }
  }

  // ---------------------------------------------------------------------------
  // Counting entries above a threshold

  lemma {:induction false} CountAboveAppend(a: seq<real>, b: seq<real>, t: real)
    ensures CountAbove(a + b, t) == CountAbove(a, t) + CountAbove(b, t)
  {
    if a == [] {
      assert a + b == b;
    } else {
      assert (a + b)[1..] == a[1..] + b;
      CountAboveAppend(a[1..], b, t);
    }
  }

  /** No entry is counted exactly when every entry is at most `t`. */
  lemma {:induction false} CountAboveZero(s: seq<real>, t: real)
    ensures CountAbove(s, t) == 0 <==> forall i :: 0 <= i < |s| ==> s[i] <= t
  {
    if s != [] {
      CountAboveZero(s[1..], t);
      assert forall i :: 1 <= i < |s| ==> s[i] == s[1..][i - 1];
    }
  }

  /** An entry that is not above `t` keeps the count below the length. */
  lemma {:induction false} CountAboveBelowLength(s: seq<real>, t: real, j: nat)
    requires j < |s| && s[j] <= t
    ensures CountAbove(s, t) < |s|
  {
    if j > 0 {
      CountAboveBelowLength(s[1..], t, j - 1);
    }
  }

  /** A higher threshold never counts more entries. */
  lemma {:induction false} CountAboveAntitone(s: seq<real>, t: real, u: real)
    requires t <= u
    ensures CountAbove(s, u) <= CountAbove(s, t)
  {
    if s != [] {
      CountAboveAntitone(s[1..], t, u);
    }
  }

  /** Sorting does not change how many entries lie above a threshold. */
  lemma {:induction false} CountAboveInsert(x: real, s: seq<real>, t: real)
    ensures CountAbove(Insert(x, s), t) == CountAbove([x] + s, t)
  {
    if s != [] && x > s[0] {
      CountAboveInsert(x, s[1..], t);
      assert ([x] + s)[1..] == s;
      assert ([x] + s[1..])[1..] == s[1..];
    } else {
      assert ([x] + s)[1..] == s;
    }
  }

  lemma {:induction false} CountAboveSort(s: seq<real>, t: real)
    ensures CountAbove(Sort(s), t) == CountAbove(s, t)
  {
    if s != [] {
      CountAboveSort(s[1..], t);
      CountAboveInsert(s[0], Sort(s[1..]), t);
      assert ([s[0]] + Sort(s[1..]))[1..] == Sort(s[1..]);
    }
  }

  /** In a sorted sequence, a threshold at or above the `k`-th entry leaves
      at most the last `n - k` entries above it. */
  lemma CountAboveSortedTail(s: seq<real>, t: real, k: nat)
    requires Sorted(s) && 0 < k <= |s| && s[k - 1] <= t
    ensures CountAbove(s, t) <= |s| - k
  {
    assert s == s[..k] + s[k..];
    CountAboveAppend(s[..k], s[k..], t);
    CountAboveZero(s[..k], t);
  }

  /** At most half of the values lie strictly above their median. */
  lemma AtMostHalfAboveMedian(v: seq<real>)
    requires |v| > 0
    ensures CountAbove(v, Median(v)) <= |v| / 2
  {
    var s := Sort(v);
    var n := |s|;
    SortSpec(v);
    CountAboveSort(v, Median(v));
    if n % 2 == 1 {
      CountAboveSortedTail(s, Median(v), n / 2 + 1);
    } else {
      CountAboveSortedTail(s, Median(v), n / 2);
    }
  }

  // ---------------------------------------------------------------------------
  // Path length

  lemma AbsStep(c: real, x: real, y: real)
    requires c >= 0.0
    ensures Abs(Times(c, y) - Times(c, x)) == Times(c, Abs(y - x))
  {
    assert c * y - c * x == c * (y - x);
    if y - x < 0.0 {
      assert c * (y - x) == -(c * (x - y));
    }
  }

  /** Scaling the entries scales every step by the same factor. */
  lemma AbsDiffsScale(s: seq<real>, c: real)
    requires c >= 0.0
    ensures AbsDiffs(Scale(s, c)) == Scale(AbsDiffs(s), c)
  {
    AbsDiffsAt(s);
    AbsDiffsAt(Scale(s, c));
    forall i | 0 <= i < |AbsDiffs(s)|
      ensures AbsDiffs(Scale(s, c))[i] == Scale(AbsDiffs(s), c)[i]
    {
      assert Scale(s, c)[i] == Times(c, s[i]) && Scale(s, c)[i + 1] == Times(c, s[i + 1]);
      AbsStep(c, s[i], s[i + 1]);
    }
  }

  /** The path length is the sum of the absolute steps. */
  lemma {:induction false} PathLengthIsSumOfSteps(s: seq<real>)
    ensures PathLength(s) == Sum(AbsDiffs(s))
  {
    if |s| >= 2 {
      PathLengthIsSumOfSteps(s[1..]);
      assert AbsDiffs(s)[1..] == AbsDiffs(s[1..]);
    }
  }

  /** For non-negative entries, the path never exceeds twice the total less
      the two end entries (each step |b - a| is at most a + b). */
  lemma {:induction false} PathLengthBoundStrong(s: seq<real>)
    requires |s| > 0
    requires forall i :: 0 <= i < |s| ==> s[i] >= 0.0
    ensures PathLength(s) <= 2.0 * Sum(s) - s[0] - s[|s| - 1]
  {
    if |s| >= 2 {
      PathLengthBoundStrong(s[1..]);
    }
  }

  lemma PathLengthBound(s: seq<real>)
    requires forall i :: 0 <= i < |s| ==> s[i] >= 0.0
    ensures PathLength(s) <= 2.0 * Sum(s)
  {
    if |s| > 0 {
      PathLengthBoundStrong(s);
    }
  }

  /** The path length is zero exactly when all entries are equal. */
  lemma {:induction false} PathLengthZero(s: seq<real>)
    ensures PathLength(s) == 0.0 <==> Constant(s)
  {
    if |s| >= 2 {
      PathLengthZero(s[1..]);
      if PathLength(s) == 0.0 {
        forall i, j | 0 <= i < |s| && 0 <= j < |s| ensures s[i] == s[j] {
          if i > 0 { assert s[i] == s[1..][i - 1]; }
          if j > 0 { assert s[j] == s[1..][j - 1]; }
        }
      }
      if Constant(s) {
        assert Constant(s[1..]) by {
          forall i, j | 0 <= i < |s[1..]| && 0 <= j < |s[1..]| ensures s[1..][i] == s[1..][j] {
            assert s[1..][i] == s[i + 1] && s[1..][j] == s[j + 1];
          }
        }
        assert s[1] == s[0];
      }
    }
  }
}
