/** Reductions over sequences of reals as Python's builtins and pandas compute them:
    sum, min, max, sort, median and mean. Reals stand for IEEE doubles. */
module Numbers {

  /** Left-to-right sum, as an accumulating `total += x` loop or `sum(xs)` computes it. */
  function Sum(s: seq<real>): real
  {
    if s == [] then 0.0 else Sum(s[..|s| - 1]) + s[|s| - 1]
  }

  /** `min(xs)`. */
  function Min(s: seq<real>): (m: real)
    requires |s| > 0
    ensures m in s
    ensures forall k :: 0 <= k < |s| ==> m <= s[k]
  {
    if |s| == 1 then s[0]
    else
      var rest := Min(s[1..]);
      assert forall k :: 1 <= k < |s| ==> s[k] == s[1..][k - 1];
      if s[0] <= rest then s[0] else rest
  }

  /** `max(xs)`. */
  function Max(s: seq<real>): (m: real)
    requires |s| > 0
    ensures m in s
    ensures forall k :: 0 <= k < |s| ==> s[k] <= m
  {
    if |s| == 1 then s[0]
    else
      var rest := Max(s[1..]);
      assert forall k :: 1 <= k < |s| ==> s[k] == s[1..][k - 1];
      if s[0] >= rest then s[0] else rest
  }

  predicate Sorted(s: seq<real>) {
    forall i, j :: 0 <= i < j < |s| ==> s[i] <= s[j]
  }

  /** Insertion into an ascending list: in front of the first element not smaller than x. */
  function Insert(x: real, s: seq<real>): (r: seq<real>)
    requires Sorted(s)
    ensures Sorted(r)
    ensures multiset(r) == multiset(s) + multiset{x}
  {
    if s == [] then [x]
    else if x <= s[0] then
      SortedCons(x, s);
      [x] + s
    else
      var tail := Insert(x, s[1..]);
      assert s == [s[0]] + s[1..];
      forall k | 0 <= k < |tail|
        ensures s[0] <= tail[k]
      {
        assert tail[k] in multiset(tail);
        if tail[k] != x {
          assert tail[k] in multiset(s[1..]);
        }
      }
      SortedCons(s[0], tail);
      [s[0]] + tail
  }

  /** An element no larger than any element of an ascending list can go in front of it. */
  lemma SortedCons(a: real, t: seq<real>)
    requires Sorted(t)
    requires forall k :: 0 <= k < |t| ==> a <= t[k]
    ensures Sorted([a] + t)
  {
    forall i, j | 0 <= i < j < |t| + 1
      ensures ([a] + t)[i] <= ([a] + t)[j]
    {
      if i > 0 {
        assert ([a] + t)[i] == t[i - 1];
      }
      assert ([a] + t)[j] == t[j - 1];
    }
  }

  /** The ascending order of s (`list.sort()`, and the order pandas' median reads). */
  function SortAsc(s: seq<real>): (r: seq<real>)
    ensures Sorted(r)
    ensures multiset(r) == multiset(s)
    ensures |r| == |s|
  {
    if s == [] then []
    else
      assert s == s[..|s| - 1] + [s[|s| - 1]];
      var r := Insert(s[|s| - 1], SortAsc(s[..|s| - 1]));
      assert |r| == |multiset(r)|;
      r
  }

  /** The k-th smallest value is one of the values, and the sorted order puts it after the
      smaller ones and before the larger ones. */
  lemma SortedPick(s: seq<real>, k: nat)
    requires k < |s|
    ensures SortAsc(s)[k] in s
    ensures forall j :: 0 <= j <= k ==> SortAsc(s)[j] <= SortAsc(s)[k]
    ensures forall j :: k <= j < |s| ==> SortAsc(s)[k] <= SortAsc(s)[j]
  {
    var r := SortAsc(s);
    assert r[k] in multiset(r);
    assert Sorted(r);
    forall j | 0 <= j < |s|
      ensures j <= k ==> r[j] <= r[k]
      ensures k <= j ==> r[k] <= r[j]
    {
      if j != k {
        assert j < k ==> r[j] <= r[k];
      }
    }
  }

  /** A sequence each of whose elements is no smaller than the one before is ascending. */
  lemma {:induction false} SortedOfAdjacent(s: seq<real>)
    requires forall k :: 0 < k < |s| ==> s[k - 1] <= s[k]
    ensures Sorted(s)
  {
    if |s| > 1 {
      var p := s[..|s| - 1];
      assert forall k :: 0 <= k < |p| ==> p[k] == s[k];
      SortedOfAdjacent(p);
      forall i, j | 0 <= i < j < |s|
        ensures s[i] <= s[j]
      {
        if j < |s| - 1 {
          assert s[i] == p[i] && s[j] == p[j];
        } else if i < |s| - 2 {
          assert s[i] == p[i] && s[|s| - 2] == p[|p| - 1];
        }
      }
    }
  }

  /** Inserting a value no smaller than every element appends it. */
  lemma {:induction false} InsertLargest(x: real, s: seq<real>)
    requires Sorted(s)
    requires forall k :: 0 <= k < |s| ==> s[k] <= x
    ensures Insert(x, s) == s + [x]
  {
    if s == [] {
    } else if x <= s[0] {
      assert Insert(x, s) == [x] + s;
      assert forall k :: 0 <= k < |s| ==> s[0] <= s[k] <= x;
      assert forall k :: 0 <= k <= |s| ==> ([x] + s)[k] == x == (s + [x])[k];
    } else {
      var rest := s[1..];
      assert Sorted(rest);
      InsertLargest(x, rest);
      assert Insert(x, s) == [s[0]] + Insert(x, rest);
      assert s == [s[0]] + rest;
    }
  }

  /** Sorting an already ascending sequence leaves it unchanged. */
  lemma {:induction false} SortAscOfSorted(s: seq<real>)
    requires Sorted(s)
    ensures SortAsc(s) == s
  {
    if s != [] {
      var p := s[..|s| - 1];
      SortAscOfSorted(p);
      InsertLargest(s[|s| - 1], p);
      assert p + [s[|s| - 1]] == s;
    }
  }

  /** The middle of an ordered list: its middle element, or the mean of the two middle ones. */
  function Middle(r: seq<real>): real
    requires |r| > 0
  {
    var n := |r|;
    if n % 2 == 1 then r[n / 2] else (r[n / 2 - 1] + r[n / 2]) / 2.0
  }

  /** pandas `Series.median()`: the middle of the sorted values. */
  function Median(s: seq<real>): (m: real)
    requires |s| > 0
    ensures Min(s) <= m <= Max(s)
  {
    var r := SortAsc(s);
    SortedWithinExtremes(s);
    MiddleWithin(r, Min(s), Max(s));
    Middle(r)
  }

  /** pandas `Series.mean()`: it lies between the smallest and the largest value. */
  function Mean(s: seq<real>): (m: real)
    requires |s| > 0
    ensures Min(s) <= m <= Max(s)
  {
    MeanBetween(s, Min(s), Max(s));
    Sum(s) / (|s| as real)
  }

  /** Sorting keeps every value between the extremes of the input. */
  lemma SortedWithinExtremes(s: seq<real>)
    requires |s| > 0
    ensures forall k :: 0 <= k < |SortAsc(s)| ==> Min(s) <= SortAsc(s)[k] <= Max(s)
  {
    var r := SortAsc(s);
    forall k | 0 <= k < |r|
      ensures Min(s) <= r[k] <= Max(s)
    {
      PermutationWithinExtremes(s, r, k);
    }
  }

  /** Every element of a permutation of s lies between the extremes of s. */
  lemma PermutationWithinExtremes(s: seq<real>, r: seq<real>, k: nat)
    requires |s| > 0 && multiset(r) == multiset(s) && k < |r|
    ensures Min(s) <= r[k] <= Max(s)
  {
    assert r[k] in multiset(r);
    var i :| 0 <= i < |s| && s[i] == r[k];
  }

  /** The middle of values in [lo, hi] lies in [lo, hi]. */
  lemma MiddleWithin(r: seq<real>, lo: real, hi: real)
    requires |r| > 0
    requires forall k :: 0 <= k < |r| ==> lo <= r[k] <= hi
    ensures lo <= Middle(r) <= hi
  {
    var m := |r| / 2;
    if |r| % 2 != 1 {
      MidpointWithin(r[m - 1], r[m], lo, hi);
    }
  }

  lemma MidpointWithin(a: real, b: real, lo: real, hi: real)
    requires lo <= a <= hi && lo <= b <= hi
    ensures lo <= (a + b) / 2.0 <= hi
  {
  }

  /** A sum of values in [lo, hi] lies in [n * lo, n * hi]. */
  lemma {:induction false} SumBounds(s: seq<real>, lo: real, hi: real)
    requires forall k :: 0 <= k < |s| ==> lo <= s[k] <= hi
    ensures (|s| as real) * lo <= Sum(s) <= (|s| as real) * hi
  {
    if s != [] {
      SumBounds(s[..|s| - 1], lo, hi);
    }
  }

  /** The mean of values in [lo, hi] lies in [lo, hi]. */
  lemma MeanBetween(s: seq<real>, lo: real, hi: real)
    requires |s| > 0
    requires forall k :: 0 <= k < |s| ==> lo <= s[k] <= hi
    ensures lo <= Sum(s) / (|s| as real) <= hi
  {
    SumBounds(s, lo, hi);
    QuotientWithin(Sum(s), |s| as real, lo, hi);
  }

  lemma QuotientWithin(total: real, n: real, lo: real, hi: real)
    requires n > 0.0 && n * lo <= total <= n * hi
    ensures lo <= total / n <= hi
  {
  }

  function Abs(x: real): real {
    if x < 0.0 then -x else x
  }

  /** Total absolute deviation of the values from c, summed left to right like Sum. */
  function SumAbsDev(s: seq<real>, c: real): real
  {
    if s == [] then 0.0 else SumAbsDev(s[..|s| - 1], c) + Abs(s[|s| - 1] - c)
  }

  /** The deviation of a value put in front adds to the total like one put at the end. */
  lemma {:induction false} SumAbsDevCons(x: real, s: seq<real>, c: real)
    ensures SumAbsDev([x] + s, c) == Abs(x - c) + SumAbsDev(s, c)
  {
    if s != [] {
      var p := s[..|s| - 1];
      assert ([x] + s)[..|s|] == [x] + p;
      SumAbsDevCons(x, p, c);
    }
  }

  /** Inserting a value into an ordered list adds its deviation to the total. */
  lemma {:induction false} SumAbsDevInsert(x: real, r: seq<real>, c: real)
    requires Sorted(r)
    ensures SumAbsDev(Insert(x, r), c) == Abs(x - c) + SumAbsDev(r, c)
  {
    if r == [] {
      assert Insert(x, r) == [x] + [];
      SumAbsDevCons(x, [], c);
    } else if x <= r[0] {
      SumAbsDevCons(x, r, c);
    } else {
      var t := r[1..];
      assert Sorted(t);
      SumAbsDevInsert(x, t, c);
      SumAbsDevCons(r[0], Insert(x, t), c);
      SumAbsDevCons(r[0], t, c);
      assert [r[0]] + t == r;
    }
  }

  /** Sorting does not change the total deviation from any point. */
  lemma {:induction false} SumAbsDevSorted(s: seq<real>, c: real)
    ensures SumAbsDev(SortAsc(s), c) == SumAbsDev(s, c)
  {
    if s != [] {
      var p := s[..|s| - 1];
      SumAbsDevSorted(p, c);
      SumAbsDevInsert(s[|s| - 1], SortAsc(p), c);
    }
  }

  /** Any point between the two middle values of an ordered list (the one middle value when
      the length is odd) has a total deviation no larger than any other point: peeling off the
      smallest and the largest value, their two deviations add up to at least their spread,
      exactly the spread at a point between them. */
  lemma {:induction false} SortedMiddleOptimal(r: seq<real>, m: real, c: real)
    requires Sorted(r)
    requires |r| > 0 ==> r[(|r| - 1) / 2] <= m <= r[|r| / 2]
    ensures SumAbsDev(r, m) <= SumAbsDev(r, c)
  {
    var n := |r|;
    if n == 1 {
      assert r == [] + [r[0]];
    } else if n > 1 {
      InnerKeepsMiddle(r, m);
      SortedMiddleOptimal(r[1..n - 1], m, c);
      PeelStep(r, m, c);
    }
  }

  /** If m is no worse than c for the inside of a list and lies between its two ends, it is
      no worse than c for the whole list. */
  lemma PeelStep(r: seq<real>, m: real, c: real)
    requires |r| > 1 && r[0] <= m <= r[|r| - 1]
    requires r == [r[0]] + r[1..|r| - 1] + [r[|r| - 1]]
    requires SumAbsDev(r[1..|r| - 1], m) <= SumAbsDev(r[1..|r| - 1], c)
    ensures SumAbsDev(r, m) <= SumAbsDev(r, c)
  {
    var a, inner, b := r[0], r[1..|r| - 1], r[|r| - 1];
    PairDeviation(a, b, m, c);
    SumAbsDevPeel(a, inner, b, m);
    SumAbsDevPeel(a, inner, b, c);
  }

  /** Dropping both ends of an ordered list keeps it ordered and keeps a point between its two
      middle values between the two middle values of what remains, and between the ends. */
  lemma InnerKeepsMiddle(r: seq<real>, m: real)
    requires Sorted(r) && |r| > 1
    requires r[(|r| - 1) / 2] <= m <= r[|r| / 2]
    ensures var inner := r[1..|r| - 1];
            && Sorted(inner)
            && (|inner| > 0 ==> inner[(|inner| - 1) / 2] <= m <= inner[|inner| / 2])
            && r[0] <= m <= r[|r| - 1]
            && r == [r[0]] + inner + [r[|r| - 1]]
  {
    var n := |r|;
    var inner := r[1..n - 1];
    if |inner| > 0 {
      assert inner[(|inner| - 1) / 2] == r[(n - 1) / 2];
      assert inner[|inner| / 2] == r[n / 2];
    }
    assert r[0] <= r[(n - 1) / 2] && r[n / 2] <= r[n - 1];
    assert r == [r[0]] + inner + [r[n - 1]];
  }

  /** The deviations of the two ends of a list add to the deviation of what lies between. */
  lemma SumAbsDevPeel(a: real, inner: seq<real>, b: real, c: real)
    ensures SumAbsDev([a] + inner + [b], c) == Abs(a - c) + SumAbsDev(inner, c) + Abs(b - c)
  {
    var r := [a] + inner + [b];
    assert r[..|r| - 1] == [a] + inner;
    SumAbsDevCons(a, inner, c);
  }

  /** Two values are together at least their spread away from any point, and exactly their
      spread away from a point between them. */
  lemma PairDeviation(a: real, b: real, m: real, c: real)
    requires a <= m <= b
    ensures Abs(a - m) + Abs(b - m) <= Abs(a - c) + Abs(b - c)
  {
  }

  /** The median lies between the two middle values of the sorted list. */
  lemma MiddleBetweenMiddles(r: seq<real>)
    requires Sorted(r) && |r| > 0
    ensures r[(|r| - 1) / 2] <= Middle(r) <= r[|r| / 2]
  {
  }

  /** The median minimises the total absolute deviation: no point c has a smaller sum of
      |x - c| over the values. */
  lemma MedianMinimisesDeviation(s: seq<real>, c: real)
    requires |s| > 0
    ensures SumAbsDev(s, Median(s)) <= SumAbsDev(s, c)
  {
    var r := SortAsc(s);
    MiddleBetweenMiddles(r);
    SortedMiddleOptimal(r, Middle(r), c);
    SumAbsDevSorted(s, Median(s));
    SumAbsDevSorted(s, c);
  }

  /** The absolute deviation of each value from c. */
  function Devs(s: seq<real>, c: real): (d: seq<real>)
    ensures |d| == |s|
    ensures forall k :: 0 <= k < |s| ==> d[k] == Abs(s[k] - c)
  {
    seq(|s|, k requires 0 <= k < |s| => Abs(s[k] - c))
  }

  /** Summing the deviations gives the total deviation. */
  lemma {:induction false} SumOfDevs(s: seq<real>, c: real)
    ensures Sum(Devs(s, c)) == SumAbsDev(s, c)
  {
    if s != [] {
      var p := s[..|s| - 1];
      SumOfDevs(p, c);
      assert Devs(s, c)[..|s| - 1] == Devs(p, c);
    }
  }

  /** a + w * b. */
  function Affine(a: real, w: real, b: real): real {
    a + w * b
  }

  /** The element-wise weighted sum a[k] + w * b[k] of two sequences of one length. */
  function Combine(a: seq<real>, b: seq<real>, w: real): (r: seq<real>)
    requires |a| == |b|
    ensures |r| == |a|
    ensures forall k :: 0 <= k < |a| ==> r[k] == Affine(a[k], w, b[k])
  {
    seq(|a|, k requires 0 <= k < |a| => Affine(a[k], w, b[k]))
  }

  /** Summation is linear: the sum of a weighted combination is the weighted sum of the sums. */
  lemma {:induction false} SumOfCombine(a: seq<real>, b: seq<real>, w: real)
    requires |a| == |b|
    ensures Sum(Combine(a, b, w)) == Affine(Sum(a), w, Sum(b))
  {
    if a != [] {
      var n := |a|;
      SumOfCombine(a[..n - 1], b[..n - 1], w);
      CombinePrefix(a, b, w);
      LinearStep(Sum(a[..n - 1]), a[n - 1], Sum(b[..n - 1]), b[n - 1], w);
    }
  }

  /** The prefix of a combination is the combination of the prefixes. */
  lemma CombinePrefix(a: seq<real>, b: seq<real>, w: real)
    requires |a| == |b| && a != []
    ensures Combine(a, b, w)[..|a| - 1] == Combine(a[..|a| - 1], b[..|a| - 1], w)
  {
    var n := |a|;
    var r, q := Combine(a, b, w)[..n - 1], Combine(a[..n - 1], b[..n - 1], w);
    forall k | 0 <= k < n - 1
      ensures r[k] == q[k]
    {
      assert a[..n - 1][k] == a[k] && b[..n - 1][k] == b[k];
    }
  }

  /** A sequence that is a constant multiple k of another, element by element, sums to k times
      its sum. */
  lemma {:induction false} SumScaled(d: seq<real>, e: seq<real>, k: real)
    requires |d| == |e|
    requires forall i :: 0 <= i < |d| ==> d[i] == k * e[i]
    ensures Sum(d) == k * Sum(e)
  {
    if d != [] {
      var n := |d|;
      SumScaled(d[..n - 1], e[..n - 1], k);
      Distributes(k, Sum(e[..n - 1]), e[n - 1]);
    }
  }

  lemma Distributes(k: real, a: real, b: real)
    ensures k * a + k * b == k * (a + b)
  {
  }

  lemma LinearStep(sa: real, x: real, sb: real, y: real, w: real)
    ensures Affine(sa, w, sb) + Affine(x, w, y) == Affine(sa + x, w, sb + y)
  {
  }

  lemma ScaleKeepsOrder(a: real, b: real, k: real)
    requires a <= b && k >= 0.0
    ensures k * a <= k * b
  {
  }

  /** Position of the first occurrence of the minimum: what a scan keeping a running
      minimum under strict `<` ends up holding. */
  function FirstMin(s: seq<real>): (k: nat)
    requires |s| > 0
    ensures k < |s|
    ensures forall j :: 0 <= j < |s| ==> s[k] <= s[j]
    ensures forall j :: 0 <= j < k ==> s[j] > s[k]
  {
    if |s| == 1 then 0
    else
      var k := FirstMin(s[1..]);
      assert forall j :: 1 <= j < |s| ==> s[j] == s[1..][j - 1];
      if s[0] <= s[k + 1] then 0 else k + 1
  }

  /** Position of the first occurrence of the maximum (a running maximum under strict `>`). */
  function FirstMax(s: seq<real>): (k: nat)
    requires |s| > 0
    ensures k < |s|
    ensures forall j :: 0 <= j < |s| ==> s[j] <= s[k]
    ensures forall j :: 0 <= j < k ==> s[j] < s[k]
  {
    if |s| == 1 then 0
    else
      var k := FirstMax(s[1..]);
      assert forall j :: 1 <= j < |s| ==> s[j] == s[1..][j - 1];
      if s[0] >= s[k + 1] then 0 else k + 1
  }

  /** A position that is minimal and preceded only by larger values is FirstMin. */
  lemma FirstMinUnique(s: seq<real>, k: nat)
    requires k < |s|
    requires forall j :: 0 <= j < |s| ==> s[k] <= s[j]
    requires forall j :: 0 <= j < k ==> s[j] > s[k]
    ensures k == FirstMin(s)
  {
  }

  /** A position that is maximal and preceded only by smaller values is FirstMax. */
  lemma FirstMaxUnique(s: seq<real>, k: nat)
    requires k < |s|
    requires forall j :: 0 <= j < |s| ==> s[j] <= s[k]
    requires forall j :: 0 <= j < k ==> s[j] < s[k]
    ensures k == FirstMax(s)
  {
  }
}
