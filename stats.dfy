/**
 * The collection arithmetic the reports are built from: `sumOf`, `count`, `average`,
 * the percentage `(k * 100.0) / n`, `coerceIn` and the private `median` helper.
 * Amounts are exact reals: IEEE rounding is not modelled.
 */
module Stats {
  import opened Sorting

  function Sum<T>(xs: seq<T>, f: T -> real): real
  {
    if xs == [] then 0.0 else f(xs[0]) + Sum(xs[1..], f)
  }

  function Count<T>(xs: seq<T>, p: T -> bool): (n: nat)
    ensures n <= |xs|
  {
    if xs == [] then 0 else (if p(xs[0]) then 1 else 0) + Count(xs[1..], p)
  }

  /** Kotlin's `average()`; the callers only ever average nonempty groups. */
  function Mean<T>(xs: seq<T>, f: T -> real): real
    requires |xs| > 0
  {
    Sum(xs, f) / (|xs| as real)
  }

  /** `(k * 100.0) / n`: the share of `k` out of `n`, in percent. */
  function Percent(k: nat, n: nat): (r: real)
    requires k <= n && n > 0
    ensures 0.0 <= r <= 100.0
    ensures r == 0.0 <==> k == 0
    ensures r == 100.0 <==> k == n
  {
    (k as real * 100.0) / (n as real)
  }

  /** `coerceIn(lo, hi)`: the value nearest to `x` within `[lo, hi]`. */
  function Clamp(x: real, lo: real, hi: real): (r: real)
    requires lo <= hi
    ensures lo <= r <= hi
    ensures lo <= x <= hi ==> r == x
    ensures x < lo ==> r == lo
    ensures x > hi ==> r == hi
  {
    if x < lo then lo else if x > hi then hi else x
  }

  /** Values between `lo` and `hi` sum to between n·lo and n·hi. */
  lemma {:induction false} SumBounds<T>(xs: seq<T>, f: T -> real, lo: real, hi: real)
    requires forall i :: 0 <= i < |xs| ==> lo <= f(xs[i]) <= hi
    ensures (|xs| as real) * lo <= Sum(xs, f) <= (|xs| as real) * hi
  {
    if xs != [] {
      assert forall i :: 0 <= i < |xs[1..]| ==> xs[1..][i] == xs[i + 1];
      SumBounds(xs[1..], f, lo, hi);
      assert (|xs| as real) * lo == lo + (|xs[1..]| as real) * lo;
      assert (|xs| as real) * hi == hi + (|xs[1..]| as real) * hi;
    }
  }

  /** The average of values between `lo` and `hi` lies between them. */
  lemma MeanBounds<T>(xs: seq<T>, f: T -> real, lo: real, hi: real)
    requires |xs| > 0
    requires forall i :: 0 <= i < |xs| ==> lo <= f(xs[i]) <= hi
    ensures lo <= Mean(xs, f) <= hi
  {
    var n, s := |xs| as real, Sum(xs, f);
    SumBounds(xs, f, lo, hi);
    assert s / n * n == s;
    if s / n < lo {
      assert s / n * n < lo * n;
    }
    if s / n > hi {
      assert s / n * n > hi * n;
    }
  }

  lemma {:induction false} SumConstant<T>(xs: seq<T>, f: T -> real, c: real)
    requires forall i :: 0 <= i < |xs| ==> f(xs[i]) == c
    ensures Sum(xs, f) == (|xs| as real) * c
  {
    if xs != [] {
      assert f(xs[0]) == c;
      SumConstant(xs[1..], f, c);
      var m := |xs| - 1;
      assert (m as real + 1.0) * c == (m as real) * c + c;
    }
  }

  lemma {:induction false} CountNone<T>(xs: seq<T>, p: T -> bool)
    requires forall i :: 0 <= i < |xs| ==> !p(xs[i])
    ensures Count(xs, p) == 0
  {
    if xs != [] {
      assert !p(xs[0]);
      CountNone(xs[1..], p);
    }
  }

  function Less(a: real, b: real): bool
  {
    a < b
  }

  lemma LessIsStrictWeakOrder()
    ensures StrictWeakOrder(Less)
  {
  }

  /** `sorted()` on a list of doubles: ascending order. */
  function SortAscending(xs: seq<real>): seq<real>
  {
    SortBy(xs, Less)
  }

  /**
   * The median of a list: 0.0 when it is empty, otherwise the middle element of the
   * sorted list (odd size) or the mean of its two middle elements (even size).
   */
  function Median(xs: seq<real>): real
  {
    MiddleOf(SortAscending(xs))
  }

  function MiddleOf(s: seq<real>): real
  {
    if |s| == 0 then 0.0
    else if |s| % 2 == 0 then (s[|s| / 2 - 1] + s[|s| / 2]) / 2.0
    else s[|s| / 2]
  }

  lemma MiddleBounds(s: seq<real>)
    requires |s| > 0
    requires Ascending(s)
    ensures s[0] <= MiddleOf(s) <= s[|s| - 1]
  {
    var n := |s|;
    var lo, hi := (n - 1) / 2, n / 2;
    assert 0 <= lo <= hi < n;
    assert s[0] <= s[lo] <= s[hi] <= s[n - 1];
  }

  function Min(xs: seq<real>): (m: real)
    requires |xs| > 0
    ensures m in xs && forall x :: x in xs ==> m <= x
  {
    if |xs| == 1 then xs[0]
    else
      var m := Min(xs[1..]);
      assert forall x :: x in xs ==> x == xs[0] || x in xs[1..];
      if xs[0] <= m then xs[0] else m
  }

  function Max(xs: seq<real>): (m: real)
    requires |xs| > 0
    ensures m in xs && forall x :: x in xs ==> x <= m
  {
    if |xs| == 1 then xs[0]
    else
      var m := Max(xs[1..]);
      assert forall x :: x in xs ==> x == xs[0] || x in xs[1..];
      if xs[0] >= m then xs[0] else m
  }

  lemma SortAscendingFacts(xs: seq<real>)
    ensures multiset(SortAscending(xs)) == multiset(xs)
    ensures Ascending(SortAscending(xs))
  {
    LessIsStrictWeakOrder();
    SortBySorted(xs, Less);
  }

  ghost predicate Ascending(s: seq<real>)
  {
    forall i, j :: 0 <= i <= j < |s| ==> s[i] <= s[j]
  }

  /** The first element of a nonempty ascending list is its least element. */
  lemma AscendingHead(a: seq<real>, x: real)
    requires Ascending(a) && x in multiset(a)
    ensures a[0] <= x
  {
    var i :| 0 <= i < |a| && a[i] == x;
  }

  lemma AscendingTail(a: seq<real>)
    requires Ascending(a) && |a| > 0
    ensures Ascending(a[1..])
    ensures multiset(a[1..]) == multiset(a) - multiset{a[0]}
  {
    assert a == [a[0]] + a[1..];
  }

  /** Two ascending lists holding the same values start alike, and so do their remainders. */
  lemma AscendingSameHead(a: seq<real>, b: seq<real>)
    requires Ascending(a) && Ascending(b)
    requires multiset(a) == multiset(b) && |a| > 0
    ensures |b| > 0 && a[0] == b[0]
    ensures Ascending(a[1..]) && Ascending(b[1..]) && multiset(a[1..]) == multiset(b[1..])
  {
    assert a[0] in multiset(a);
    assert |b| > 0 && b[0] in multiset(b) by { assert |multiset(b)| == |a|; }
    AscendingHead(a, b[0]);
    AscendingHead(b, a[0]);
    AscendingTail(a);
    AscendingTail(b);
  }

  /** Two ascending lists holding the same values are the same list. */
  lemma {:induction false} AscendingUnique(a: seq<real>, b: seq<real>)
    requires Ascending(a) && Ascending(b)
    requires multiset(a) == multiset(b)
    ensures a == b
  {
    if |a| == 0 {
      assert |b| == |multiset(b)| == 0;
    } else {
      AscendingSameHead(a, b);
      AscendingUnique(a[1..], b[1..]);
      assert a == [a[0]] + a[1..] && b == [b[0]] + b[1..];
    }
  }

  /** The median lies between the smallest and the largest value. */
  lemma MedianBounds(xs: seq<real>)
    requires |xs| > 0
    ensures Min(xs) <= Median(xs) <= Max(xs)
  {
    SortAscendingFacts(xs);
    var s := SortAscending(xs);
    assert Median(xs) == MiddleOf(s);
    MiddleBounds(s);
    var first, last := s[0], s[|s| - 1];
    assert first in multiset(s) && last in multiset(s);
    assert first in xs && last in xs;
    assert Min(xs) <= first && last <= Max(xs);
  }

  /** The median depends only on the values, not on their order. */
  lemma MedianPermutationInvariant(xs: seq<real>, ys: seq<real>)
    requires multiset(xs) == multiset(ys)
    ensures Median(xs) == Median(ys)
  {
    SortAscendingFacts(xs);
    SortAscendingFacts(ys);
    AscendingUnique(SortAscending(xs), SortAscending(ys));
  }

  /** The median is read off any ascending arrangement of the same values. */
  lemma MedianOfSortedPermutation(xs: seq<real>, s: seq<real>)
    requires Ascending(s) && multiset(xs) == multiset(s)
    ensures Median(xs) == MiddleOf(s)
  {
    SortAscendingFacts(xs);
    AscendingUnique(SortAscending(xs), s);
  }

  /** The median of an ascending list is read off it directly. */
  lemma MedianOfAscending(xs: seq<real>)
    requires Ascending(xs)
    ensures Median(xs) == MiddleOf(xs)
  {
    SortAscendingFacts(xs);
    AscendingUnique(SortAscending(xs), xs);
  }

  /** A list of one repeated value has that value as its median. */
  lemma MedianOfConstant(xs: seq<real>, c: real)
    requires |xs| > 0 && forall i :: 0 <= i < |xs| ==> xs[i] == c
    ensures Median(xs) == c
  {
    MedianOfAscending(xs);
  }

  lemma MedianOfEmpty()
    ensures Median([]) == 0.0
  {
  }

  /** Three values in any order have the middle one as median ([3, 1, 2] gives 2). */
  lemma MedianOddExample(xs: seq<real>, lo: real, mid: real, hi: real)
    requires lo <= mid <= hi && multiset(xs) == multiset{lo, mid, hi}
    ensures Median(xs) == mid
  {
    var sorted := [lo, mid, hi];
    assert multiset(sorted) == multiset{lo, mid, hi};
    MedianOfSortedPermutation(xs, sorted);
  }

  /** Four values in any order have the mean of the middle two as median ([1, 2, 3, 4] gives 2.5). */
  lemma MedianEvenExample(xs: seq<real>, a: real, b: real, c: real, d: real)
    requires a <= b <= c <= d && multiset(xs) == multiset{a, b, c, d}
    ensures Median(xs) == (b + c) / 2.0
  {
    var sorted := [a, b, c, d];
    assert multiset(sorted) == multiset{a, b, c, d};
    assert Ascending(sorted);
    MedianOfSortedPermutation(xs, sorted);
    assert |sorted| / 2 == 2 && sorted[1] == b && sorted[2] == c;
  }
}
