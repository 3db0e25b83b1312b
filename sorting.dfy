/**
 * The stable sort behind Kotlin's `sortedByDescending` and `sortedWith`.
 *
 * An ordering is given as a relation `before(a, b)`: "a must come strictly before b".
 * For it to describe a sort order it has to be a strict weak order; elements that
 * neither comes before the other are equivalent, and a stable sort keeps equivalent
 * elements in their input order.
 */
module Sorting {

  ghost predicate StrictWeakOrder<T(!new)>(before: (T, T) -> bool)
  {
    && (forall a, b :: before(a, b) ==> !before(b, a))
    && (forall a, b, c :: before(a, c) ==> before(a, b) || before(b, c))
  }

  /** No element is preceded by one it must come before. */
  ghost predicate Sorted<T>(s: seq<T>, before: (T, T) -> bool)
  {
    forall i, j :: 0 <= i < j < |s| ==> !before(s[j], s[i])
  }

  predicate Equivalent<T>(before: (T, T) -> bool, a: T, b: T)
  {
    !before(a, b) && !before(b, a)
  }

  /** The elements of `s` equivalent to `v`, in their order in `s`. */
  function ClassOf<T>(s: seq<T>, before: (T, T) -> bool, v: T): seq<T>
  {
    if s == [] then []
    else ClassOf(s[..|s| - 1], before, v) + (if Equivalent(before, s[|s| - 1], v) then [s[|s| - 1]] else [])
  }

  /** Equivalent elements appear in `r` in the same order as in `s`. */
  ghost predicate StablyOrdered<T(!new)>(r: seq<T>, s: seq<T>, before: (T, T) -> bool)
  {
    forall v :: ClassOf(r, before, v) == ClassOf(s, before, v)
  }

  /** Inserts `x` after every element of `s` that `x` does not have to precede. */
  function Insert<T>(s: seq<T>, x: T, before: (T, T) -> bool): (r: seq<T>)
    ensures multiset(r) == multiset(s) + multiset{x}
  {
    if s == [] then [x]
    else if before(x, s[|s| - 1]) then
      assert s == s[..|s| - 1] + [s[|s| - 1]];
      Insert(s[..|s| - 1], x, before) + [s[|s| - 1]]
    else s + [x]
  }

  /** Insertion sort: each element in turn is inserted behind the sorted prefix. */
  function SortBy<T>(xs: seq<T>, before: (T, T) -> bool): (r: seq<T>)
    ensures multiset(r) == multiset(xs)
    ensures |r| == |xs|
  {
    if xs == [] then []
    else
      var init, last := xs[..|xs| - 1], xs[|xs| - 1];
      var sorted := SortBy(init, before);
      assert xs == init + [last];
      assert multiset(xs) == multiset(init) + multiset{last};
      Insert(sorted, last, before)
  }

  /** A sorted sequence stays sorted when an element that precedes none of it is appended. */
  lemma SortedSnoc<T>(s: seq<T>, y: T, before: (T, T) -> bool)
    requires Sorted(s, before)
    requires forall i :: 0 <= i < |s| ==> !before(y, s[i])
    ensures Sorted(s + [y], before)
  {
    var r := s + [y];
    forall i, j | 0 <= i < j < |r| ensures !before(r[j], r[i]) {
      assert r[i] == s[i];
      if j < |s| {
        assert r[j] == s[j];
      }
    }
  }

  lemma {:induction false} InsertSorted<T(!new)>(s: seq<T>, x: T, before: (T, T) -> bool)
    requires StrictWeakOrder(before)
    requires Sorted(s, before)
    ensures Sorted(Insert(s, x, before), before)
  {
    if s != [] {
      var init, last := s[..|s| - 1], s[|s| - 1];
      assert Sorted(init, before) by {
        forall i, j | 0 <= i < j < |init| ensures !before(init[j], init[i]) {
          assert init[i] == s[i] && init[j] == s[j];
        }
      }
      if before(x, last) {
        InsertSorted(init, x, before);
        var r' := Insert(init, x, before);
        forall i | 0 <= i < |r'|
          ensures !before(last, r'[i])
        {
          assert r'[i] in multiset(r');
          if r'[i] != x {
            assert r'[i] in multiset(init);
            var k :| 0 <= k < |init| && init[k] == r'[i];
            assert s[k] == init[k];
          }
        }
        SortedSnoc(r', last, before);
      } else {
        forall i | 0 <= i < |s|
          ensures !before(x, s[i])
        {
          if i < |s| - 1 {
            assert !before(last, s[i]);
          }
        }
        SortedSnoc(s, x, before);
      }
    }
  }

  lemma {:induction false} SortBySorted<T(!new)>(xs: seq<T>, before: (T, T) -> bool)
    requires StrictWeakOrder(before)
    ensures Sorted(SortBy(xs, before), before)
  {
    if xs != [] {
      SortBySorted(xs[..|xs| - 1], before);
      InsertSorted(SortBy(xs[..|xs| - 1], before), xs[|xs| - 1], before);
    }
  }

  /** No two elements equivalent to `v` are strictly ordered. */
  ghost predicate ClassUnordered<T(!new)>(before: (T, T) -> bool, v: T)
  {
    forall a, b :: before(a, b) ==> !Equivalent(before, a, v) || !Equivalent(before, b, v)
  }

  /** A strict weak order leaves every equivalence class unordered. */
  lemma StrictWeakOrderClasses<T(!new)>(before: (T, T) -> bool, v: T)
    requires StrictWeakOrder(before)
    ensures ClassUnordered(before, v)
  {
    forall a, b | before(a, b) ensures !Equivalent(before, a, v) || !Equivalent(before, b, v) {
      assert before(a, v) || before(v, b);
    }
  }

  /** Appending one element extends its class by it, and no other class. */
  lemma ClassOfSnoc<T>(s: seq<T>, y: T, before: (T, T) -> bool, v: T)
    ensures ClassOf(s + [y], before, v) == ClassOf(s, before, v) + (if Equivalent(before, y, v) then [y] else [])
  {
    assert (s + [y])[..|s + [y]| - 1] == s;
  }

  lemma {:induction false} InsertClass<T(!new)>(s: seq<T>, x: T, before: (T, T) -> bool, v: T)
    requires ClassUnordered(before, v)
    ensures ClassOf(Insert(s, x, before), before, v)
         == ClassOf(s, before, v) + (if Equivalent(before, x, v) then [x] else [])
  {
    if s == [] {
      ClassOfSnoc([], x, before, v);
      assert [] + [x] == [x];
    } else {
      var init, last := s[..|s| - 1], s[|s| - 1];
      assert s == init + [last];
      ClassOfSnoc(init, last, before, v);
      if before(x, last) {
        var r' := Insert(init, x, before);
        InsertClass(init, x, before, v);
        ClassOfSnoc(r', last, before, v);
        InsertClassSwap(ClassOf(init, before, v), x, last, before, v);
      } else {
        ClassOfSnoc(s, x, before, v);
      }
    }
  }

  /** An element that must precede `last` cannot share a class with it. */
  lemma InsertClassSwap<T(!new)>(c: seq<T>, x: T, last: T, before: (T, T) -> bool, v: T)
    requires ClassUnordered(before, v) && before(x, last)
    ensures var xs, ls := (if Equivalent(before, x, v) then [x] else []), (if Equivalent(before, last, v) then [last] else []);
      c + xs + ls == c + ls + xs
  {
  }

  lemma {:induction false} SortByStable<T(!new)>(xs: seq<T>, before: (T, T) -> bool)
    requires StrictWeakOrder(before)
    ensures StablyOrdered(SortBy(xs, before), xs, before)
  {
    forall v
      ensures ClassOf(SortBy(xs, before), before, v) == ClassOf(xs, before, v)
    {
      SortByStableAt(xs, before, v);
    }
  }

  lemma {:induction false} SortByStableAt<T(!new)>(xs: seq<T>, before: (T, T) -> bool, v: T)
    requires StrictWeakOrder(before)
    ensures ClassOf(SortBy(xs, before), before, v) == ClassOf(xs, before, v)
  {
    if xs != [] {
      SortByStableAt(xs[..|xs| - 1], before, v);
      StrictWeakOrderClasses(before, v);
      InsertClass(SortBy(xs[..|xs| - 1], before), xs[|xs| - 1], before, v);
    }
  }

  lemma {:induction false} DistinctMultiplicity<T>(s: seq<T>, x: T)
    requires forall i, j :: 0 <= i < j < |s| ==> s[i] != s[j]
    ensures multiset(s)[x] <= 1
  {
    if s != [] {
      var init := s[..|s| - 1];
      assert s == init + [s[|s| - 1]];
      DistinctMultiplicity(init, x);
      if s[|s| - 1] == x {
        assert x !in init;
      }
    }
  }

  lemma RepeatedMultiplicity<T>(s: seq<T>, i: nat, j: nat)
    requires i < j < |s| && s[i] == s[j]
    ensures multiset(s)[s[i]] >= 2
  {
    assert s == s[..i] + [s[i]] + s[i + 1..j] + [s[j]] + s[j + 1..];
  }

  /** Reordering a list whose elements have pairwise distinct keys keeps the keys distinct. */
  lemma PermutationKeepsDistinct<T, K>(r: seq<T>, s: seq<T>, key: T -> K)
    requires multiset(r) == multiset(s)
    requires forall i, j :: 0 <= i < j < |s| ==> key(s[i]) != key(s[j])
    ensures forall i, j :: 0 <= i < j < |r| ==> key(r[i]) != key(r[j])
  {
    forall i, j | 0 <= i < j < |r|
      ensures key(r[i]) != key(r[j])
    {
      if key(r[i]) == key(r[j]) {
        assert r[i] in multiset(s) && r[j] in multiset(s);
        var i' :| 0 <= i' < |s| && s[i'] == r[i];
        var j' :| 0 <= j' < |s| && s[j'] == r[j];
        assert i' == j';
        RepeatedMultiplicity(r, i, j);
        DistinctMultiplicity(s, r[i]);
        assert false;
      }
    }
  }
}
