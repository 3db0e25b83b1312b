/**
 * Kotlin's `groupBy`: a LinkedHashMap filled front to back, so groups come out in
 * the order in which their keys first occur and each group keeps the input order.
 *
 * `GroupBy` is that fold; `Keys` and `Select` are the independent description of
 * its result (the distinct keys in first-occurrence order, and per key the elements
 * carrying it), and `GroupByIsPartition` proves the two agree.
 */
module Grouping {
  import opened Wrappers

  ghost predicate Distinct<K>(ks: seq<K>)
  {
    forall i, j :: 0 <= i < j < |ks| ==> ks[i] != ks[j]
  }

  /** The distinct keys of `xs`, in order of first occurrence. */
  function Keys<T, K(==)>(xs: seq<T>, key: T -> K): seq<K>
  {
    if xs == [] then []
    else
      var ks := Keys(xs[..|xs| - 1], key);
      if key(xs[|xs| - 1]) in ks then ks else ks + [key(xs[|xs| - 1])]
  }

  /** The elements of `xs` whose key is `k`, in input order. */
  function Select<T, K(==)>(xs: seq<T>, key: T -> K, k: K): seq<T>
  {
    if xs == [] then []
    else Select(xs[..|xs| - 1], key, k) + (if key(xs[|xs| - 1]) == k then [xs[|xs| - 1]] else [])
  }

  function GroupKeys<T, K>(gs: seq<(K, seq<T>)>): (ks: seq<K>)
    ensures |ks| == |gs| && forall i :: 0 <= i < |gs| ==> ks[i] == gs[i].0
  {
    seq(|gs|, i requires 0 <= i < |gs| => gs[i].0)
  }

  ghost predicate NonEmptyGroups<T, K>(gs: seq<(K, seq<T>)>)
  {
    forall i :: 0 <= i < |gs| ==> |gs[i].1| > 0
  }

  /** One step of the map fill: append `x` to the group of `k`, opening it at the end if new. */
  function Add<T, K(==)>(gs: seq<(K, seq<T>)>, k: K, x: T): (r: seq<(K, seq<T>)>)
    ensures NonEmptyGroups(gs) ==> NonEmptyGroups(r)
  {
    if gs == [] then [(k, [x])]
    else if gs[0].0 == k then [(k, gs[0].1 + [x])] + gs[1..]
    else [gs[0]] + Add(gs[1..], k, x)
  }

  function GroupBy<T, K(==)>(xs: seq<T>, key: T -> K): (gs: seq<(K, seq<T>)>)
    ensures NonEmptyGroups(gs)
  {
    if xs == [] then []
    else Add(GroupBy(xs[..|xs| - 1], key), key(xs[|xs| - 1]), xs[|xs| - 1])
  }

  /** The group stored under `k`, if any (a LinkedHashMap `get`). */
  function Lookup<T, K(==)>(gs: seq<(K, seq<T>)>, k: K): (r: Option<seq<T>>)
    ensures r.None? <==> k !in GroupKeys(gs)
    ensures r.Some? ==> exists i :: 0 <= i < |gs| && gs[i] == (k, r.value)
  {
    if gs == [] then None
    else if gs[0].0 == k then Some(gs[0].1)
    else
      var r := Lookup(gs[1..], k);
      assert r.Some? ==> exists i :: 0 <= i < |gs[1..]| && gs[1..][i] == (k, r.value);
      r
  }

  lemma {:induction false} KeysDistinct<T, K>(xs: seq<T>, key: T -> K)
    ensures Distinct(Keys(xs, key))
  {
    if xs != [] {
      KeysDistinct(xs[..|xs| - 1], key);
    }
  }

  lemma {:induction false} KeysMembership<T, K>(xs: seq<T>, key: T -> K, k: K)
    ensures k in Keys(xs, key) <==> exists i :: 0 <= i < |xs| && key(xs[i]) == k
  {
    if xs != [] {
      var init := xs[..|xs| - 1];
      KeysMembership(init, key, k);
      if exists i :: 0 <= i < |xs| && key(xs[i]) == k {
        var i :| 0 <= i < |xs| && key(xs[i]) == k;
        if i < |xs| - 1 {
          assert key(init[i]) == k;
        }
      }
      if exists i :: 0 <= i < |init| && key(init[i]) == k {
        var i :| 0 <= i < |init| && key(init[i]) == k;
        assert key(xs[i]) == k;
      }
    }
  }

  lemma {:induction false} SelectMembership<T, K>(xs: seq<T>, key: T -> K, k: K, y: T)
    ensures y in Select(xs, key, k) <==> y in xs && key(y) == k
  {
    if xs != [] {
      var init := xs[..|xs| - 1];
      SelectMembership(init, key, k, y);
      assert xs == init + [xs[|xs| - 1]];
    }
  }

  lemma {:induction false} SelectEmpty<T, K>(xs: seq<T>, key: T -> K, k: K)
    ensures Select(xs, key, k) == [] <==> k !in Keys(xs, key)
  {
    if xs != [] {
      SelectEmpty(xs[..|xs| - 1], key, k);
    }
  }

  lemma {:induction false} AddSpec<T, K>(gs: seq<(K, seq<T>)>, k: K, x: T)
    requires Distinct(GroupKeys(gs))
    ensures var r := Add(gs, k, x);
      && |r| == (if k in GroupKeys(gs) then |gs| else |gs| + 1)
      && (forall i :: 0 <= i < |gs| ==> r[i] == if gs[i].0 == k then (k, gs[i].1 + [x]) else gs[i])
      && (k !in GroupKeys(gs) ==> r[|gs|] == (k, [x]))
  {
    if gs != [] && gs[0].0 != k {
      var tail := gs[1..];
      assert GroupKeys(tail) == GroupKeys(gs)[1..];
      AddSpec(tail, k, x);
      assert k in GroupKeys(gs) <==> k in GroupKeys(tail);
    } else if gs != [] {
      assert k in GroupKeys(gs) by { assert GroupKeys(gs)[0] == k; }
    }
  }

  /** The fold yields one group per distinct key, in first-occurrence order, holding exactly that key's elements. */
  lemma {:induction false} GroupByIsPartition<T, K>(xs: seq<T>, key: T -> K)
    ensures GroupKeys(GroupBy(xs, key)) == Keys(xs, key)
    ensures forall i :: 0 <= i < |GroupBy(xs, key)| ==>
      GroupBy(xs, key)[i] == (Keys(xs, key)[i], Select(xs, key, Keys(xs, key)[i]))
  {
    if xs != [] {
      var init, x := xs[..|xs| - 1], xs[|xs| - 1];
      GroupByIsPartition(init, key);
      KeysDistinct(init, key);
      PartitionStep(init, x, key);
      assert init + [x] == xs;
    }
  }

  lemma PartitionStep<T, K>(init: seq<T>, x: T, key: T -> K)
    requires GroupKeys(GroupBy(init, key)) == Keys(init, key)
    requires forall i :: 0 <= i < |GroupBy(init, key)| ==>
      GroupBy(init, key)[i] == (Keys(init, key)[i], Select(init, key, Keys(init, key)[i]))
    requires Distinct(Keys(init, key))
    ensures var xs := init + [x];
      && GroupKeys(GroupBy(xs, key)) == Keys(xs, key)
      && forall i :: 0 <= i < |GroupBy(xs, key)| ==>
           GroupBy(xs, key)[i] == (Keys(xs, key)[i], Select(xs, key, Keys(xs, key)[i]))
  {
    var xs := init + [x];
    assert xs[..|xs| - 1] == init;
    var gs, ks, k := GroupBy(init, key), Keys(init, key), key(x);
    AddSpec(gs, k, x);
    var r := Add(gs, k, x);
    assert r == GroupBy(xs, key);
    var ks' := Keys(xs, key);
    assert ks' == if k in ks then ks else ks + [k];
    if k !in ks {
      SelectEmpty(init, key, k);
    }
    forall i | 0 <= i < |r|
      ensures r[i] == (ks'[i], Select(xs, key, ks'[i]))
    {
      var kk := ks'[i];
      assert Select(xs, key, kk) == Select(init, key, kk) + (if k == kk then [x] else []);
      if i < |gs| {
        assert gs[i] == (ks[i], Select(init, key, ks[i]));
        assert kk == ks[i];
        if gs[i].0 == k {
          assert r[i] == (k, gs[i].1 + [x]);
          assert r[i].1 == Select(xs, key, kk);
        } else {
          assert r[i] == gs[i];
          assert Select(xs, key, kk) == Select(init, key, kk);
          assert r[i].1 == Select(xs, key, kk);
        }
        assert r[i] == (kk, Select(xs, key, kk));
      } else {
        assert k !in ks && i == |gs| && kk == k;
        assert r[i] == (k, [x]);
        assert Select(init, key, k) == [];
        assert r[i].1 == Select(xs, key, kk);
        assert r[i] == (kk, Select(xs, key, kk));
      }
    }
    assert GroupKeys(r) == ks';
  }

  /** Every group is nonempty and its key is carried by its elements, which are input elements. */
  lemma GroupMembers<T, K>(xs: seq<T>, key: T -> K, i: nat, y: T)
    requires i < |GroupBy(xs, key)|
    ensures y in GroupBy(xs, key)[i].1 <==> y in xs && key(y) == GroupBy(xs, key)[i].0
  {
    GroupByIsPartition(xs, key);
    SelectMembership(xs, key, GroupBy(xs, key)[i].0, y);
  }

  /** When every element carries the same key, there is a single group holding the whole input. */
  lemma {:induction false} SingleGroup<T, K>(xs: seq<T>, key: T -> K, k: K)
    requires |xs| > 0
    requires forall i :: 0 <= i < |xs| ==> key(xs[i]) == k
    ensures GroupBy(xs, key) == [(k, xs)]
  {
    var init := xs[..|xs| - 1];
    if init != [] {
      SingleGroup(init, key, k);
    }
    assert init + [xs[|xs| - 1]] == xs;
  }

  /** Looking a key up in the grouped map gives exactly that key's elements, or nothing for an absent key. */
  lemma LookupGroupBy<T, K>(xs: seq<T>, key: T -> K, k: K)
    ensures Lookup(GroupBy(xs, key), k) == if k in Keys(xs, key) then Some(Select(xs, key, k)) else None
  {
    GroupByIsPartition(xs, key);
    var gs := GroupBy(xs, key);
    var r := Lookup(gs, k);
    if r.Some? {
      var i :| 0 <= i < |gs| && gs[i] == (k, r.value);
      assert GroupKeys(gs)[i] == k;
    }
  }

  /** The set of keys that occur in `xs`. */
  ghost function KeySet<T, K>(xs: seq<T>, key: T -> K): set<K>
  {
    set x | x in xs :: key(x)
  }

  /** The number of distinct keys (`distinct().size`) is the size of the set of keys, at most the input length. */
  lemma {:induction false} KeysCount<T, K>(xs: seq<T>, key: T -> K)
    ensures |Keys(xs, key)| == |KeySet(xs, key)|
    ensures |Keys(xs, key)| <= |xs|
    ensures |xs| > 0 ==> |Keys(xs, key)| > 0
  {
    if xs != [] {
      var init, last := xs[..|xs| - 1], xs[|xs| - 1];
      KeysCount(init, key);
      assert xs == init + [last];
      var before, after := KeySet(init, key), KeySet(xs, key);
      assert after == before + {key(last)};
      KeysMembership(init, key, key(last));
      if key(last) in Keys(init, key) {
        var i :| 0 <= i < |init| && key(init[i]) == key(last);
        assert key(last) in before;
        assert after == before;
      } else {
        assert key(last) !in before;
      }
    }
  }
}
