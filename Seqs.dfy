/**
 * The LINQ operators the monitor's timer callback chains together, over
 * sequences: `Where` on a key (Select), the distinct keys in order of first
 * appearance (Keys), `GroupBy` (built one element at a time, as LINQ's
 * lookup does), the `Count()` filters on groups (KeepGroups), and the
 * stable `OrderBy` (an insertion sort).
 */
module Seqs {

  /** The elements of `xs` whose key is `k`, in their order in `xs`. */
  function Select<T, K(==)>(xs: seq<T>, key: T -> K, k: K): (r: seq<T>)
    ensures |r| <= |xs|
  {
    if xs == [] then []
    else
      var init, last := xs[..|xs| - 1], xs[|xs| - 1];
      Select(init, key, k) + (if key(last) == k then [last] else [])
  }

  /** What Select keeps has the key asked for and comes from `xs`. */
  lemma {:induction false} SelectMembers<T, K>(xs: seq<T>, key: T -> K, k: K)
    ensures forall i :: 0 <= i < |Select(xs, key, k)| ==> key(Select(xs, key, k)[i]) == k
    ensures multiset(Select(xs, key, k)) <= multiset(xs)
  {
    if xs != [] {
      var init, last := xs[..|xs| - 1], xs[|xs| - 1];
      SelectMembers(init, key, k);
      assert xs == init + [last];
    }
  }

  lemma {:induction false} SelectConcat<T, K>(a: seq<T>, b: seq<T>, key: T -> K, k: K)
    ensures Select(a + b, key, k) == Select(a, key, k) + Select(b, key, k)
    decreases |b|
  {
    if b == [] {
      assert a + b == a;
    } else {
      var binit := b[..|b| - 1];
      assert (a + b)[..|a + b| - 1] == a + binit;
      SelectConcat(a, binit, key, k);
    }
  }

  /** The distinct keys of `xs` in the order in which they first appear. */
  function Keys<T, K(==)>(xs: seq<T>, key: T -> K): (ks: seq<K>)
    ensures forall i, j :: 0 <= i < j < |ks| ==> ks[i] != ks[j]
    ensures forall i :: 0 <= i < |xs| ==> key(xs[i]) in ks
    ensures |ks| <= |xs|
  {
    if xs == [] then []
    else
      var init, last := xs[..|xs| - 1], xs[|xs| - 1];
      var ks0 := Keys(init, key);
      assert forall i :: 0 <= i < |init| ==> xs[i] == init[i];
      if key(last) in ks0 then ks0 else ks0 + [key(last)]
  }

  /** A key selects something exactly when it is among the keys of `xs`. */
  lemma {:induction false} SelectNonEmptyIffKey<T, K>(xs: seq<T>, key: T -> K, k: K)
    ensures Select(xs, key, k) != [] <==> k in Keys(xs, key)
  {
    if xs != [] {
      var init, last := xs[..|xs| - 1], xs[|xs| - 1];
      SelectNonEmptyIffKey(init, key, k);
    }
  }

  /** Every key of `xs` is the key of one of its elements. */
  lemma {:induction false} KeysOccur<T, K>(xs: seq<T>, key: T -> K)
    ensures forall k :: k in Keys(xs, key) ==> exists i :: 0 <= i < |xs| && key(xs[i]) == k
  {
    if xs != [] {
      var init := xs[..|xs| - 1];
      KeysOccur(init, key);
      forall k | k in Keys(xs, key) ensures exists i :: 0 <= i < |xs| && key(xs[i]) == k {
        if k in Keys(init, key) {
          var i :| 0 <= i < |init| && key(init[i]) == k;
          assert xs[i] == init[i];
        } else {
          assert key(xs[|xs| - 1]) == k;
        }
      }
    }
  }

  /** Some element of key `k1` comes before every element of key `k2`. */
  ghost predicate OccursBefore<T, K>(xs: seq<T>, key: T -> K, k1: K, k2: K)
  {
    exists p :: 0 <= p < |xs| && key(xs[p]) == k1 && forall q :: 0 <= q <= p ==> key(xs[q]) != k2
  }

  lemma OccursBeforeSnoc<T, K>(xs: seq<T>, key: T -> K, k1: K, k2: K)
    requires xs != [] && OccursBefore(xs[..|xs| - 1], key, k1, k2)
    ensures OccursBefore(xs, key, k1, k2)
  {
    var init := xs[..|xs| - 1];
    var p :| 0 <= p < |init| && key(init[p]) == k1 && forall q :: 0 <= q <= p ==> key(init[q]) != k2;
    assert key(xs[p]) == k1;
    forall q | 0 <= q <= p ensures key(xs[q]) != k2 {
      assert xs[q] == init[q];
    }
  }

  /** A key of `init` occurs before a key that first appears after `init`. */
  lemma OccursBeforeNew<T, K>(xs: seq<T>, key: T -> K, k1: K)
    requires xs != [] && k1 in Keys(xs[..|xs| - 1], key)
    requires key(xs[|xs| - 1]) !in Keys(xs[..|xs| - 1], key)
    ensures OccursBefore(xs, key, k1, key(xs[|xs| - 1]))
  {
    var init := xs[..|xs| - 1];
    KeysOccur(init, key);
    var p :| 0 <= p < |init| && key(init[p]) == k1;
    assert key(xs[p]) == k1;
    forall q | 0 <= q <= p ensures key(xs[q]) != key(xs[|xs| - 1]) {
      assert xs[q] == init[q];
      assert key(init[q]) in Keys(init, key);
    }
  }

  /**
   * The keys come in order of first appearance: an earlier key occurs in
   * `xs` before any element of a later key.
   */
  lemma {:induction false} KeysInFirstAppearanceOrder<T, K>(xs: seq<T>, key: T -> K)
    ensures forall a, b :: 0 <= a < b < |Keys(xs, key)| ==>
      OccursBefore(xs, key, Keys(xs, key)[a], Keys(xs, key)[b])
  {
    if xs != [] {
      var init, last := xs[..|xs| - 1], xs[|xs| - 1];
      var ks0, ks := Keys(init, key), Keys(xs, key);
      KeysInFirstAppearanceOrder(init, key);
      forall a, b | 0 <= a < b < |ks| ensures OccursBefore(xs, key, ks[a], ks[b]) {
        if b < |ks0| {
          assert ks[a] == ks0[a] && ks[b] == ks0[b];
          assert OccursBefore(init, key, ks0[a], ks0[b]);
          OccursBeforeSnoc(xs, key, ks[a], ks[b]);
        } else {
          assert ks == ks0 + [key(last)] && ks[b] == key(last) && ks[a] == ks0[a];
          OccursBeforeNew(xs, key, ks[a]);
        }
      }
    }
  }

  /** Adds `x` to the group of its key, or opens a new group at the end. */
  function AddTo<T, K(==)>(gs: seq<(K, seq<T>)>, x: T, key: T -> K): (r: seq<(K, seq<T>)>)
    ensures SumSizes(r) == SumSizes(gs) + 1
  {
    if gs == [] then [(key(x), [x])]
    else if gs[0].0 == key(x) then [(gs[0].0, gs[0].1 + [x])] + gs[1..]
    else [gs[0]] + AddTo(gs[1..], x, key)
  }

  /** `xs.GroupBy(key)`: one group per key, in order of first appearance, each holding its elements in order. */
  function GroupBy<T, K(==)>(xs: seq<T>, key: T -> K): (gs: seq<(K, seq<T>)>)
    ensures SumSizes(gs) == |xs|
  {
    if xs == [] then [] else AddTo(GroupBy(xs[..|xs| - 1], key), xs[|xs| - 1], key)
  }

  /** The total number of elements over all groups. */
  function SumSizes<K, T>(gs: seq<(K, seq<T>)>): nat
  {
    if gs == [] then 0 else |gs[0].1| + SumSizes(gs[1..])
  }

  lemma {:induction false} AddToExisting<T, K>(gs: seq<(K, seq<T>)>, x: T, key: T -> K, j: nat)
    requires j < |gs| && gs[j].0 == key(x)
    requires forall i :: 0 <= i < |gs| && i != j ==> gs[i].0 != key(x)
    ensures AddTo(gs, x, key) == gs[j := (gs[j].0, gs[j].1 + [x])]
  {
    if j > 0 {
      AddToExisting(gs[1..], x, key, j - 1);
    }
  }

  lemma {:induction false} AddToFresh<T, K>(gs: seq<(K, seq<T>)>, x: T, key: T -> K)
    requires forall i :: 0 <= i < |gs| ==> gs[i].0 != key(x)
    ensures AddTo(gs, x, key) == gs + [(key(x), [x])]
  {
    if gs != [] {
      AddToFresh(gs[1..], x, key);
    }
  }

  /** `gs` is the grouping of `xs`: the i-th group is the i-th key with exactly its elements. */
  ghost predicate IsGrouping<T, K>(gs: seq<(K, seq<T>)>, xs: seq<T>, key: T -> K)
  {
    var ks := Keys(xs, key);
    |gs| == |ks| && forall i :: 0 <= i < |gs| ==> gs[i] == (ks[i], Select(xs, key, ks[i]))
  }

  lemma SelectSnoc<T, K>(init: seq<T>, x: T, key: T -> K, k: K)
    ensures Select(init + [x], key, k) == Select(init, key, k) + (if key(x) == k then [x] else [])
  {
    assert (init + [x])[..|init|] == init;
  }

  lemma AddToKeepsGrouping<T, K>(g0: seq<(K, seq<T>)>, init: seq<T>, x: T, key: T -> K)
    requires IsGrouping(g0, init, key)
    ensures IsGrouping(AddTo(g0, x, key), init + [x], key)
  {
    var xs := init + [x];
    assert xs[..|xs| - 1] == init;
    var ks0, ks := Keys(init, key), Keys(xs, key);
    var gs := AddTo(g0, x, key);
    if key(x) in ks0 {
      var j :| 0 <= j < |ks0| && ks0[j] == key(x);
      AddToExisting(g0, x, key, j);
      assert ks == ks0;
      forall i | 0 <= i < |gs| ensures gs[i] == (ks[i], Select(xs, key, ks[i])) {
        SelectSnoc(init, x, key, ks[i]);
        assert g0[i] == (ks0[i], Select(init, key, ks0[i]));
        if i == j {
          assert gs[i] == (ks0[i], Select(init, key, ks0[i]) + [x]);
        } else {
          assert ks0[i] != key(x);
          assert gs[i] == g0[i];
          assert Select(init, key, ks0[i]) + [] == Select(init, key, ks0[i]);
        }
      }
    } else {
      AddToFresh(g0, x, key);
      SelectNonEmptyIffKey(init, key, key(x));
      assert ks == ks0 + [key(x)];
      forall i | 0 <= i < |gs| ensures gs[i] == (ks[i], Select(xs, key, ks[i])) {
        SelectSnoc(init, x, key, ks[i]);
        if i == |ks0| {
          assert gs[i] == (key(x), [x]);
          assert Select(init, key, key(x)) + [x] == [x];
        } else {
          assert ks[i] == ks0[i] != key(x);
          assert gs[i] == g0[i] == (ks0[i], Select(init, key, ks0[i]));
          assert Select(init, key, ks0[i]) + [] == Select(init, key, ks0[i]);
        }
      }
    }
  }

  /**
   * GroupBy agrees with its reference definition: the i-th group is the
   * i-th distinct key together with exactly the elements of that key.
   */
  lemma {:induction false} GroupByIsSelectByKeys<T, K>(xs: seq<T>, key: T -> K)
    ensures IsGrouping(GroupBy(xs, key), xs, key)
  {
    if xs != [] {
      var init, x := xs[..|xs| - 1], xs[|xs| - 1];
      GroupByIsSelectByKeys(init, key);
      AddToKeepsGrouping(GroupBy(init, key), init, x, key);
      assert init + [x] == xs;
    }
  }

  /** Every group GroupBy forms is non-empty. */
  lemma GroupsNonEmpty<T, K>(xs: seq<T>, key: T -> K, i: nat)
    requires i < |GroupBy(xs, key)|
    ensures |GroupBy(xs, key)[i].1| >= 1
  {
    GroupByIsSelectByKeys(xs, key);
    SelectNonEmptyIffKey(xs, key, Keys(xs, key)[i]);
  }

  /** `gs.Where(g => g.Count() >= least)`, keeping the order of the groups. */
  function KeepGroups<K, T>(gs: seq<(K, seq<T>)>, least: int): (r: seq<(K, seq<T>)>)
    ensures |r| <= |gs|
  {
    if gs == [] then []
    else (if |gs[0].1| >= least then [gs[0]] else []) + KeepGroups(gs[1..], least)
  }

  /** KeepGroups keeps exactly the groups with at least `least` elements. */
  lemma {:induction false} KeepGroupsMembers<K, T>(gs: seq<(K, seq<T>)>, least: int)
    ensures forall i :: 0 <= i < |KeepGroups(gs, least)| ==>
      KeepGroups(gs, least)[i] in gs && |KeepGroups(gs, least)[i].1| >= least
    ensures forall i :: 0 <= i < |gs| && |gs[i].1| >= least ==> gs[i] in KeepGroups(gs, least)
  {
    if gs != [] {
      var tail := gs[1..];
      KeepGroupsMembers(tail, least);
      var rest := KeepGroups(tail, least);
      var head: seq<(K, seq<T>)> := if |gs[0].1| >= least then [gs[0]] else [];
      var r := head + rest;
      assert KeepGroups(gs, least) == r;
      forall i | 0 <= i < |r| ensures r[i] in gs && |r[i].1| >= least {
        if i >= |head| {
          assert r[i] == rest[i - |head|];
          assert rest[i - |head|] in tail;
        }
      }
      forall i | 0 <= i < |gs| && |gs[i].1| >= least ensures gs[i] in r {
        if i > 0 {
          assert gs[i] == tail[i - 1];
        }
      }
    }
  }

  lemma KeptIn<K, T>(gs: seq<(K, seq<T>)>, least: int, i: nat)
    requires i < |KeepGroups(gs, least)|
    ensures KeepGroups(gs, least)[i] in gs
  {
    KeepGroupsMembers(gs, least);
  }

  /** `x` comes before `y` in `gs`. */
  ghost predicate InOrder<T>(gs: seq<T>, x: T, y: T)
  {
    exists a, b :: 0 <= a < b < |gs| && gs[a] == x && gs[b] == y
  }

  lemma InOrderCons<T>(gs: seq<T>, x: T, y: T)
    requires gs != [] && InOrder(gs[1..], x, y)
    ensures InOrder(gs, x, y)
  {
    var a, b :| 0 <= a < b < |gs[1..]| && gs[1..][a] == x && gs[1..][b] == y;
    assert gs[a + 1] == x && gs[b + 1] == y;
  }

  lemma InOrderHead<T>(gs: seq<T>, y: T)
    requires gs != [] && y in gs[1..]
    ensures InOrder(gs, gs[0], y)
  {
    var b :| 0 <= b < |gs[1..]| && gs[1..][b] == y;
    assert gs[b + 1] == y;
  }

  /** KeepGroups keeps the groups it keeps in their order. */
  lemma {:induction false} KeepGroupsInOrder<K, T>(gs: seq<(K, seq<T>)>, least: int)
    ensures forall i, j :: 0 <= i < j < |KeepGroups(gs, least)| ==>
      InOrder(gs, KeepGroups(gs, least)[i], KeepGroups(gs, least)[j])
  {
    if gs != [] {
      var tail := gs[1..];
      KeepGroupsInOrder(tail, least);
      var rest := KeepGroups(tail, least);
      var head: seq<(K, seq<T>)> := if |gs[0].1| >= least then [gs[0]] else [];
      var r := head + rest;
      assert KeepGroups(gs, least) == r;
      forall i, j | 0 <= i < j < |r| ensures InOrder(gs, r[i], r[j]) {
        if i < |head| {
          assert r[i] == gs[0];
          assert r[j] == rest[j - 1];
          KeptIn(tail, least, j - 1);
          InOrderHead(gs, r[j]);
        } else {
          var i', j' := i - |head|, j - |head|;
          assert 0 <= i' < j' < |rest|;
          assert r[i] == rest[i'] && r[j] == rest[j'];
          assert InOrder(tail, rest[i'], rest[j']);
          InOrderCons(gs, r[i], r[j]);
        }
      }
    }
  }

  /** Every group of `gs` has at least `least` elements. */
  ghost predicate AllAtLeast<K, T>(gs: seq<(K, seq<T>)>, least: int)
  {
    forall i :: 0 <= i < |gs| ==> |gs[i].1| >= least
  }

  lemma {:induction false} KeepAll<K, T>(gs: seq<(K, seq<T>)>, least: int)
    requires AllAtLeast(gs, least)
    ensures KeepGroups(gs, least) == gs
  {
    if gs != [] {
      KeepAll(gs[1..], least);
    }
  }

  /** A relation that is reflexive, antisymmetric, transitive and total. */
  ghost predicate TotalOrder<K(!new)>(le: (K, K) -> bool)
  {
    && (forall a :: le(a, a))
    && (forall a, b :: le(a, b) && le(b, a) ==> a == b)
    && (forall a, b, c :: le(a, b) && le(b, c) ==> le(a, c))
    && (forall a, b :: le(a, b) || le(b, a))
  }

  ghost predicate SortedBy<T, K>(s: seq<T>, key: T -> K, le: (K, K) -> bool)
  {
    forall i, j :: 0 <= i < j < |s| ==> le(key(s[i]), key(s[j]))
  }

  /** Inserts `x` in front of the first element whose key is not below that of `x`. */
  function InsertBy<T, K>(x: T, s: seq<T>, key: T -> K, le: (K, K) -> bool): (r: seq<T>)
    ensures multiset(r) == multiset(s) + multiset{x}
  {
    if s == [] || le(key(x), key(s[0])) then [x] + s
    else
      assert s == [s[0]] + s[1..];
      [s[0]] + InsertBy(x, s[1..], key, le)
  }

  /** `xs.OrderBy(key)`: a stable sort by key. */
  function SortBy<T, K>(xs: seq<T>, key: T -> K, le: (K, K) -> bool): (r: seq<T>)
    ensures multiset(r) == multiset(xs)
    ensures |r| == |xs|
  {
    if xs == [] then []
    else
      assert xs == [xs[0]] + xs[1..];
      var r := InsertBy(xs[0], SortBy(xs[1..], key, le), key, le);
      assert |r| == |multiset(r)|;
      r
  }

  lemma {:induction false} InsertBySorted<T, K(!new)>(x: T, s: seq<T>, key: T -> K, le: (K, K) -> bool)
    requires TotalOrder(le) && SortedBy(s, key, le)
    ensures SortedBy(InsertBy(x, s, key, le), key, le)
  {
    if s != [] && !le(key(x), key(s[0])) {
      var rest := InsertBy(x, s[1..], key, le);
      InsertBySorted(x, s[1..], key, le);
      forall j | 0 <= j < |rest| ensures le(key(s[0]), key(rest[j])) {
        assert rest[j] in multiset(s[1..]) + multiset{x};
        if rest[j] != x {
          var m :| 0 <= m < |s[1..]| && s[1..][m] == rest[j];
          assert s[m + 1] == rest[j];
        }
      }
    }
  }

  /** OrderBy orders by key. */
  lemma {:induction false} SortBySorted<T, K(!new)>(xs: seq<T>, key: T -> K, le: (K, K) -> bool)
    requires TotalOrder(le)
    ensures SortedBy(SortBy(xs, key, le), key, le)
  {
    if xs != [] {
      SortBySorted(xs[1..], key, le);
      InsertBySorted(xs[0], SortBy(xs[1..], key, le), key, le);
    }
  }

  /** Selecting from a sequence with a given first element. */
  lemma SelectCons<T, K>(y: T, t: seq<T>, key: T -> K, k: K)
    ensures Select([y] + t, key, k) == (if key(y) == k then [y] else []) + Select(t, key, k)
  {
    SelectConcat([y], t, key, k);
    SelectSingleton(y, key, k);
  }

  lemma SelectSingleton<T, K>(y: T, key: T -> K, k: K)
    ensures Select([y], key, k) == if key(y) == k then [y] else []
  {
    var none: seq<T> := [];
    assert [y][..0] == none;
    assert [y][0] == y;
    assert Select(none, key, k) == [];
  }

  lemma {:induction false} InsertByStable<T, K(!new)>(x: T, s: seq<T>, key: T -> K, le: (K, K) -> bool, k: K)
    requires forall a :: le(a, a)
    ensures Select(InsertBy(x, s, key, le), key, k) == (if key(x) == k then [x] else []) + Select(s, key, k)
  {
    var cx := if key(x) == k then [x] else [];
    if s == [] || le(key(x), key(s[0])) {
      SelectCons(x, s, key, k);
    } else {
      var rest := InsertBy(x, s[1..], key, le);
      var c0 := if key(s[0]) == k then [s[0]] else [];
      assert InsertBy(x, s, key, le) == [s[0]] + rest;
      SelectCons(s[0], rest, key, k);
      InsertByStable(x, s[1..], key, le, k);
      SelectCons(s[0], s[1..], key, k);
      ConsSplit(s);
      var tail := Select(s[1..], key, k);
      assert le(key(x), key(x));
      SwapEmpty(c0, cx, tail);
    }
  }

  /** OrderBy is stable: the elements of any one key keep their relative order. */
  lemma {:induction false} SortByStable<T, K(!new)>(xs: seq<T>, key: T -> K, le: (K, K) -> bool, k: K)
    requires forall a :: le(a, a)
    ensures Select(SortBy(xs, key, le), key, k) == Select(xs, key, k)
  {
    if xs != [] {
      SortByStable(xs[1..], key, le, k);
      InsertByStable(xs[0], SortBy(xs[1..], key, le), key, le, k);
      SelectCons(xs[0], xs[1..], key, k);
      ConsSplit(xs);
    }
  }

  /** No two groups of `gs` share a key. */
  ghost predicate DistinctKeys<K, T>(gs: seq<(K, seq<T>)>)
  {
    forall i, j :: 0 <= i < j < |gs| ==> gs[i].0 != gs[j].0
  }

  /** A grouping has one group per key. */
  lemma GroupingDistinct<T, K>(gs: seq<(K, seq<T>)>, xs: seq<T>, key: T -> K)
    requires IsGrouping(gs, xs, key)
    ensures DistinctKeys(gs)
  {
    var ks := Keys(xs, key);
    forall i, j | 0 <= i < j < |gs| ensures gs[i].0 != gs[j].0 {
      assert gs[i].0 == ks[i] && gs[j].0 == ks[j];
    }
  }

  /** Filtering groups keeps their keys distinct. */
  lemma {:induction false} KeepGroupsDistinct<K, T>(gs: seq<(K, seq<T>)>, least: int)
    requires DistinctKeys(gs)
    ensures DistinctKeys(KeepGroups(gs, least))
  {
    if gs != [] {
      var tail := gs[1..];
      var rest := KeepGroups(tail, least);
      assert DistinctKeys(tail) by {
        forall i, j | 0 <= i < j < |tail| ensures tail[i].0 != tail[j].0 {
          assert tail[i] == gs[i + 1] && tail[j] == gs[j + 1];
        }
      }
      KeepGroupsDistinct(tail, least);
      if |gs[0].1| >= least {
        forall j | 0 <= j < |rest| ensures rest[j].0 != gs[0].0 {
          KeptIn(tail, least, j);
          var p :| 0 <= p < |tail| && tail[p] == rest[j];
          assert gs[p + 1] == rest[j];
        }
        var r := [gs[0]] + rest;
        assert KeepGroups(gs, least) == r;
        forall i, j | 0 <= i < j < |r| ensures r[i].0 != r[j].0 {
          assert r[j] == rest[j - 1];
          if i > 0 {
            assert r[i] == rest[i - 1];
          }
        }
      } else {
        assert KeepGroups(gs, least) == rest;
      }
    }
  }

  lemma TwoOccurrences<T>(s: seq<T>, i: nat, j: nat)
    requires i < j < |s| && s[i] == s[j]
    ensures multiset(s)[s[i]] >= 2
  {
    var a, b, c := s[..i], s[i + 1..j], s[j + 1..];
    assert s == a + [s[i]] + b + [s[j]] + c;
  }

  lemma {:induction false} DistinctKeysOnce<K, T>(gs: seq<(K, seq<T>)>, x: (K, seq<T>))
    requires DistinctKeys(gs)
    ensures multiset(gs)[x] <= 1
  {
    if gs != [] {
      assert gs == [gs[0]] + gs[1..];
      DistinctKeysOnce(gs[1..], x);
      if x == gs[0] {
        forall k | 0 <= k < |gs[1..]| ensures gs[1..][k] != x {
          assert gs[1..][k] == gs[k + 1];
        }
        assert x !in gs[1..];
      }
    }
  }

  /** Reordering groups keeps their keys distinct. */
  lemma PermutationDistinct<K, T>(a: seq<(K, seq<T>)>, b: seq<(K, seq<T>)>)
    requires multiset(a) == multiset(b) && DistinctKeys(a)
    ensures DistinctKeys(b)
  {
    forall i, j | 0 <= i < j < |b| ensures b[i].0 != b[j].0 {
      if b[i].0 == b[j].0 {
        assert b[i] in multiset(a) && b[j] in multiset(a);
        var p :| 0 <= p < |a| && a[p] == b[i];
        var q :| 0 <= q < |a| && a[q] == b[j];
        assert p == q;
        TwoOccurrences(b, i, j);
        DistinctKeysOnce(a, b[i]);
        assert false;
      }
    }
  }

  /**
   * `xs.GroupBy(key).Where(g => g.Count() >= least)`: each kept group holds
   * exactly the elements of its key, every key with at least `least`
   * elements is kept, and no key is kept twice.
   */
  lemma KeptGrouping<T, K>(xs: seq<T>, key: T -> K, least: int)
    ensures var gs := KeepGroups(GroupBy(xs, key), least);
      && (forall i :: 0 <= i < |gs| ==>
            gs[i].1 == Select(xs, key, gs[i].0) && gs[i].1 != [] && |gs[i].1| >= least)
      && (forall k :: Select(xs, key, k) != [] && |Select(xs, key, k)| >= least ==>
            (k, Select(xs, key, k)) in gs)
      && DistinctKeys(gs)
  {
    var all := GroupBy(xs, key);
    var gs := KeepGroups(all, least);
    var ks := Keys(xs, key);
    GroupByIsSelectByKeys(xs, key);
    KeepGroupsMembers(all, least);
    forall i | 0 <= i < |gs|
      ensures gs[i].1 == Select(xs, key, gs[i].0) && gs[i].1 != [] && |gs[i].1| >= least
    {
      var q :| 0 <= q < |all| && all[q] == gs[i];
      GroupsNonEmpty(xs, key, q);
    }
    forall k | Select(xs, key, k) != [] && |Select(xs, key, k)| >= least
      ensures (k, Select(xs, key, k)) in gs
    {
      SelectNonEmptyIffKey(xs, key, k);
      var q :| 0 <= q < |ks| && ks[q] == k;
      assert all[q] == (k, Select(xs, key, k));
    }
    GroupingDistinct(all, xs, key);
    KeepGroupsDistinct(all, least);
  }

  /** When every element has key `k`, selecting `k` keeps them all. */
  lemma {:induction false} SelectAll<T, K>(xs: seq<T>, key: T -> K, k: K)
    requires forall i :: 0 <= i < |xs| ==> key(xs[i]) == k
    ensures Select(xs, key, k) == xs
  {
    if xs != [] {
      var init := xs[..|xs| - 1];
      SelectAll(init, key, k);
      assert init + [xs[|xs| - 1]] == xs;
    }
  }

  /** A non-empty sequence whose elements all have key `k` forms one group. */
  lemma SingleKeyGrouping<T, K>(xs: seq<T>, key: T -> K, k: K)
    requires xs != []
    requires forall i :: 0 <= i < |xs| ==> key(xs[i]) == k
    ensures GroupBy(xs, key) == [(k, xs)]
  {
    var ks := Keys(xs, key);
    GroupByIsSelectByKeys(xs, key);
    forall i | 0 <= i < |ks| ensures ks[i] == k {
      OnlyKey(xs, key, k, ks[i]);
    }
    assert key(xs[0]) in ks;
    assert |ks| == 1 by {
      if |ks| > 1 {
        assert false;
      }
    }
    SelectAll(xs, key, k);
  }

  lemma OnlyKey<T, K>(xs: seq<T>, key: T -> K, k: K, k': K)
    requires forall i :: 0 <= i < |xs| ==> key(xs[i]) == k
    requires k' in Keys(xs, key)
    ensures k' == k
  {
    SelectNonEmptyIffKey(xs, key, k');
    var sel := Select(xs, key, k');
    SelectMembers(xs, key, k');
    assert sel[0] in multiset(xs);
  }

  /** KeepGroups drops every group smaller than `least`. */
  lemma {:induction false} KeepNone<K, T>(gs: seq<(K, seq<T>)>, least: int)
    requires forall i :: 0 <= i < |gs| ==> |gs[i].1| < least
    ensures KeepGroups(gs, least) == []
  {
    if gs != [] {
      KeepNone(gs[1..], least);
    }
  }

  /** No group of `xs` is larger than `xs`. */
  lemma GroupsBounded<T, K>(xs: seq<T>, key: T -> K)
    ensures forall i :: 0 <= i < |GroupBy(xs, key)| ==> |GroupBy(xs, key)[i].1| <= |xs|
  {
    GroupByIsSelectByKeys(xs, key);
  }

  /** `gs.SelectMany(f)`, for an `f` that maps each group to one item per element. */
  function FlatMap<K, T, U>(gs: seq<(K, seq<T>)>, f: ((K, seq<T>)) -> seq<U>): seq<U>
  {
    if gs == [] then [] else f(gs[0]) + FlatMap(gs[1..], f)
  }

  lemma {:induction false} FlatMapLength<K, T, U>(gs: seq<(K, seq<T>)>, f: ((K, seq<T>)) -> seq<U>)
    requires forall g :: |f(g)| == |g.1|
    ensures |FlatMap(gs, f)| == SumSizes(gs)
  {
    if gs != [] {
      FlatMapLength(gs[1..], f);
    }
  }

  /** The items of group `i` follow those of the groups before it. */
  lemma {:induction false} FlatMapAt<K, T, U>(gs: seq<(K, seq<T>)>, f: ((K, seq<T>)) -> seq<U>, i: nat, j: nat)
    requires forall g :: |f(g)| == |g.1|
    requires i < |gs| && j < |gs[i].1|
    ensures SumSizes(gs[..i]) + j < |FlatMap(gs, f)|
    ensures FlatMap(gs, f)[SumSizes(gs[..i]) + j] == f(gs[i])[j]
  {
    FlatMapLength(gs, f);
    var rest := gs[1..];
    if i == 0 {
      assert gs[..0] == [];
    } else {
      FlatMapAt(rest, f, i - 1, j);
      assert gs[..i][1..] == rest[..i - 1];
      assert rest[i - 1] == gs[i];
    }
  }

  /** `xs.Select(f)`: `f` applied to every element, in order. */
  function MapSeq<T, U>(xs: seq<T>, f: T -> U): (r: seq<U>)
    ensures |r| == |xs|
  {
    if xs == [] then [] else [f(xs[0])] + MapSeq(xs[1..], f)
  }

  lemma {:induction false} MapSeqAt<T, U>(xs: seq<T>, f: T -> U, j: nat)
    requires j < |xs|
    ensures MapSeq(xs, f)[j] == f(xs[j])
  {
    if j > 0 {
      MapSeqAt(xs[1..], f, j - 1);
    }
  }

  /**
   * `gs.Select(g => order(g).Select(line)).SelectMany(s => s)`: item `j`
   * of group `i` is `line` of the `j`-th element of that group once ordered.
   */
  lemma FlatMapOrderedAt<K, T, U>(
    gs: seq<(K, seq<T>)>, f: ((K, seq<T>)) -> seq<U>, order: seq<T> -> seq<T>, line: T -> U, i: nat, j: nat)
    requires forall g :: f(g) == MapSeq(order(g.1), line)
    requires forall xs :: |order(xs)| == |xs|
    requires i < |gs| && j < |gs[i].1|
    ensures |FlatMap(gs, f)| == SumSizes(gs)
    ensures SumSizes(gs[..i]) + j < |FlatMap(gs, f)|
    ensures FlatMap(gs, f)[SumSizes(gs[..i]) + j] == line(order(gs[i].1)[j])
  {
    FlatMapLength(gs, f);
    FlatMapAt(gs, f, i, j);
    MapSeqAt(order(gs[i].1), line, j);
  }

  lemma ConsSplit<T>(s: seq<T>)
    requires s != []
    ensures [s[0]] + s[1..] == s
  {
  }

  lemma SwapEmpty<T>(a: seq<T>, b: seq<T>, t: seq<T>)
    requires a == [] || b == []
    ensures a + (b + t) == b + (a + t)
  {
    if a == [] {
      assert a + (b + t) == b + t;
      assert a + t == t;
    } else {
      assert b + t == t;
      assert b + (a + t) == a + t;
    }
  }
}
