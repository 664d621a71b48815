/**
  The handful of Kotlin collection operations the call counter relies on,
  stated over Dafny sequences: `filter`, `sumBy`, `distinct`, `groupBy`
  (a LinkedHashMap that keeps keys in order of first appearance),
  `chunked` and `maxByOrNull` (which keeps the first maximum).
 */
module Collections {

  /* ---------------------------------------------------------------- */
  /* Subsequences                                                       */
  /* ---------------------------------------------------------------- */

  /** `a` can be obtained from `b` by deleting elements. */
  ghost predicate IsSubsequence<T>(a: seq<T>, b: seq<T>)
    decreases |b|
  {
    if |a| == 0 then true
    else if |b| == 0 then false
    else (a[0] == b[0] && IsSubsequence(a[1..], b[1..])) || IsSubsequence(a, b[1..])
  }

  /** No element occurs twice. */
  predicate NoDuplicates<T(==)>(xs: seq<T>) {
    forall i, j :: 0 <= i < j < |xs| ==> xs[i] != xs[j]
  }

  /* ---------------------------------------------------------------- */
  /* minus                                                              */
  /* ---------------------------------------------------------------- */

  /** Kotlin's `List.minus(element)`: the list without the first occurrence of `x`. */
  function Minus<T(==)>(xs: seq<T>, x: T): (r: seq<T>)
    ensures x !in xs ==> r == xs
    ensures x in xs ==> |r| == |xs| - 1 && multiset(r) == multiset(xs) - multiset{x}
  {
    if |xs| == 0 then []
    else if xs[0] == x then
      assert xs == [x] + xs[1..];
      xs[1..]
    else
      assert xs == [xs[0]] + xs[1..];
      [xs[0]] + Minus(xs[1..], x)
  }

  /** `minus` removes the first occurrence of `x` and keeps everything else in order. */
  lemma {:induction false} MinusRemovesFirst<T>(xs: seq<T>, x: T)
    requires x in xs
    ensures Minus(xs, x) == xs[..FirstIndex(xs, x)] + xs[FirstIndex(xs, x) + 1..]
  {
    if xs[0] != x {
      var t := xs[1..];
      MinusRemovesFirst(t, x);
      var k := FirstIndex(t, x);
      assert FirstIndex(xs, x) == k + 1;
      ConsDropAt(xs, k);
    }
  }

  /** Dropping position `k` of the tail and putting the head back drops position `k + 1`. */
  lemma ConsDropAt<T>(xs: seq<T>, k: nat)
    requires k + 1 < |xs|
    ensures [xs[0]] + (xs[1..][..k] + xs[1..][k + 1..]) == xs[..k + 1] + xs[k + 2..]
  {
    assert xs[..k + 1] == [xs[0]] + xs[1..][..k];
    assert xs[k + 2..] == xs[1..][k + 1..];
  }

  /** In a list without duplicates, `minus` removes the element altogether and introduces
      no duplicate. */
  lemma {:induction false} MinusNoDuplicates<T>(xs: seq<T>, x: T)
    requires NoDuplicates(xs)
    ensures NoDuplicates(Minus(xs, x)) && x !in Minus(xs, x)
  {
    if |xs| > 0 {
      TailNoDuplicates(xs);
      if xs[0] == x {
        assert Minus(xs, x) == xs[1..];
      } else {
        var tail := xs[1..];
        MinusNoDuplicates(tail, x);
        var rest := Minus(tail, x);
        assert xs[0] !in rest by {
          if x in tail {
            assert multiset(rest)[xs[0]] <= multiset(tail)[xs[0]];
          }
        }
        assert Minus(xs, x) == [xs[0]] + rest;
        ConsNoDuplicates(xs[0], rest);
      }
    }
  }

  lemma TailNoDuplicates<T>(xs: seq<T>)
    requires |xs| > 0 && NoDuplicates(xs)
    ensures NoDuplicates(xs[1..]) && xs[0] !in xs[1..]
  {
    var tail := xs[1..];
    assert forall i :: 0 <= i < |tail| ==> tail[i] == xs[i + 1];
  }

  lemma ConsNoDuplicates<T>(x: T, xs: seq<T>)
    requires NoDuplicates(xs) && x !in xs
    ensures NoDuplicates([x] + xs)
  {
    var r := [x] + xs;
    forall i, j | 0 <= i < j < |r|
      ensures r[i] != r[j]
    {
      assert r[j] == xs[j - 1];
      if i > 0 {
        assert r[i] == xs[i - 1];
      }
    }
  }

  /* ---------------------------------------------------------------- */
  /* filter                                                             */
  /* ---------------------------------------------------------------- */

  /** Kotlin's `filter`: the elements satisfying `p`, every occurrence kept, in order. */
  function Filter<T>(xs: seq<T>, p: T -> bool): (r: seq<T>)
    ensures |r| <= |xs|
    ensures forall i :: 0 <= i < |r| ==> p(r[i])
    ensures forall x | x in r :: x in xs && p(x)
    ensures forall x | x in xs && p(x) :: x in r
  {
    if |xs| == 0 then []
    else
      assert xs == [xs[0]] + xs[1..];
      if p(xs[0]) then [xs[0]] + Filter(xs[1..], p) else Filter(xs[1..], p)
  }

  /** `filter` keeps the order of the list and every occurrence of each passing element:
      the result is a subsequence holding each passing value as often as the list does. */
  lemma FilterKeepsOccurrences<T>(xs: seq<T>, p: T -> bool)
    ensures multiset(Filter(xs, p)) <= multiset(xs)
    ensures forall x | x in xs && p(x) :: multiset(Filter(xs, p))[x] == multiset(xs)[x]
    ensures IsSubsequence(Filter(xs, p), xs)
  {
    FilterMultiplicities(xs, p);
    FilterIsSubsequence(xs, p);
  }

  lemma {:induction false} FilterMultiplicities<T>(xs: seq<T>, p: T -> bool)
    ensures multiset(Filter(xs, p)) <= multiset(xs)
    ensures forall x | x in xs && p(x) :: multiset(Filter(xs, p))[x] == multiset(xs)[x]
  {
    if |xs| > 0 {
      assert xs == [xs[0]] + xs[1..];
      FilterMultiplicities(xs[1..], p);
    }
  }

  lemma {:induction false} FilterIsSubsequence<T>(xs: seq<T>, p: T -> bool)
    ensures IsSubsequence(Filter(xs, p), xs)
  {
    if |xs| > 0 {
      assert xs == [xs[0]] + xs[1..];
      FilterIsSubsequence(xs[1..], p);
      if p(xs[0]) {
        assert ([xs[0]] + Filter(xs[1..], p))[1..] == Filter(xs[1..], p);
      }
    }
  }


  /** Filtering distributes over concatenation, which is what "keeps the original order" means. */
  lemma {:induction false} FilterConcat<T>(xs: seq<T>, ys: seq<T>, p: T -> bool)
    ensures Filter(xs + ys, p) == Filter(xs, p) + Filter(ys, p)
  {
    if |xs| == 0 {
      assert xs + ys == ys;
    } else {
      assert (xs + ys)[0] == xs[0];
      assert (xs + ys)[1..] == xs[1..] + ys;
      FilterConcat(xs[1..], ys, p);
    }
  }

  /** Appending one element extends the filtered sequence by that element exactly when it passes. */
  lemma FilterSnoc<T>(xs: seq<T>, x: T, p: T -> bool)
    ensures Filter(xs + [x], p) == Filter(xs, p) + (if p(x) then [x] else [])
  {
    FilterConcat(xs, [x], p);
    assert [x][1..] == [];
  }

  /** When nothing passes, the result is empty. */
  lemma {:induction false} FilterNone<T>(xs: seq<T>, p: T -> bool)
    requires forall i :: 0 <= i < |xs| ==> !p(xs[i])
    ensures Filter(xs, p) == []
  {
    if |xs| > 0 {
      FilterNone(xs[1..], p);
    }
  }

  /** When everything passes, the result is the input. */
  lemma {:induction false} FilterAll<T>(xs: seq<T>, p: T -> bool)
    requires forall i :: 0 <= i < |xs| ==> p(xs[i])
    ensures Filter(xs, p) == xs
  {
    if |xs| > 0 {
      FilterAll(xs[1..], p);
      assert xs == [xs[0]] + xs[1..];
    }
  }

  /** Filtering twice with the same predicate changes nothing the second time. */
  lemma FilterIdempotent<T>(xs: seq<T>, p: T -> bool)
    ensures Filter(Filter(xs, p), p) == Filter(xs, p)
  {
    FilterAll(Filter(xs, p), p);
  }

  /** Two predicates that agree on every element select the same elements. */
  lemma {:induction false} FilterCongruent<T>(xs: seq<T>, p: T -> bool, q: T -> bool)
    requires forall i :: 0 <= i < |xs| ==> p(xs[i]) == q(xs[i])
    ensures Filter(xs, p) == Filter(xs, q)
  {
    if |xs| > 0 {
      FilterCongruent(xs[1..], p, q);
    }
  }

  /** A stronger predicate keeps a sub-selection of a weaker one, so it never keeps more. */
  lemma {:induction false} FilterStronger<T>(xs: seq<T>, weak: T -> bool, strong: T -> bool)
    requires forall i :: 0 <= i < |xs| ==> strong(xs[i]) ==> weak(xs[i])
    ensures Filter(Filter(xs, weak), strong) == Filter(xs, strong)
    ensures |Filter(xs, strong)| <= |Filter(xs, weak)|
  {
    if |xs| > 0 {
      FilterStronger(xs[1..], weak, strong);
    }
  }

  /* ---------------------------------------------------------------- */
  /* map and sums                                                       */
  /* ---------------------------------------------------------------- */

  /** Kotlin's `map`. */
  function Map<T, U>(xs: seq<T>, f: T -> U): (r: seq<U>)
    ensures |r| == |xs|
    ensures forall i :: 0 <= i < |xs| ==> r[i] == f(xs[i])
  {
    seq(|xs|, i requires 0 <= i < |xs| => f(xs[i]))
  }

  /** Kotlin's `sumBy`, over mathematical integers. */
  function SumBy<T>(xs: seq<T>, f: T -> int): int
  {
    if |xs| == 0 then 0 else f(xs[0]) + SumBy(xs[1..], f)
  }

  /** A single element sums to its own value; with `SumByConcat` this fixes `sumBy` on every
      list as the sum of `f` over its elements. */
  lemma SumByOne<T>(x: T, f: T -> int)
    ensures SumBy([x], f) == f(x)
  {
    assert [x][1..] == [];
  }

  /** `sumBy` distributes over concatenation. */
  lemma {:induction false} SumByConcat<T>(xs: seq<T>, ys: seq<T>, f: T -> int)
    ensures SumBy(xs + ys, f) == SumBy(xs, f) + SumBy(ys, f)
  {
    if |xs| == 0 {
      assert xs + ys == ys;
    } else {
      assert (xs + ys)[0] == xs[0];
      assert (xs + ys)[1..] == xs[1..] + ys;
      SumByConcat(xs[1..], ys, f);
    }
  }

  /** The sum of a sequence of integers. */
  function Sum(xs: seq<int>): int
  {
    if |xs| == 0 then 0 else xs[0] + Sum(xs[1..])
  }

  /** Over non-negative values, the sum of a filtered sequence never exceeds the sum of a
      less strictly filtered one. */
  lemma {:induction false} SumByFilterStronger<T>(xs: seq<T>, f: T -> int, weak: T -> bool, strong: T -> bool)
    requires forall i :: 0 <= i < |xs| ==> f(xs[i]) >= 0
    requires forall i :: 0 <= i < |xs| ==> strong(xs[i]) ==> weak(xs[i])
    ensures SumBy(Filter(xs, strong), f) <= SumBy(Filter(xs, weak), f)
  {
    if |xs| > 0 {
      SumByFilterStronger(xs[1..], f, weak, strong);
    }
  }

  /* ---------------------------------------------------------------- */
  /* distinct                                                           */
  /* ---------------------------------------------------------------- */

  /** Position of the first occurrence of `x`. */
  ghost function FirstIndex<T>(xs: seq<T>, x: T): (i: nat)
    requires x in xs
    ensures i < |xs| && xs[i] == x
    ensures forall j :: 0 <= j < i ==> xs[j] != x
  {
    if xs[0] == x then 0 else 1 + FirstIndex(xs[1..], x)
  }

  /** Appending an element does not move the first occurrence of anything already present. */
  lemma {:induction false} FirstIndexSnoc<T>(xs: seq<T>, x: T, y: T)
    requires y in xs
    ensures FirstIndex(xs + [x], y) == FirstIndex(xs, y)
  {
    if xs[0] != y {
      assert (xs + [x])[1..] == xs[1..] + [x];
      FirstIndexSnoc(xs[1..], x, y);
    }
  }

  /** Kotlin's `distinct`: every value once. */
  function Distinct<T(==)>(xs: seq<T>): (r: seq<T>)
    ensures NoDuplicates(r)
    ensures forall i :: 0 <= i < |r| ==> r[i] in xs
    ensures forall i :: 0 <= i < |xs| ==> xs[i] in r
  {
    if |xs| == 0 then []
    else
      var prefix := xs[..|xs| - 1];
      var x := xs[|xs| - 1];
      var d := Distinct(prefix);
      assert forall i :: 0 <= i < |prefix| ==> xs[i] == prefix[i];
      if x in d then d else d + [x]
  }

  /** `distinct` keeps the values in order of first appearance. */
  lemma {:induction false} DistinctFirstAppearance<T>(xs: seq<T>)
    ensures forall i, j :: 0 <= i < j < |Distinct(xs)| ==> FirstIndex(xs, Distinct(xs)[i]) < FirstIndex(xs, Distinct(xs)[j])
  {
    if |xs| > 0 {
      var prefix := xs[..|xs| - 1];
      var x := xs[|xs| - 1];
      assert xs == prefix + [x];
      var d := Distinct(prefix);
      DistinctFirstAppearance(prefix);
      forall i | 0 <= i < |d|
        ensures FirstIndex(xs, d[i]) == FirstIndex(prefix, d[i]) < |prefix|
      {
        FirstIndexSnoc(prefix, x, d[i]);
      }
      if x !in d {
        assert x !in prefix;
        assert FirstIndex(xs, x) == |prefix|;
        assert Distinct(xs) == d + [x];
      }
    }
  }

  /* ---------------------------------------------------------------- */
  /* groupBy                                                            */
  /* ---------------------------------------------------------------- */

  /** One entry of the map `groupBy` builds: a key and the elements filed under it. */
  datatype Group<T> = Group(key: int, items: seq<T>)

  /** The predicate "has key `k`". */
  function KeyIs<T>(key: T -> int, k: int): T -> bool
  {
    (x: T) => key(x) == k
  }

  /** Files `x` under `k` in a LinkedHashMap: appended to the existing entry, or a new entry at the end. */
  function Insert<T>(gs: seq<Group<T>>, k: int, x: T): seq<Group<T>>
  {
    if |gs| == 0 then [Group(k, [x])]
    else if gs[0].key == k then [Group(k, gs[0].items + [x])] + gs[1..]
    else [gs[0]] + Insert(gs[1..], k, x)
  }

  /** Kotlin's `groupBy`, element by element in iteration order. */
  function GroupBy<T>(xs: seq<T>, key: T -> int): seq<Group<T>>
  {
    if |xs| == 0 then []
    else Insert(GroupBy(xs[..|xs| - 1], key), key(xs[|xs| - 1]), xs[|xs| - 1])
  }

  /** All elements of all groups, group after group. */
  function FlattenGroups<T>(gs: seq<Group<T>>): seq<T>
  {
    if |gs| == 0 then [] else gs[0].items + FlattenGroups(gs[1..])
  }

  function GroupSize<T>(g: Group<T>): int
  {
    |g.items|
  }

  /** The sizes of the groups. */
  function GroupSizes<T>(gs: seq<Group<T>>): (r: seq<int>)
    ensures |r| == |gs|
    ensures forall i :: 0 <= i < |gs| ==> r[i] == |gs[i].items|
  {
    if |gs| == 0 then [] else [|gs[0].items|] + GroupSizes(gs[1..])
  }

  lemma {:induction false} InsertAt<T>(gs: seq<Group<T>>, k: int, x: T, j: nat)
    requires j < |gs| && gs[j].key == k
    requires forall i :: 0 <= i < j ==> gs[i].key != k
    ensures Insert(gs, k, x) == gs[j := Group(k, gs[j].items + [x])]
  {
    if j > 0 {
      InsertAt(gs[1..], k, x, j - 1);
    }
  }

  lemma {:induction false} InsertFresh<T>(gs: seq<Group<T>>, k: int, x: T)
    requires forall i :: 0 <= i < |gs| ==> gs[i].key != k
    ensures Insert(gs, k, x) == gs + [Group(k, [x])]
  {
    if |gs| > 0 {
      InsertFresh(gs[1..], k, x);
    }
  }

  /** `gs` pairs each key of `ks`, in that order, with the elements of `xs` having that key. */
  ghost predicate KeyedFilters<T>(gs: seq<Group<T>>, xs: seq<T>, key: T -> int, ks: seq<int>)
  {
    && |gs| == |ks|
    && forall i :: 0 <= i < |gs| ==> gs[i] == Group(ks[i], Filter(xs, KeyIs(key, ks[i])))
  }

  lemma GroupBySnoc<T>(xs: seq<T>, x: T, key: T -> int)
    ensures GroupBy(xs + [x], key) == Insert(GroupBy(xs, key), key(x), x)
  {
    assert (xs + [x])[..|xs|] == xs;
  }

  lemma DistinctMapSnoc<T>(xs: seq<T>, x: T, key: T -> int)
    ensures Distinct(Map(xs + [x], key)) ==
      var ks := Distinct(Map(xs, key));
      if key(x) in ks then ks else ks + [key(x)]
  {
    var m := Map(xs + [x], key);
    assert m[..|xs|] == Map(xs, key);
  }

  lemma KeyedFiltersSnocExisting<T>(g: seq<Group<T>>, xs: seq<T>, x: T, key: T -> int, ks: seq<int>, j: nat)
    requires KeyedFilters(g, xs, key, ks)
    requires NoDuplicates(ks)
    requires j < |ks| && ks[j] == key(x)
    ensures KeyedFilters(Insert(g, key(x), x), xs + [x], key, ks)
  {
    InsertAt(g, key(x), x, j);
    var g' := g[j := Group(key(x), g[j].items + [x])];
    forall i | 0 <= i < |ks|
      ensures g'[i] == Group(ks[i], Filter(xs + [x], KeyIs(key, ks[i])))
    {
      var p := KeyIs(key, ks[i]);
      FilterSnoc(xs, x, p);
      if i == j {
        assert p(x);
        assert g'[i] == Group(ks[i], Filter(xs, p) + [x]);
      } else {
        assert !p(x);
        assert g'[i] == g[i];
      }
    }
  }

  lemma KeyedFiltersSnocFresh<T>(g: seq<Group<T>>, xs: seq<T>, x: T, key: T -> int, ks: seq<int>)
    requires KeyedFilters(g, xs, key, ks)
    requires key(x) !in ks
    requires forall i :: 0 <= i < |xs| ==> key(xs[i]) != key(x)
    ensures KeyedFilters(Insert(g, key(x), x), xs + [x], key, ks + [key(x)])
  {
    InsertFresh(g, key(x), x);
    var ks' := ks + [key(x)];
    forall i | 0 <= i < |ks'|
      ensures Insert(g, key(x), x)[i] == Group(ks'[i], Filter(xs + [x], KeyIs(key, ks'[i])))
    {
      FilterSnoc(xs, x, KeyIs(key, ks'[i]));
      if i == |ks| {
        FilterNone(xs, KeyIs(key, key(x)));
      }
    }
  }

  /** `groupBy` is "the distinct keys in order of first appearance, each with the elements
      having that key in their original order". */
  lemma {:induction false} GroupByIsKeyedFilter<T>(xs: seq<T>, key: T -> int)
    ensures KeyedFilters(GroupBy(xs, key), xs, key, Distinct(Map(xs, key)))
  {
    if |xs| > 0 {
      var prefix := xs[..|xs| - 1];
      assert xs == prefix + [xs[|xs| - 1]];
      GroupByIsKeyedFilter(prefix, key);
      GroupByKeyedFilterSnoc(prefix, xs[|xs| - 1], key);
    }
  }

  /** Appending one element keeps `groupBy` equal to the keyed filters. */
  lemma GroupByKeyedFilterSnoc<T>(prefix: seq<T>, x: T, key: T -> int)
    requires KeyedFilters(GroupBy(prefix, key), prefix, key, Distinct(Map(prefix, key)))
    ensures KeyedFilters(GroupBy(prefix + [x], key), prefix + [x], key, Distinct(Map(prefix + [x], key)))
  {
    var ks := Distinct(Map(prefix, key));
    GroupBySnoc(prefix, x, key);
    DistinctMapSnoc(prefix, x, key);
    if key(x) in ks {
      KeyedFiltersSnocExisting(GroupBy(prefix, key), prefix, x, key, ks, FirstIndex(ks, key(x)));
    } else {
      forall i | 0 <= i < |prefix|
        ensures key(prefix[i]) != key(x)
      {
        assert Map(prefix, key)[i] == key(prefix[i]);
      }
      KeyedFiltersSnocFresh(GroupBy(prefix, key), prefix, x, key, ks);
    }
  }


  /** How many elements have key `k`. */
  function CountKey<T>(xs: seq<T>, key: T -> int, k: int): nat
  {
    |Filter(xs, KeyIs(key, k))|
  }

  /** `h` is the key `maxByOrNull { size }` picks among the groups of `groupBy`: some element
      has it, no key is shared by more elements, and every key met earlier in `xs` is shared
      by strictly fewer. */
  ghost predicate IsFirstLargestKey<T>(xs: seq<T>, key: T -> int, h: int)
  {
    var keys := Map(xs, key);
    && h in keys
    && (forall i :: 0 <= i < |xs| ==> CountKey(xs, key, keys[i]) <= CountKey(xs, key, h))
    && (forall i :: 0 <= i < |xs| && FirstIndex(keys, keys[i]) < FirstIndex(keys, h) ==>
          CountKey(xs, key, keys[i]) < CountKey(xs, key, h))
  }

  lemma KeyedFiltersSizes<T>(gs: seq<Group<T>>, xs: seq<T>, key: T -> int, ks: seq<int>)
    requires KeyedFilters(gs, xs, key, ks)
    ensures forall j :: 0 <= j < |gs| ==> gs[j].key == ks[j] && GroupSize(gs[j]) == CountKey(xs, key, ks[j])
  {
  }

  /** The largest group of `groupBy`, the first on ties, has the first largest key. */
  lemma LargestGroupIsFirstLargestKey<T>(xs: seq<T>, key: T -> int)
    requires |xs| > 0
    ensures |GroupBy(xs, key)| > 0
    ensures IsFirstLargestKey(xs, key, GroupBy(xs, key)[FirstMaxIndex(GroupBy(xs, key), GroupSize)].key)
  {
    var gs := GroupBy(xs, key);
    var keys := Map(xs, key);
    var ks := Distinct(keys);
    GroupByIsKeyedFilter(xs, key);
    KeyedFiltersSizes(gs, xs, key, ks);
    assert keys[0] in ks;
    DistinctFirstAppearance(keys);
    var m := FirstMaxIndex(gs, GroupSize);
    var h := ks[m];
    forall i | 0 <= i < |xs|
      ensures CountKey(xs, key, keys[i]) <= CountKey(xs, key, h)
      ensures FirstIndex(keys, keys[i]) < FirstIndex(keys, h) ==> CountKey(xs, key, keys[i]) < CountKey(xs, key, h)
    {
      LargestGroupDominates(xs, key, gs, ks, m, i);
    }
  }

  lemma LargestGroupDominates<T>(xs: seq<T>, key: T -> int, gs: seq<Group<T>>, ks: seq<int>, m: nat, i: nat)
    requires ks == Distinct(Map(xs, key))
    requires forall j, k :: 0 <= j < k < |ks| ==> FirstIndex(Map(xs, key), ks[j]) < FirstIndex(Map(xs, key), ks[k])
    requires |gs| == |ks| && m < |gs| && i < |xs|
    requires forall j :: 0 <= j < |gs| ==> gs[j].key == ks[j] && GroupSize(gs[j]) == CountKey(xs, key, ks[j])
    requires forall j :: 0 <= j < |gs| ==> GroupSize(gs[j]) <= GroupSize(gs[m])
    requires forall j :: 0 <= j < m ==> GroupSize(gs[j]) < GroupSize(gs[m])
    ensures CountKey(xs, key, Map(xs, key)[i]) <= CountKey(xs, key, ks[m])
    ensures FirstIndex(Map(xs, key), Map(xs, key)[i]) < FirstIndex(Map(xs, key), ks[m]) ==>
              CountKey(xs, key, Map(xs, key)[i]) < CountKey(xs, key, ks[m])
  {
    var keys := Map(xs, key);
    assert keys[i] in ks;
    var j := FirstIndex(ks, keys[i]);
    if m < j {
      assert FirstIndex(keys, ks[m]) < FirstIndex(keys, ks[j]);
    }
  }

  /** For each distinct key, in order of first appearance, how many elements have it. */
  function KeyCounts<T>(xs: seq<T>, key: T -> int): (r: seq<int>)
    ensures |r| == |Distinct(Map(xs, key))|
    ensures forall i :: 0 <= i < |r| ==> r[i] == CountKey(xs, key, Distinct(Map(xs, key))[i])
  {
    var ks := Distinct(Map(xs, key));
    seq(|ks|, i requires 0 <= i < |ks| => CountKey(xs, key, ks[i]))
  }

  /** Every distinct key is had by at least one element, and the counts add up to the length. */
  lemma KeyCountsPartition<T>(xs: seq<T>, key: T -> int)
    ensures forall i :: 0 <= i < |KeyCounts(xs, key)| ==> KeyCounts(xs, key)[i] >= 1
    ensures Sum(KeyCounts(xs, key)) == |xs|
  {
    var counts := KeyCounts(xs, key);
    forall i | 0 <= i < |counts|
      ensures counts[i] >= 1
    {
      KeyCountPositive(xs, key, i);
    }
    KeyCountsSum(xs, key);
  }

  lemma KeyCountPositive<T>(xs: seq<T>, key: T -> int, i: nat)
    requires i < |Distinct(Map(xs, key))|
    ensures KeyCounts(xs, key)[i] >= 1
  {
    var keys := Map(xs, key);
    var k := Distinct(keys)[i];
    assert k in keys;
    var j :| 0 <= j < |xs| && keys[j] == k;
    assert xs[j] in Filter(xs, KeyIs(key, k));
  }

  lemma KeyCountsSum<T>(xs: seq<T>, key: T -> int)
    ensures Sum(KeyCounts(xs, key)) == |xs|
  {
    var gs := GroupBy(xs, key);
    GroupByIsKeyedFilter(xs, key);
    KeyedFiltersSizes(gs, xs, key, Distinct(Map(xs, key)));
    assert KeyCounts(xs, key) == GroupSizes(gs);
    SumGroupSizes(gs);
    GroupByPermutation(xs, key);
    assert |multiset(FlattenGroups(gs))| == |multiset(xs)|;
  }

  lemma {:induction false} InsertPermutation<T>(gs: seq<Group<T>>, k: int, x: T)
    ensures multiset(FlattenGroups(Insert(gs, k, x))) == multiset(FlattenGroups(gs)) + multiset{x}
  {
    if |gs| > 0 && gs[0].key != k {
      InsertPermutation(gs[1..], k, x);
    }
  }

  /** Concatenating the groups gives back the input, up to order. */
  lemma {:induction false} GroupByPermutation<T>(xs: seq<T>, key: T -> int)
    ensures multiset(FlattenGroups(GroupBy(xs, key))) == multiset(xs)
  {
    if |xs| > 0 {
      var prefix := xs[..|xs| - 1];
      assert xs == prefix + [xs[|xs| - 1]];
      GroupByPermutation(prefix, key);
      InsertPermutation(GroupBy(prefix, key), key(xs[|xs| - 1]), xs[|xs| - 1]);
    }
  }

  /** The group sizes add up to the length of the flattened groups. */
  lemma {:induction false} SumGroupSizes<T>(gs: seq<Group<T>>)
    ensures Sum(GroupSizes(gs)) == |FlattenGroups(gs)|
  {
    if |gs| > 0 {
      SumGroupSizes(gs[1..]);
    }
  }

  /* ---------------------------------------------------------------- */
  /* chunked                                                            */
  /* ---------------------------------------------------------------- */

  /** Concatenation of a sequence of sequences. */
  function Flatten<T>(xss: seq<seq<T>>): seq<T>
  {
    if |xss| == 0 then [] else xss[0] + Flatten(xss[1..])
  }

  /** Every element of every inner sequence is in the concatenation. */
  lemma {:induction false} FlattenContains<T>(xss: seq<seq<T>>, i: nat, j: nat)
    requires i < |xss| && j < |xss[i]|
    ensures xss[i][j] in Flatten(xss)
  {
    if i > 0 {
      FlattenContains(xss[1..], i - 1, j);
    }
  }

  /** Kotlin's `chunked(n)`: consecutive rows of `n` elements, the last one possibly shorter. */
  function Chunked<T>(xs: seq<T>, n: nat): (rows: seq<seq<T>>)
    requires n > 0
    ensures Flatten(rows) == xs
    ensures forall i :: 0 <= i < |rows| ==> 0 < |rows[i]| <= n
    ensures forall i :: 0 <= i < |rows| - 1 ==> |rows[i]| == n
    decreases |xs|
  {
    if |xs| == 0 then []
    else if |xs| <= n then [xs]
    else [xs[..n]] + Chunked(xs[n..], n)
  }

  lemma RowCountStep(len: int, n: int, k: int)
    requires n > 0 && len - n <= k * n < len
    ensures len <= (k + 1) * n < len + n
  {
    assert (k + 1) * n == k * n + n;
  }

  /** There are ceil(|xs| / n) rows: n times the row count covers xs with less than one
      row to spare. */
  lemma {:induction false} ChunkedRowCount<T>(xs: seq<T>, n: nat)
    requires n > 0
    ensures |xs| <= |Chunked(xs, n)| * n < |xs| + n
    decreases |xs|
  {
    if |xs| == 0 {
      assert Chunked(xs, n) == [];
    } else if |xs| <= n {
      assert |Chunked(xs, n)| == 1;
    } else {
      var rest := Chunked(xs[n..], n);
      ChunkedRowCount(xs[n..], n);
      assert |Chunked(xs, n)| == |rest| + 1;
      RowCountStep(|xs|, n, |rest|);
    }
  }

  /* ---------------------------------------------------------------- */
  /* maxByOrNull                                                        */
  /* ---------------------------------------------------------------- */

  /** Index of the element `maxByOrNull` returns: a maximum of `f`, the first one on ties. */
  function FirstMaxIndex<T>(xs: seq<T>, f: T -> int): (r: nat)
    requires |xs| > 0
    ensures r < |xs|
    ensures forall j :: 0 <= j < |xs| ==> f(xs[j]) <= f(xs[r])
    ensures forall j :: 0 <= j < r ==> f(xs[j]) < f(xs[r])
  {
    if |xs| == 1 then 0
    else
      var best := FirstMaxIndex(xs[..|xs| - 1], f);
      if f(xs[best]) < f(xs[|xs| - 1]) then |xs| - 1 else best
  }
}
