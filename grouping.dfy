/**
 * `Enumerable.GroupBy(source, keySelector)` as LINQ's lookup builds it: the
 * source is read once, front to back; an element whose key has been seen is
 * appended to that key's grouping, any other starts a new grouping at the
 * end. Keys are compared with `==` (ordinal equality for strings).
 */
module Grouping {

  datatype Grouping<K, T> = Grouping(key: K, elements: seq<T>)

  function KeysOf<K, T>(gs: seq<Grouping<K, T>>): (ks: seq<K>)
    ensures |ks| == |gs| && forall i :: 0 <= i < |gs| ==> ks[i] == gs[i].key
  {
    seq(|gs|, i requires 0 <= i < |gs| => gs[i].key)
  }

  /** Adding one element to the lookup: to the grouping of its key, or to a new grouping at the end. */
  function Insert<K(==), T>(gs: seq<Grouping<K, T>>, k: K, x: T): seq<Grouping<K, T>>
  {
    if |gs| == 0 then [Grouping(k, [x])]
    else if gs[0].key == k then [Grouping(k, gs[0].elements + [x])] + gs[1..]
    else [gs[0]] + Insert(gs[1..], k, x)
  }

  function GroupBy<T, K(==)>(xs: seq<T>, key: T -> K): seq<Grouping<K, T>>
  {
    if |xs| == 0 then [] else Insert(GroupBy(xs[..|xs| - 1], key), key(xs[|xs| - 1]), xs[|xs| - 1])
  }

  // ------------------------------------------------ reference definitions

  /** The key of every element, in source order. */
  function KeySeq<T, K>(xs: seq<T>, key: T -> K): (ks: seq<K>)
    ensures |ks| == |xs| && forall i :: 0 <= i < |xs| ==> ks[i] == key(xs[i])
  {
    seq(|xs|, i requires 0 <= i < |xs| => key(xs[i]))
  }

  /** Each key once, where it first occurs. */
  function Distinct<K(==)>(ks: seq<K>): seq<K>
  {
    if |ks| == 0 then []
    else
      var d := Distinct(ks[..|ks| - 1]);
      if ks[|ks| - 1] in d then d else d + [ks[|ks| - 1]]
  }

  /** The elements whose key is `k`, in source order. */
  function Filter<T, K(==)>(xs: seq<T>, key: T -> K, k: K): seq<T>
  {
    if |xs| == 0 then []
    else Filter(xs[..|xs| - 1], key, k) + if key(xs[|xs| - 1]) == k then [xs[|xs| - 1]] else []
  }

  /** The set of keys that occur. */
  ghost function KeySet<T, K>(xs: seq<T>, key: T -> K): set<K> {
    set x | x in xs :: key(x)
  }

  predicate NoDuplicates<K(==)>(ks: seq<K>) {
    forall i, j :: 0 <= i < j < |ks| ==> ks[i] != ks[j]
  }

  /** Keys listed in `d` appear in `ks` in that order of first occurrence: before any occurrence of `d[j]`, every earlier `d[i]` has already occurred. */
  predicate InFirstOccurrenceOrder<K(==)>(d: seq<K>, ks: seq<K>) {
    forall i, j, p :: 0 <= i < j < |d| && 0 <= p < |ks| && ks[p] == d[j] ==> d[i] in ks[..p]
  }

  function TotalSize<K, T>(gs: seq<Grouping<K, T>>): nat {
    if |gs| == 0 then 0 else |gs[0].elements| + TotalSize(gs[1..])
  }

  // ---------------------------------------------------------------- lemmas

  /** One insertion leaves the keys as they were, or appends the new key. */
  lemma {:induction false} InsertKeys<K, T>(gs: seq<Grouping<K, T>>, k: K, x: T)
    ensures KeysOf(Insert(gs, k, x)) == if k in KeysOf(gs) then KeysOf(gs) else KeysOf(gs) + [k]
    decreases |gs|
  {
    if |gs| > 0 && gs[0].key != k {
      InsertKeys(gs[1..], k, x);
      assert KeysOf(gs) == [gs[0].key] + KeysOf(gs[1..]);
      assert KeysOf(Insert(gs, k, x)) == [gs[0].key] + KeysOf(Insert(gs[1..], k, x));
    } else if |gs| > 0 {
      assert KeysOf(Insert(gs, k, x)) == KeysOf(gs);
    }
  }

  /** One insertion: the grouping of the key gains `x` at its end, every other grouping is unchanged, a new key's grouping is `[x]`. */
  lemma {:induction false} InsertElements<K, T>(gs: seq<Grouping<K, T>>, k: K, x: T)
    requires NoDuplicates(KeysOf(gs))
    ensures |Insert(gs, k, x)| >= |gs|
    ensures forall i :: 0 <= i < |gs| ==>
      Insert(gs, k, x)[i].elements == gs[i].elements + if gs[i].key == k then [x] else []
    ensures k !in KeysOf(gs) ==> |Insert(gs, k, x)| == |gs| + 1 && Insert(gs, k, x)[|gs|].elements == [x]
    decreases |gs|
  {
    if |gs| > 0 && gs[0].key != k {
      var tl := gs[1..];
      assert KeysOf(tl) == KeysOf(gs)[1..];
      InsertElements(tl, k, x);
      var r, r' := Insert(gs, k, x), Insert(tl, k, x);
      assert r == [gs[0]] + r';
      forall i | 1 <= i < |gs|
        ensures r[i].elements == gs[i].elements + if gs[i].key == k then [x] else []
      {
        assert r[i] == r'[i - 1] && gs[i] == tl[i - 1];
      }
      if k !in KeysOf(gs) {
        assert k !in KeysOf(tl);
        assert r[|gs|] == r'[|tl|];
      }
    } else if |gs| > 0 {
      var r := Insert(gs, k, x);
      forall i | 1 <= i < |gs| ensures gs[i].key != k {
        assert KeysOf(gs)[0] != KeysOf(gs)[i];
      }
      assert r[1..] == gs[1..];
      assert k in KeysOf(gs);
    }
  }

  /** One insertion adds exactly one element to the lookup. */
  lemma {:induction false} InsertSize<K, T>(gs: seq<Grouping<K, T>>, k: K, x: T)
    ensures TotalSize(Insert(gs, k, x)) == TotalSize(gs) + 1
    decreases |gs|
  {
    if |gs| > 0 && gs[0].key != k {
      InsertSize(gs[1..], k, x);
      assert Insert(gs, k, x)[1..] == Insert(gs[1..], k, x);
    } else if |gs| > 0 {
      assert Insert(gs, k, x)[1..] == gs[1..];
    }
  }

  /** `Distinct` keeps exactly the keys of `ks`. */
  lemma {:induction false} DistinctMembers<K>(ks: seq<K>)
    ensures forall k :: k in Distinct(ks) ==> k in ks
    ensures forall k :: k in ks ==> k in Distinct(ks)
    decreases |ks|
  {
    if |ks| > 0 {
      var init := ks[..|ks| - 1];
      assert ks == init + [ks[|ks| - 1]];
      DistinctMembers(init);
    }
  }

  /** `Distinct` lists no key twice. */
  lemma {:induction false} DistinctNoDuplicates<K>(ks: seq<K>)
    ensures NoDuplicates(Distinct(ks))
    decreases |ks|
  {
    if |ks| > 0 {
      DistinctNoDuplicates(ks[..|ks| - 1]);
    }
  }

  /** `Distinct` lists the keys in order of their first occurrence. */
  lemma {:induction false} DistinctOrder<K>(ks: seq<K>)
    ensures InFirstOccurrenceOrder(Distinct(ks), ks)
    decreases |ks|
  {
    if |ks| > 0 {
      var init, k := ks[..|ks| - 1], ks[|ks| - 1];
      DistinctOrder(init);
      DistinctMembers(init);
      var d, d' := Distinct(init), Distinct(ks);
      forall i, j, p | 0 <= i < j < |d'| && 0 <= p < |ks| && ks[p] == d'[j]
        ensures d'[i] in ks[..p]
      {
        if p < |init| {
          assert init[p] in init;
          assert j < |d|;
          assert ks[..p] == init[..p];
          assert d'[i] == d[i] && d'[j] == d[j];
        } else {
          assert ks[..p] == init;
          assert i < |d|;
          assert d'[i] == d[i] && d[i] in d;
        }
      }
    }
  }

  /** `Distinct` has one entry per distinct key. */
  lemma {:induction false} DistinctCount<K>(ks: seq<K>)
    ensures |Distinct(ks)| == |set k | k in ks|
    decreases |ks|
  {
    if |ks| > 0 {
      var init, k := ks[..|ks| - 1], ks[|ks| - 1];
      DistinctCount(init);
      DistinctMembers(init);
      var before := set z | z in init;
      assert ks == init + [k];
      assert (set z | z in ks) == before + {k};
      if k in init {
        assert before + {k} == before;
      } else {
        assert k !in before;
      }
    }
  }

  /** `Filter` of a source extended by one element. */
  lemma FilterSnoc<T, K>(xs: seq<T>, key: T -> K, k: K)
    requires |xs| > 0
    ensures Filter(xs, key, k) ==
      Filter(xs[..|xs| - 1], key, k) + if key(xs[|xs| - 1]) == k then [xs[|xs| - 1]] else []
  {
  }

  /** `Filter` of a key that never occurs is empty. */
  lemma {:induction false} FilterAbsent<T, K>(xs: seq<T>, key: T -> K, k: K)
    requires forall i :: 0 <= i < |xs| ==> key(xs[i]) != k
    ensures Filter(xs, key, k) == []
    decreases |xs|
  {
    if |xs| > 0 {
      FilterAbsent(xs[..|xs| - 1], key, k);
    }
  }

  /** The lookup's keys are the distinct keys of the source, in order of first occurrence. */
  lemma {:induction false} GroupByKeysAreDistinct<T, K>(xs: seq<T>, key: T -> K)
    ensures KeysOf(GroupBy(xs, key)) == Distinct(KeySeq(xs, key))
    decreases |xs|
  {
    if |xs| > 0 {
      var init, x := xs[..|xs| - 1], xs[|xs| - 1];
      GroupByKeysAreDistinct(init, key);
      InsertKeys(GroupBy(init, key), key(x), x);
      var ks := KeySeq(xs, key);
      assert ks[..|xs| - 1] == KeySeq(init, key);
      assert ks[|xs| - 1] == key(x);
      assert Distinct(ks) == var d := Distinct(KeySeq(init, key)); if key(x) in d then d else d + [key(x)];
    }
  }

  /** Each grouping holds exactly the source elements of its key, in source order. */
  lemma {:induction false} GroupByIsReference<T, K>(xs: seq<T>, key: T -> K)
    ensures forall i :: 0 <= i < |GroupBy(xs, key)| ==>
      GroupBy(xs, key)[i].elements == Filter(xs, key, GroupBy(xs, key)[i].key)
    decreases |xs|
  {
    if |xs| > 0 {
      var init, x := xs[..|xs| - 1], xs[|xs| - 1];
      var gs := GroupBy(init, key);
      GroupByIsReference(init, key);
      GroupByKeysAreDistinct(init, key);
      DistinctNoDuplicates(KeySeq(init, key));
      DistinctMembers(KeySeq(init, key));
      InsertKeys(gs, key(x), x);
      InsertElements(gs, key(x), x);
      var r := GroupBy(xs, key);
      forall i | 0 <= i < |r| ensures r[i].elements == Filter(xs, key, r[i].key) {
        FilterSnoc(xs, key, r[i].key);
        if i == |gs| {
          assert key(x) !in KeysOf(gs);
          assert key(x) !in KeySeq(init, key);
          FilterAbsent(init, key, key(x));
        } else {
          assert r[i].key == gs[i].key;
        }
      }
    }
  }

  /** No element is lost or repeated: the groupings together hold as many elements as the source. */
  lemma {:induction false} GroupBySize<T, K>(xs: seq<T>, key: T -> K)
    ensures TotalSize(GroupBy(xs, key)) == |xs|
    decreases |xs|
  {
    if |xs| > 0 {
      var init, x := xs[..|xs| - 1], xs[|xs| - 1];
      GroupBySize(init, key);
      InsertSize(GroupBy(init, key), key(x), x);
    }
  }

  /**
   * The groupings of `GroupBy`: one per distinct key, with no key twice,
   * in order of the keys' first occurrence in the source.
   */
  lemma GroupByKeys<T, K>(xs: seq<T>, key: T -> K)
    ensures NoDuplicates(KeysOf(GroupBy(xs, key)))
    ensures InFirstOccurrenceOrder(KeysOf(GroupBy(xs, key)), KeySeq(xs, key))
    ensures forall x :: x in xs ==> key(x) in KeysOf(GroupBy(xs, key))
  {
    GroupByKeysAreDistinct(xs, key);
    var ks := KeySeq(xs, key);
    DistinctMembers(ks);
    DistinctNoDuplicates(ks);
    DistinctOrder(ks);
    forall x | x in xs ensures key(x) in ks {
      var i :| 0 <= i < |xs| && xs[i] == x;
      assert ks[i] == key(x);
    }
  }

  /** There are as many groupings as distinct keys. */
  lemma GroupByCount<T, K>(xs: seq<T>, key: T -> K)
    ensures |GroupBy(xs, key)| == |KeySet(xs, key)|
  {
    GroupByKeysAreDistinct(xs, key);
    var ks := KeySeq(xs, key);
    DistinctCount(ks);
    assert KeySet(xs, key) == (set k | k in ks) by {
      forall k | k in ks ensures k in KeySet(xs, key) {
        var i :| 0 <= i < |ks| && ks[i] == k;
        assert xs[i] in xs;
      }
    }
  }

  /** Every element of a `Filter` is a source element with that key. */
  lemma {:induction false} FilterMembers<T, K>(xs: seq<T>, key: T -> K, k: K)
    ensures forall y :: y in Filter(xs, key, k) ==> y in xs && key(y) == k
    ensures forall y :: y in xs && key(y) == k ==> y in Filter(xs, key, k)
    decreases |xs|
  {
    if |xs| > 0 {
      var init := xs[..|xs| - 1];
      FilterMembers(init, key, k);
      assert xs == init + [xs[|xs| - 1]];
    }
  }

  /** Every source element lies in the grouping of its key; with `GroupByKeys`, there is exactly one such grouping. */
  lemma GroupByCovers<T, K>(xs: seq<T>, key: T -> K)
    ensures forall i, x :: 0 <= i < |GroupBy(xs, key)| && x in xs && key(x) == GroupBy(xs, key)[i].key ==>
      x in GroupBy(xs, key)[i].elements
  {
    var gs := GroupBy(xs, key);
    GroupByIsReference(xs, key);
    forall i, x | 0 <= i < |gs| && x in xs && key(x) == gs[i].key ensures x in gs[i].elements {
      FilterMembers(xs, key, gs[i].key);
    }
  }

  /** A grouping holds nothing but source elements of its key. */
  lemma GroupByOnlyMembers<T, K>(xs: seq<T>, key: T -> K)
    ensures forall i, y :: 0 <= i < |GroupBy(xs, key)| && y in GroupBy(xs, key)[i].elements ==>
      y in xs && key(y) == GroupBy(xs, key)[i].key
  {
    var gs := GroupBy(xs, key);
    GroupByIsReference(xs, key);
    forall i, y | 0 <= i < |gs| && y in gs[i].elements ensures y in xs && key(y) == gs[i].key {
      FilterMembers(xs, key, gs[i].key);
    }
  }
}
