/**
  Ranking by quantity for getTopKItems: the source copies the items into a
  list and sorts it in place with a comparator on quantity, reversed
  (largest first). The sort is stable in the source; since the list's initial
  order is the hash map's, no tie-break is promised here.
 */
module Ranking {
  import opened Inventory

  /** Quantities never increase along `s`. */
  predicate SortedByQuantityDesc(s: seq<Item>)
  {
    forall p, q :: 0 <= p < q < |s| ==> s[p].quantity >= s[q].quantity
  }

  /**
    `r` is a top-k answer over the items of `byId`: min(k, N) of them, each
    once, largest quantity first, and none smaller than an item left out.
   */
  ghost predicate IsTopK(r: seq<Item>, byId: map<string, Item>, k: nat)
  {
    && |r| == (if k < |byId| then k else |byId|)
    && SortedByQuantityDesc(r)
    && (forall i :: 0 <= i < |r| ==> r[i].id in byId && byId[r[i].id] == r[i])
    && (forall i, j :: 0 <= i < j < |r| ==> r[i].id != r[j].id)
    && (forall i, key :: 0 <= i < |r| && key in byId && byId[key] !in r ==>
          r[i].quantity >= byId[key].quantity)
  }

  /** A permutation has the same length and the same members. */
  lemma PermutationSameMembers<T>(s: seq<T>, t: seq<T>)
    requires multiset(s) == multiset(t)
    ensures |s| == |t|
    ensures forall x :: x in s <==> x in t
  {
    assert |multiset(s)| == |multiset(t)|;
    forall x
      ensures x in s <==> x in t
    {
      assert x in s <==> multiset(s)[x] > 0;
      assert x in t <==> multiset(t)[x] > 0;
    }
  }

  /** In a sorted sequence, an entry beyond the first `n` is no larger than any of them. */
  lemma SortedPrefixDominates(sorted: seq<Item>, n: nat, x: Item)
    requires SortedByQuantityDesc(sorted) && n <= |sorted|
    requires x in sorted && x !in sorted[..n]
    ensures forall i :: 0 <= i < n ==> sorted[i].quantity >= x.quantity
  {
    var j :| 0 <= j < |sorted| && sorted[j] == x;
  }

  /** The first min(k, N) entries of a sorted permutation of all items are a top-k answer. */
  lemma SortedPrefixIsTopK(all: seq<Item>, sorted: seq<Item>, byId: map<string, Item>, k: nat)
    requires Enumerates(all, byId)
    requires multiset(sorted) == multiset(all) && SortedByQuantityDesc(sorted)
    ensures IsTopK(sorted[..if k < |sorted| then k else |sorted|], byId, k)
  {
    var n := if k < |sorted| then k else |sorted|;
    var r := sorted[..n];
    PrefixEntriesStored(all, sorted, byId, r);
    PrefixDistinct(all, sorted, byId, r);
    PrefixDominatesRest(all, sorted, byId, r);
  }

  /** Every entry of a prefix of a permutation of the stored items is stored under its identifier. */
  lemma PrefixEntriesStored(all: seq<Item>, sorted: seq<Item>, byId: map<string, Item>, r: seq<Item>)
    requires Enumerates(all, byId)
    requires multiset(sorted) == multiset(all)
    requires r <= sorted
    ensures |sorted| == |byId|
    ensures forall i :: 0 <= i < |r| ==> r[i].id in byId && byId[r[i].id] == r[i]
  {
    PermutationSameMembers(all, sorted);
    forall i | 0 <= i < |r| ensures r[i].id in byId && byId[r[i].id] == r[i] {
      assert r[i] == sorted[i];
      assert r[i] in all;
    }
  }

  /** A prefix of a permutation of the stored items holds no identifier twice. */
  lemma PrefixDistinct(all: seq<Item>, sorted: seq<Item>, byId: map<string, Item>, r: seq<Item>)
    requires Enumerates(all, byId)
    requires multiset(sorted) == multiset(all)
    requires r <= sorted
    ensures forall i, j :: 0 <= i < j < |r| ==> r[i].id != r[j].id
  {
    PermutationSameMembers(all, sorted);
    assert NoDuplicates(all) by {
      forall i, j | 0 <= i < j < |all| ensures all[i] != all[j] {
        assert all[i].id != all[j].id;
      }
    }
    PermutationKeepsDistinct(all, sorted);
    forall i, j | 0 <= i < j < |r| ensures r[i].id != r[j].id {
      assert r[i] == sorted[i] && r[j] == sorted[j];
      assert r[i] in all && r[j] in all;
      var p :| 0 <= p < |all| && all[p] == r[i];
      var q :| 0 <= q < |all| && all[q] == r[j];
      assert p != q;
    }
  }

  /** A prefix of a sorted permutation of the stored items is sorted, and no entry is smaller than a stored item left out. */
  lemma PrefixDominatesRest(all: seq<Item>, sorted: seq<Item>, byId: map<string, Item>, r: seq<Item>)
    requires Enumerates(all, byId)
    requires multiset(sorted) == multiset(all) && SortedByQuantityDesc(sorted)
    requires r <= sorted
    ensures SortedByQuantityDesc(r)
    ensures forall i, key :: 0 <= i < |r| && key in byId && byId[key] !in r ==>
      r[i].quantity >= byId[key].quantity
  {
    PermutationSameMembers(all, sorted);
    assert r == sorted[..|r|];
    forall i, key | 0 <= i < |r| && key in byId && byId[key] !in r
      ensures r[i].quantity >= byId[key].quantity
    {
      var p :| 0 <= p < |all| && all[p].id == key;
      assert all[p] == byId[key];
      SortedPrefixDominates(sorted, |r|, byId[key]);
    }
  }

  /** A new list holding `items`, sorted in place, largest quantity first. */
  method SortedCopy(items: seq<Item>) returns (sorted: seq<Item>)
    ensures SortedByQuantityDesc(sorted)
    ensures multiset(sorted) == multiset(items)
  {
    var a := new Item[|items|](i requires 0 <= i < |items| => items[i]);
    assert a[..] == items;
    SortByQuantityDesc(a);
    sorted := a[..];
  }

  /** Sorts `a` in place, largest quantity first, by insertion. */
  method SortByQuantityDesc(a: array<Item>)
    modifies a
    ensures SortedByQuantityDesc(a[..])
    ensures multiset(a[..]) == multiset(old(a[..]))
  {
    for i := 0 to a.Length
      invariant forall p, q :: 0 <= p < q < i ==> a[p].quantity >= a[q].quantity
      invariant multiset(a[..]) == multiset(old(a[..]))
    {
      Insert(a, i);
    }
  }

  /** Moves `a[i]` down into the sorted prefix `a[..i]`, leaving `a[..i + 1]` sorted. */
  method Insert(a: array<Item>, i: nat)
    requires i < a.Length
    requires forall p, q :: 0 <= p < q < i ==> a[p].quantity >= a[q].quantity
    modifies a
    ensures forall p, q :: 0 <= p < q <= i ==> a[p].quantity >= a[q].quantity
    ensures multiset(a[..]) == multiset(old(a[..]))
    ensures forall m :: i < m < a.Length ==> a[m] == old(a[m])
  {
    var j := i;
    while j > 0 && a[j - 1].quantity < a[j].quantity
      invariant 0 <= j <= i
      invariant forall p, q :: 0 <= p < q <= i && p != j && q != j ==> a[p].quantity >= a[q].quantity
      invariant forall q :: j < q <= i ==> a[j].quantity >= a[q].quantity
      invariant multiset(a[..]) == multiset(old(a[..]))
      invariant forall m :: i < m < a.Length ==> a[m] == old(a[m])
    {
      Swap(a, j - 1, j);
      j := j - 1;
    }
  }

  method Swap(a: array<Item>, i: nat, j: nat)
    requires i < j < a.Length
    modifies a
    ensures a[i] == old(a[j]) && a[j] == old(a[i])
    ensures forall m :: 0 <= m < a.Length && m != i && m != j ==> a[m] == old(a[m])
    ensures multiset(a[..]) == multiset(old(a[..]))
  {
    a[i], a[j] := a[j], a[i];
  }

  lemma {:induction false} DistinctCountsAtMostOne<T>(s: seq<T>, x: T)
    requires NoDuplicates(s)
    ensures multiset(s)[x] <= 1
    decreases |s|
  {
    if s != [] {
      assert s == [s[0]] + s[1..];
      DistinctCountsAtMostOne(s[1..], x);
      if x == s[0] {
        assert x !in s[1..];
      }
    }
  }

  /** A permutation of a sequence without duplicates has none either. */
  lemma PermutationKeepsDistinct<T>(s: seq<T>, t: seq<T>)
    requires NoDuplicates(s) && multiset(s) == multiset(t)
    ensures NoDuplicates(t)
  {
    forall i, j | 0 <= i < j < |t|
      ensures t[i] != t[j]
    {
      if t[i] == t[j] {
        assert t == t[..j] + [t[j]] + t[j + 1..];
        assert t[..j][i] == t[i];
        assert multiset(t)[t[i]] >= 2;
        DistinctCountsAtMostOne(s, t[i]);
        assert false;
      }
    }
  }
}
