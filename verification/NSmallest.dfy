/** The n smallest items of an array, found with a heap of the n best ones seen so far. */
module SmallestItems {
  import opened Comparators
  import opened Permutations
  import opened RawHeaps
  import opened FixedReverseHeaps

  /** What the built-in sort does. */
  ghost predicate Sorts<T(!new)>(sort: seq<T> -> seq<T>, compare: (T, T) -> int) {
    forall s :: SortedBy(compare, sort(s)) && Permuted(sort(s), s)
  }

  lemma SortedResult<T(!new)>(sort: seq<T> -> seq<T>, compare: (T, T) -> int, s: seq<T>)
    requires Sorts(sort, compare)
    ensures SortedBy(compare, sort(s)) && multiset(sort(s)) == multiset(s)
  {
  }

  lemma AllAreBest<T(!new)>(compare: (T, T) -> int, items: seq<T>, n: nat)
    requires n >= |items|
    ensures BestOf(compare, multiset(items), multiset(items), n)
  {
    assert |multiset(items)| == |items|;
  }

  /** The n smallest items, smallest first; a single one is looked for by itself. */
  method NSmallest<T(==,!new)>(compare: (T, T) -> int, n: nat, items: seq<T>, sort: seq<T> -> seq<T>, infinity: T) returns (result: seq<T>)
    requires TotalPreorder(compare) && Sorts(sort, compare) && n >= 1
    ensures n == 1 ==> result == [Scan(compare, items, infinity)]
    ensures n > 1 ==> SortedBy(compare, result) && BestOf(compare, multiset(result), multiset(items), n)
    ensures n > 1 ==>
              && (forall i, j :: 0 <= i < j < |result| ==> compare(result[i], result[j]) <= 0)
              && multiset(result) <= multiset(items) && |result| == (if n <= |items| then n else |items|)
              && forall x, y :: x in result && y in multiset(items) - multiset(result) ==> compare(x, y) <= 0
  {
    hide Sorts, TotalPreorder, BestOf, HeapFrom, SortedBy;
    if n == 1 {
      var min := OneSmallest(compare, items, infinity);
      return [min];
    }
    // All items are among the n smallest: just sort them
    if n >= |items| {
      AllAreBest(compare, items, n);
      SortedResult(sort, compare, items);
      result := sort(items);
      Chosen(compare, result, items, n);
      return;
    }
    ReverseIsTotal(compare);
    var heap := new Buffer(items[..n]);
    AllAreBest(compare, items[..n], n);
    Heapify(Reverse(compare), heap);
    PermutedLength(heap.items, items[..n]);
    for i := n to |items|
      invariant |heap.items| == n && HeapFrom(Reverse(compare), heap.items, n, 0)
      invariant BestOf(compare, multiset(heap.items), multiset(items[..i]), n)
    {
      assert items[..i + 1] == items[..i] + [items[i]];
      Offer(compare, heap, items[i], multiset(items[..i]));
    }
    assert items[..|items|] == items;
    SortedResult(sort, compare, heap.items);
    result := sort(heap.items);
    Chosen(compare, result, items, n);
  }

  lemma Chosen<T(!new)>(compare: (T, T) -> int, result: seq<T>, items: seq<T>, n: nat)
    requires SortedBy(compare, result) && BestOf(compare, multiset(result), multiset(items), n)
    ensures forall i, j :: 0 <= i < j < |result| ==> compare(result[i], result[j]) <= 0
    ensures multiset(result) <= multiset(items) && |result| == if n <= |items| then n else |items|
    ensures forall x, y :: x in result && y in multiset(items) - multiset(result) ==> compare(x, y) <= 0
  {
    assert |multiset(result)| == |result| && |multiset(items)| == |items|;
  }

  /** The item replaces the worst one kept if it goes before it. */
  method Offer<T(!new)>(compare: (T, T) -> int, heap: Buffer<T>, item: T, ghost seen: multiset<T>)
    requires TotalPreorder(compare) && heap.items != []
    requires HeapFrom(Reverse(compare), heap.items, |heap.items|, 0)
    requires BestOf(compare, multiset(heap.items), seen, |heap.items|)
    modifies heap
    ensures |heap.items| == |old(heap.items)| && HeapFrom(Reverse(compare), heap.items, |heap.items|, 0)
    ensures BestOf(compare, multiset(heap.items), seen + multiset{item}, |heap.items|)
  {
    hide TotalPreorder, BestOf, HeapFrom;
    ghost var was := heap.items;
    assert was[..|was|] == was;
    ReverseIsTotal(compare);
    WorstIsRoot(compare, was, |was|);
    if Reverse(compare)(item, heap.items[0]) > 0 {
      var worst := RawHeaps.Replace(Reverse(compare), heap, item);
      KeepBetter(compare, multiset(was), seen, item, was[0], |was|);
    } else {
      KeepOld(compare, multiset(was), seen, item, was[0], |was|);
    }
  }

  // ----- One smallest item -----

  /** The smallest item, looked for with a marker that stands for "none yet". */
  method OneSmallest<T(==,!new)>(compare: (T, T) -> int, items: seq<T>, marker: T) returns (min: T)
    requires TotalPreorder(compare)
    ensures min == Scan(compare, items, marker)
  {
    min := marker;
    for i := 0 to |items|
      invariant min == Scan(compare, items[..i], marker)
    {
      var v := items[i];
      ScanNext(compare, items[..i], v, marker);
      assert items[..i + 1] == items[..i] + [v];
      if min == marker || compare(v, min) < 0 {
        min := v;
      }
    }
    assert items[..|items|] == items;
  }

  function Scan<T(==)>(compare: (T, T) -> int, items: seq<T>, marker: T): T {
    if items == [] then marker
    else
      var min, v := Scan(compare, items[..|items| - 1], marker), items[|items| - 1];
      if min == marker || compare(v, min) < 0 then v else min
  }

  lemma ScanNext<T>(compare: (T, T) -> int, items: seq<T>, v: T, marker: T)
    ensures var min := Scan(compare, items, marker);
            Scan(compare, items + [v], marker) == if min == marker || compare(v, min) < 0 then v else min
  {
    assert (items + [v])[..|items|] == items;
  }

  ghost predicate IsSmallest<T(!new)>(compare: (T, T) -> int, items: seq<T>, min: T) {
    min in items && forall x :: x in items ==> compare(min, x) <= 0
  }

  /** The scan ends on a smallest item, unless the marker itself is one of the items and goes before the result. */
  lemma {:induction false} ScanOrMarker<T(!new)>(compare: (T, T) -> int, items: seq<T>, marker: T)
    requires TotalPreorder(compare) && items != []
    ensures var min := Scan(compare, items, marker);
            && min in items
            && (forall x :: x in items ==> compare(min, x) <= 0 || (marker in items && compare(marker, x) <= 0))
  {
    var n := |items| - 1;
    var init, v := items[..n], items[n];
    assert items == init + [v];
    assert compare(v, v) <= 0 by {
      assert compare(v, v) < 0 <==> compare(v, v) > 0;
    }
    if n > 0 {
      ScanOrMarker(compare, init, marker);
      var min0, min := Scan(compare, init, marker), Scan(compare, items, marker);
      forall x | x in items
        ensures compare(min, x) <= 0 || (marker in items && compare(marker, x) <= 0)
      {
        if x in init && compare(min0, x) <= 0 && compare(v, min0) < 0 {
          Transitive(compare, v, min0, x);
        }
      }
    }
  }

  /** An item other than the marker that goes no later than it is never forgotten for good. */
  lemma {:induction false} KeptBelowMarker<T(!new)>(compare: (T, T) -> int, items: seq<T>, marker: T, v: T)
    requires TotalPreorder(compare) && v in items && v != marker && compare(v, marker) <= 0
    ensures Scan(compare, items, marker) != marker && compare(Scan(compare, items, marker), marker) <= 0
  {
    var n := |items| - 1;
    var init, last := items[..n], items[n];
    assert items == init + [last];
    var min0 := Scan(compare, init, marker);
    if v in init {
      KeptBelowMarker(compare, init, marker, v);
      if compare(last, min0) < 0 {
        Transitive(compare, last, min0, marker);
      }
    } else if min0 != marker && compare(v, min0) >= 0 {
      Transitive(compare, min0, v, marker);
    }
  }

  /** The single item found is a smallest one exactly when the marker is not itself an item, or comes last,
      or another item goes no later than it. With the default order the marker, infinity, goes after all
      items; with an order of the caller's it may go first. */
  lemma ScanIsSmallestIff<T(!new)>(compare: (T, T) -> int, items: seq<T>, marker: T)
    requires TotalPreorder(compare) && items != []
    ensures IsSmallest(compare, items, Scan(compare, items, marker)) <==>
              marker !in items || items[|items| - 1] == marker || exists v :: v in items && v != marker && compare(v, marker) <= 0
  {
    var min, n := Scan(compare, items, marker), |items| - 1;
    ScanOrMarker(compare, items, marker);
    ScanNext(compare, items[..n], items[n], marker);
    assert items == items[..n] + [items[n]];
    if v :| v in items && v != marker && compare(v, marker) <= 0 {
      KeptBelowMarker(compare, items, marker, v);
    }
    forall x | x in items && compare(min, marker) <= 0 && compare(marker, x) <= 0
      ensures compare(min, x) <= 0
    {
      Transitive(compare, min, marker, x);
    }
    assert compare(marker, marker) < 0 <==> compare(marker, marker) > 0;
  }

  /** Greatest first, the marker 9 is the smallest item, and the scan forgets it. */
  lemma MarkerForgotten()
    ensures var compare := (a: int, b: int) => b - a;
            Scan(compare, [9, 3], 9) == 3 && !IsSmallest(compare, [9, 3], 3)
  {
    var compare := (a: int, b: int) => b - a;
    ScanNext(compare, [], 9, 9);
    ScanNext(compare, [9], 3, 9);
    assert [] + [9] == [9] && [9] + [3] == [9, 3];
    assert 9 in [9, 3] && compare(3, 9) > 0;
  }
}
