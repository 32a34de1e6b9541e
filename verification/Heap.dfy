/** Binary heaps as functions over a growable array. */
module RawHeaps {
  import opened Options
  import opened Comparators
  import opened Permutations

  /** An array whose length can change, shared by reference. */
  class Buffer<T> {
    var items: seq<T>

    constructor (items: seq<T>)
      ensures this.items == items
    {
      this.items := items;
    }
  }

  function Parent(c: nat): nat
    requires c > 0
  {
    (c - 1) / 2
  }

  /** The entry at c does not go before its parent. */
  ghost predicate InOrder<T(!new)>(compare: (T, T) -> int, s: seq<T>, c: nat)
    requires 0 < c < |s|
  {
    compare(s[Parent(c)], s[c]) <= 0
  }

  /** The first n entries form a heap as far as parents from `start` on are concerned. */
  ghost predicate HeapFrom<T(!new)>(compare: (T, T) -> int, s: seq<T>, n: nat, start: nat)
    requires n <= |s|
  {
    forall c {:trigger InOrder(compare, s, c)} :: 0 < c < n && Parent(c) >= start ==> InOrder(compare, s, c)
  }

  ghost predicate Below(start: nat, i: nat) {
    i == start || (i > start && Below(start, Parent(i)))
  }

  lemma {:induction false} RootIsLeast<T(!new)>(compare: (T, T) -> int, s: seq<T>, n: nat, x: nat)
    requires TotalPreorder(compare) && n <= |s| && HeapFrom(compare, s, n, 0) && x < n
    ensures compare(s[0], s[x]) <= 0
  {
    if x == 0 {
      assert compare(s[0], s[0]) < 0 <==> compare(s[0], s[0]) > 0;
    } else {
      RootIsLeast(compare, s, n, Parent(x));
      assert InOrder(compare, s, x);
      Transitive(compare, s[0], s[Parent(x)], s[x]);
    }
  }

  // ----- Moving an item towards the root -----

  /** `item` waits for a place at the hole i; everything else below `start` is in order, and
      stays so whichever of the item and i's parent is written to the hole. */
  ghost predicate Rising<T(!new)>(compare: (T, T) -> int, s: seq<T>, n: nat, start: nat, i: nat, item: T)
    requires n <= |s|
  {
    && i < n
    && (forall c {:trigger InOrder(compare, s, c)} ::
          0 < c < n && Parent(c) >= start && c != i && Parent(c) != i ==> InOrder(compare, s, c))
    && (forall c {:trigger Parent(c)} :: 0 < c < n && Parent(c) == i ==>
          compare(item, s[c]) <= 0 && (i > start ==> compare(s[Parent(i)], s[c]) <= 0))
  }

  lemma Rise<T(!new)>(compare: (T, T) -> int, s: seq<T>, n: nat, start: nat, i: nat, item: T)
    requires TotalPreorder(compare) && n <= |s|
    requires Rising(compare, s, n, start, i, item) && start < i && Below(start, i)
    requires compare(item, s[Parent(i)]) < 0
    ensures Rising(compare, s[i := s[Parent(i)]], n, start, Parent(i), item)
  {
    var p := Parent(i);
    var s' := s[i := s[p]];
    forall c | 0 < c < n && Parent(c) >= start && c != p && Parent(c) != p
      ensures InOrder(compare, s', c)
    {
      if Parent(c) != i {
        assert InOrder(compare, s, c);
      }
    }
    forall c | 0 < c < n && Parent(c) == p
      ensures compare(item, s'[c]) <= 0 && (p > start ==> compare(s'[Parent(p)], s'[c]) <= 0)
    {
      if c != i {
        assert InOrder(compare, s, c);
        Transitive(compare, item, s[p], s[c]);
      }
      if p > start {
        BelowIsLater(start, Parent(p));
        assert InOrder(compare, s, p);
        Transitive(compare, s[Parent(p)], s[p], s'[c]);
      }
    }
  }

  lemma Settle<T(!new)>(compare: (T, T) -> int, s: seq<T>, n: nat, start: nat, i: nat, item: T)
    requires TotalPreorder(compare) && n <= |s|
    requires Rising(compare, s, n, start, i, item)
    requires i == start || (start < i && compare(item, s[Parent(i)]) >= 0)
    ensures HeapFrom(compare, s[i := item], n, start)
  {
    var s' := s[i := item];
    forall c | 0 < c < n && Parent(c) >= start
      ensures InOrder(compare, s', c)
    {
      if c != i && Parent(c) != i {
        assert InOrder(compare, s, c);
      }
    }
  }

  /** Lets the entry of leaf i rise to its place below startIndex. */
  method SiftDown<T(!new)>(compare: (T, T) -> int, heap: Buffer<T>, startIndex: nat, i0: nat, ghost n: nat)
    requires TotalPreorder(compare) && n <= |heap.items|
    requires i0 < n <= 2 * i0 + 1 && Below(startIndex, i0)
    requires forall c {:trigger InOrder(compare, heap.items, c)} ::
               0 < c < n && Parent(c) >= startIndex && c != i0 ==> InOrder(compare, heap.items, c)
    modifies heap
    ensures |heap.items| == old(|heap.items|) && heap.items[n..] == old(heap.items[n..])
    ensures HeapFrom(compare, heap.items, n, startIndex)
    ensures Permuted(heap.items, old(heap.items))
  {
    var i := i0;
    var item := heap.items[i];
    ghost var was := heap.items;
    assert was[i := item] == was;
    while i > startIndex
      invariant |heap.items| == |was| && heap.items[n..] == was[n..]
      invariant i < n && Below(startIndex, i)
      invariant Rising(compare, heap.items, n, startIndex, i, item)
      invariant Permuted(heap.items[i := item], was)
    {
      var parentIndex := Parent(i);
      var parent := heap.items[parentIndex];
      if compare(item, parent) < 0 {
        Rise(compare, heap.items, n, startIndex, i, item);
        MoveHole(heap.items, i, parentIndex, item);
        heap.items := heap.items[i := parent];
        i := parentIndex;
        continue;
      }
      break;
    }
    Settle(compare, heap.items, n, startIndex, i, item);
    heap.items := heap.items[i := item];
  }

  // ----- Moving an item towards the leaves and back -----

  /** Descending from `start`: the hole i repeats its parent's entry, so the heap is in order,
      except that nothing is known of start's children before the first step. */
  ghost predicate Sinking<T(!new)>(compare: (T, T) -> int, s: seq<T>, n: nat, start: nat, i: nat)
    requires n <= |s|
  {
    && i < n && Below(start, i)
    && HeapFrom(compare, s, n, if i == start then start + 1 else start)
  }

  lemma Sink<T(!new)>(compare: (T, T) -> int, s: seq<T>, n: nat, start: nat, i: nat, c: nat)
    requires TotalPreorder(compare) && n <= |s| && Sinking(compare, s, n, start, i)
    requires 0 < c < n && Parent(c) == i
    requires forall d {:trigger Parent(d)} :: 0 < d < n && Parent(d) == i ==> compare(s[c], s[d]) <= 0
    ensures Sinking(compare, s[i := s[c]], n, start, c)
  {
    var s' := s[i := s[c]];
    forall d | 0 < d < n && Parent(d) >= start
      ensures InOrder(compare, s', d)
    {
      if d == i {
        assert InOrder(compare, s, i);
        assert InOrder(compare, s, c);
        Transitive(compare, s[Parent(i)], s[i], s[c]);
      } else if Parent(d) != i {
        assert Parent(d) != start || i != start;
        assert InOrder(compare, s, d);
      }
    }
  }

  lemma BelowIsLater(start: nat, i: nat)
    requires Below(start, i)
    ensures start <= i
  {
  }

  /** Sends the entry of i down to a leaf along the smaller children, then lets it rise. */
  method SiftUp<T(!new)>(compare: (T, T) -> int, heap: Buffer<T>, endIndex: nat, i0: nat)
    requires TotalPreorder(compare) && i0 < endIndex <= |heap.items|
    requires HeapFrom(compare, heap.items, endIndex, i0 + 1)
    modifies heap
    ensures |heap.items| == old(|heap.items|) && heap.items[endIndex..] == old(heap.items[endIndex..])
    ensures HeapFrom(compare, heap.items, endIndex, i0)
    ensures Permuted(heap.items, old(heap.items))
  {
    hide HeapFrom, TotalPreorder, Sinking, Permuted, Parent, Below, InOrder;
    var i := i0;
    var startIndex := i;
    var item := heap.items[i];
    var childIndex := 2 * i + 1;
    ghost var was := heap.items;
    SinkingStarts(compare, was, endIndex, i);
    while childIndex < endIndex
      invariant |heap.items| == |was| && heap.items[endIndex..] == was[endIndex..]
      invariant childIndex == 2 * i + 1 && i < endIndex
      invariant Sinking(compare, heap.items, endIndex, startIndex, i)
      invariant Permuted(heap.items[i := item], was)
    {
      var rightIndex := childIndex + 1;
      if rightIndex < endIndex && compare(heap.items[childIndex], heap.items[rightIndex]) >= 0 {
        childIndex := rightIndex;
      }
      SinkTurn(compare, heap.items, endIndex, startIndex, i, childIndex, item, was);
      heap.items := heap.items[i := heap.items[childIndex]];
      i := childIndex;
      childIndex := 2 * i + 1;
    }
    SinkingEnds(compare, heap.items, endIndex, startIndex, i, item);
    heap.items := heap.items[i := item];
    ghost var settled := heap.items;
    SiftDown(compare, heap, startIndex, i, endIndex);
    PermutedThrough(heap.items, settled, was);
  }

  lemma PermutedThrough<T>(s: seq<T>, t: seq<T>, u: seq<T>)
    requires Permuted(s, t) && Permuted(t, u)
    ensures Permuted(s, u)
  {
  }

  lemma SinkingStarts<T(!new)>(compare: (T, T) -> int, s: seq<T>, n: nat, i: nat)
    requires i < n <= |s| && HeapFrom(compare, s, n, i + 1)
    ensures Sinking(compare, s, n, i, i) && Permuted(s[i := s[i]], s)
  {
    assert s[i := s[i]] == s;
  }

  /** One step down: the smaller child moves up and leaves the hole where it was. */
  lemma SinkTurn<T(!new)>(compare: (T, T) -> int, s: seq<T>, n: nat, start: nat, i: nat, c: nat, item: T, was: seq<T>)
    requires TotalPreorder(compare) && n <= |s| && Sinking(compare, s, n, start, i) && i < n && Permuted(s[i := item], was)
    requires if 2 * i + 2 < n && compare(s[2 * i + 1], s[2 * i + 2]) >= 0 then c == 2 * i + 2 else c == 2 * i + 1 < n
    ensures Sinking(compare, s[i := s[c]], n, start, c) && Permuted(s[i := s[c]][c := item], was)
  {
    hide HeapFrom, InOrder;
    SmallerChild(compare, s, n, i, c);
    Sink(compare, s, n, start, i, c);
    MoveHole(s, i, c, item);
  }

  /** At a leaf the item goes into the hole: only its order with its parent is open. */
  lemma SinkingEnds<T(!new)>(compare: (T, T) -> int, s: seq<T>, n: nat, start: nat, i: nat, item: T)
    requires n <= |s| && Sinking(compare, s, n, start, i) && n <= 2 * i + 1
    ensures i < n && Below(start, i)
    ensures forall c {:trigger InOrder(compare, s[i := item], c)} ::
              0 < c < n && Parent(c) >= start && c != i ==> InOrder(compare, s[i := item], c)
  {
    forall c {:trigger InOrder(compare, s[i := item], c)} | 0 < c < n && Parent(c) >= start && c != i
      ensures InOrder(compare, s[i := item], c)
    {
      if i != start {
        assert InOrder(compare, s, c);
      }
    }
  }

  lemma SmallerChild<T(!new)>(compare: (T, T) -> int, s: seq<T>, n: nat, i: nat, c: nat)
    requires TotalPreorder(compare) && n <= |s| && 0 < c < n && Parent(c) == i
    requires c == 2 * i + 1 ==> 2 * i + 2 < n ==> compare(s[c], s[2 * i + 2]) <= 0
    requires c == 2 * i + 2 ==> compare(s[2 * i + 1], s[c]) >= 0
    ensures forall d {:trigger Parent(d)} :: 0 < d < n && Parent(d) == i ==> compare(s[c], s[d]) <= 0
  {
    assert compare(s[c], s[c]) < 0 <==> compare(s[c], s[c]) > 0;
    forall d | 0 < d < n && Parent(d) == i
      ensures compare(s[c], s[d]) <= 0
    {
      assert d == 2 * i + 1 || d == 2 * i + 2;
    }
  }

  // ----- Operations on raw heaps -----

  method Push<T(!new)>(compare: (T, T) -> int, heap: Buffer<T>, item: T)
    requires TotalPreorder(compare) && HeapFrom(compare, heap.items, |heap.items|, 0)
    modifies heap
    ensures HeapFrom(compare, heap.items, |heap.items|, 0)
    ensures multiset(heap.items) == multiset(old(heap.items)) + multiset{item}
  {
    ghost var was := heap.items;
    heap.items := heap.items + [item];
    forall c | 0 < c < |was|
      ensures InOrder(compare, heap.items, c)
    {
      assert InOrder(compare, was, c);
    }
    BelowRoot(|was|);
    SiftDown(compare, heap, 0, |heap.items| - 1, |heap.items|);
  }

  lemma {:induction false} BelowRoot(i: nat)
    ensures Below(0, i)
  {
    if i > 0 {
      BelowRoot(Parent(i));
    }
  }

  /** Overwriting the root leaves order from the second level on. */
  lemma NewRoot<T(!new)>(compare: (T, T) -> int, s: seq<T>, n: nat, item: T)
    requires 0 < n <= |s| && HeapFrom(compare, s, n, 0)
    ensures HeapFrom(compare, s[0 := item], n, 1)
  {
    forall c | 0 < c < n && Parent(c) >= 1
      ensures InOrder(compare, s[0 := item], c)
    {
      assert InOrder(compare, s, c);
    }
  }

  /** x goes before or with every member. */
  ghost predicate LeastOf<T(!new)>(compare: (T, T) -> int, x: T, members: multiset<T>) {
    x in members && forall y :: y in members ==> compare(x, y) <= 0
  }

  lemma RootIsLeastOf<T(!new)>(compare: (T, T) -> int, s: seq<T>)
    requires TotalPreorder(compare) && s != [] && HeapFrom(compare, s, |s|, 0)
    ensures LeastOf(compare, s[0], multiset(s))
  {
    forall y | y in multiset(s)
      ensures compare(s[0], y) <= 0
    {
      var j := Member(s, y);
      RootIsLeast(compare, s, |s|, j);
    }
  }

  lemma HeapWithoutLast<T(!new)>(compare: (T, T) -> int, s: seq<T>)
    requires s != [] && HeapFrom(compare, s, |s|, 0)
    ensures var last := |s| - 1; HeapFrom(compare, s[..last], last, 0) && multiset(s) == multiset(s[..last]) + multiset{s[last]}
  {
    var rest := s[..|s| - 1];
    assert s == rest + [s[|s| - 1]];
    forall c | 0 < c < |rest|
      ensures InOrder(compare, rest, c)
    {
      assert InOrder(compare, s, c);
    }
  }

  /** Takes a least item out; an empty heap has none. */
  method Pop<T(!new)>(compare: (T, T) -> int, heap: Buffer<T>) returns (popped: Option<T>)
    requires TotalPreorder(compare) && HeapFrom(compare, heap.items, |heap.items|, 0)
    modifies heap
    ensures HeapFrom(compare, heap.items, |heap.items|, 0)
    ensures popped.None? <==> old(heap.items) == []
    ensures popped.None? ==> heap.items == []
    ensures popped.Some? ==>
              && LeastOf(compare, popped.value, multiset(old(heap.items)))
              && multiset(heap.items) == multiset(old(heap.items)) - multiset{popped.value}
              && |heap.items| == |old(heap.items)| - 1
    ensures popped.Some? ==> forall y :: y in old(heap.items) ==> compare(popped.value, y) <= 0
  {
    if |heap.items| == 0 {
      return None;
    }
    var least := PopLeast(compare, heap);
    popped := Some(least);
  }

  method PopLeast<T(!new)>(compare: (T, T) -> int, heap: Buffer<T>) returns (least: T)
    requires TotalPreorder(compare) && HeapFrom(compare, heap.items, |heap.items|, 0) && heap.items != []
    modifies heap
    ensures HeapFrom(compare, heap.items, |heap.items|, 0)
    ensures LeastOf(compare, least, multiset(old(heap.items)))
    ensures multiset(heap.items) == multiset(old(heap.items)) - multiset{least}
    ensures |heap.items| == |old(heap.items)| - 1
  {
    ghost var was := heap.items;
    RootIsLeastOf(compare, was);
    HeapWithoutLast(compare, was);
    hide HeapFrom, TotalPreorder, LeastOf;
    var last := |heap.items| - 1;
    var lastItem := heap.items[last];
    heap.items := heap.items[..last];
    least := lastItem;
    if |heap.items| != 0 {
      least := heap.items[0];
      RootReplaced(compare, was[..last], lastItem);
      heap.items := heap.items[0 := lastItem];
      SiftUp(compare, heap, |heap.items|, 0);
    }
  }

  lemma RootReplaced<T(!new)>(compare: (T, T) -> int, s: seq<T>, item: T)
    requires TotalPreorder(compare) && s != [] && HeapFrom(compare, s, |s|, 0)
    ensures HeapFrom(compare, s[0 := item], |s|, 1)
    ensures multiset(s[0 := item]) == multiset(s) - multiset{s[0]} + multiset{item}
  {
    NewRoot(compare, s, |s|, item);
  }

  /** Takes the root out and puts `item` in; an empty heap cannot be popped. */
  method Replace<T(!new)>(compare: (T, T) -> int, heap: Buffer<T>, item: T) returns (popped: Option<T>)
    requires TotalPreorder(compare) && HeapFrom(compare, heap.items, |heap.items|, 0)
    modifies heap
    ensures HeapFrom(compare, heap.items, |heap.items|, 0)
    ensures popped.None? <==> old(heap.items) == []
    ensures popped.None? ==> heap.items == []
    ensures popped.Some? ==>
              && popped.value == old(heap.items)[0]
              && LeastOf(compare, popped.value, multiset(old(heap.items)))
              && multiset(heap.items) == multiset(old(heap.items)) - multiset{popped.value} + multiset{item}
              && |heap.items| == |old(heap.items)|
    ensures popped.Some? ==> forall y :: y in old(heap.items) ==> compare(popped.value, y) <= 0
  {
    if |heap.items| == 0 {
      return None;
    }
    RootIsLeastOf(compare, heap.items);
    var root := heap.items[0];
    NewRoot(compare, heap.items, |heap.items|, item);
    heap.items := heap.items[0 := item];
    SiftUp(compare, heap, |heap.items|, 0);
    PermutedLength(heap.items, old(heap.items)[0 := item]);
    popped := Some(root);
  }

  /** Puts `item` in and takes a least item out, which may be `item` itself. */
  method PushPop<T(!new)>(compare: (T, T) -> int, heap: Buffer<T>, item: T) returns (popped: T)
    requires TotalPreorder(compare) && HeapFrom(compare, heap.items, |heap.items|, 0)
    modifies heap
    ensures HeapFrom(compare, heap.items, |heap.items|, 0)
    ensures LeastOf(compare, popped, multiset(old(heap.items)) + multiset{item})
    ensures popped == item || popped in old(heap.items)
    ensures compare(popped, item) <= 0 && forall y :: y in old(heap.items) ==> compare(popped, y) <= 0
    ensures multiset(heap.items) == multiset(old(heap.items)) + multiset{item} - multiset{popped}
  {
    hide HeapFrom, TotalPreorder, LeastOf;
    ghost var was := heap.items;
    LeastWith(compare, was, item);
    popped := item;
    if |heap.items| != 0 {
      if compare(heap.items[0], item) < 0 {
        popped := heap.items[0];
        RootReplaced(compare, was, item);
        heap.items := heap.items[0 := item];
        SiftUp(compare, heap, |heap.items|, 0);
      }
    }
  }

  /** The root or the item is least of both together. */
  lemma LeastWith<T(!new)>(compare: (T, T) -> int, s: seq<T>, item: T)
    requires TotalPreorder(compare) && HeapFrom(compare, s, |s|, 0)
    ensures var least := if s != [] && compare(s[0], item) < 0 then s[0] else item;
            && LeastOf(compare, least, multiset(s) + multiset{item}) && compare(least, item) <= 0
            && forall y :: y in s ==> compare(least, y) <= 0
  {
    assert compare(item, item) < 0 <==> compare(item, item) > 0;
    if s != [] {
      RootIsLeastOf(compare, s);
      hide HeapFrom;
      forall y | y in multiset(s) && compare(s[0], item) >= 0
        ensures compare(item, y) <= 0
      {
        Transitive(compare, item, s[0], y);
      }
      assert forall y :: y in s ==> y in multiset(s);
    }
  }

  /** Makes a heap of an arbitrary array, from the last parent down to the root. */
  method Heapify<T(!new)>(compare: (T, T) -> int, array': Buffer<T>)
    requires TotalPreorder(compare)
    modifies array'
    ensures HeapFrom(compare, array'.items, |array'.items|, 0)
    ensures Permuted(array'.items, old(array'.items))
  {
    var n := |array'.items|;
    var i := n / 2;
    while i > 0
      invariant 0 <= i <= n / 2 && |array'.items| == n
      invariant HeapFrom(compare, array'.items, n, i)
      invariant Permuted(array'.items, old(array'.items))
    {
      i := i - 1;
      SiftUp(compare, array', n, i);
    }
  }

  /** `taken` is sorted and goes before everything in `rest`. */
  ghost predicate Emerging<T(!new)>(compare: (T, T) -> int, taken: seq<T>, rest: multiset<T>) {
    && SortedBy(compare, taken)
    && forall j, y :: 0 <= j < |taken| && y in rest ==> compare(taken[j], y) <= 0
  }

  lemma TakeLeast<T(!new)>(compare: (T, T) -> int, taken: seq<T>, rest: multiset<T>, least: T)
    requires Emerging(compare, taken, rest) && LeastOf(compare, least, rest)
    ensures Emerging(compare, taken + [least], rest - multiset{least})
    ensures multiset(taken + [least]) + (rest - multiset{least}) == multiset(taken) + rest
  {
  }

  /** Empties the heap into a sorted sequence. */
  method Consume<T(!new)>(compare: (T, T) -> int, heap: Buffer<T>) returns (array': seq<T>)
    requires TotalPreorder(compare) && HeapFrom(compare, heap.items, |heap.items|, 0)
    modifies heap
    ensures heap.items == []
    ensures SortedBy(compare, array') && Permuted(array', old(heap.items))
    ensures forall i, j :: 0 <= i < j < |array'| ==> compare(array'[i], array'[j]) <= 0
  {
    var l := |heap.items|;
    var i := 0;
    array' := [];
    while i < l
      invariant 0 <= i <= l && |heap.items| == l - i
      invariant HeapFrom(compare, heap.items, |heap.items|, 0)
      invariant multiset(array') + multiset(heap.items) == multiset(old(heap.items))
      invariant Emerging(compare, array', multiset(heap.items))
    {
      ghost var rest := multiset(heap.items);
      var popped := Pop(compare, heap);
      TakeLeast(compare, array', rest, popped.value);
      array' := array' + [popped.value];
      i := i + 1;
    }
  }
}

/** The heap class, which wraps a raw heap. */
module Heaps {
  import opened Options
  import opened Comparators
  import opened RawHeaps

  class Heap<T(!new)> {
    const comparator: (T, T) -> int
    var items: Buffer<T>
    var size: nat

    ghost predicate Valid()
      reads this, items
    {
      && TotalPreorder(comparator)
      && size == |items.items|
      && HeapFrom(comparator, items.items, size, 0)
    }

    /** What the heap holds. */
    ghost function Contents(): multiset<T>
      reads this, items
    {
      multiset(items.items)
    }

    constructor (comparator: (T, T) -> int)
      requires TotalPreorder(comparator)
      ensures Valid() && fresh(items) && Contents() == multiset{} && size == 0
      ensures this.comparator == comparator
    {
      this.comparator := comparator;
      items := new Buffer([]);
      size := 0;
    }

    method Push(item: T) returns (newSize: nat)
      requires Valid()
      modifies this, items
      ensures Valid() && items == old(items)
      ensures Contents() == old(Contents()) + multiset{item}
      ensures newSize == size == old(size) + 1
    {
      RawHeaps.Push(comparator, items, item);
      size := size + 1;
      assert |items.items| == |Contents()|;
      newSize := size;
    }

    method Peek() returns (item: Option<T>)
      requires Valid()
      ensures item.None? <==> size == 0
      ensures item.Some? ==> LeastOf(comparator, item.value, Contents())
      ensures item.Some? ==> item.value in Contents() && forall y :: y in Contents() ==> comparator(item.value, y) <= 0
    {
      if |items.items| == 0 {
        return None;
      }
      RootIsLeastOf(comparator, items.items);
      item := Some(items.items[0]);
    }

    method Pop() returns (item: Option<T>)
      requires Valid()
      modifies this, items
      ensures Valid() && items == old(items)
      ensures item.None? <==> old(size) == 0
      ensures item.None? ==> Contents() == old(Contents()) == multiset{}
      ensures item.Some? ==>
                && LeastOf(comparator, item.value, old(Contents()))
                && Contents() == old(Contents()) - multiset{item.value}
                && size == old(size) - 1
      ensures item.Some? ==> item.value in old(Contents()) && forall y :: y in old(Contents()) ==> comparator(item.value, y) <= 0
    {
      if size != 0 {
        size := size - 1;
      }
      item := RawHeaps.Pop(comparator, items);
    }

    method Consume() returns (array': seq<T>)
      requires Valid()
      modifies this, items
      ensures Valid() && size == 0
      ensures SortedBy(comparator, array') && multiset(array') == old(Contents())
      ensures forall i, j :: 0 <= i < j < |array'| ==> comparator(array'[i], array'[j]) <= 0
    {
      size := 0;
      array' := RawHeaps.Consume(comparator, items);
    }
  }
}
