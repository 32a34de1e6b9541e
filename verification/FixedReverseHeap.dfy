/** A heap of fixed capacity that keeps the best items pushed into it. It stores them in
    reverse, so that the worst one is at the root, ready to be replaced. */
module FixedReverseHeaps {
  import opened Comparators
  import opened Options
  import opened Permutations
  import opened RawHeaps

  /** While consuming: `left` is still in the heap, `out` holds the worst items, in order. */
  ghost predicate Consuming<T(!new)>(compare: (T, T) -> int, left: multiset<T>, out: seq<T>, all: multiset<T>) {
    && left + multiset(out) == all
    && SortedBy(compare, out)
    && forall x, j :: x in left && 0 <= j < |out| ==> compare(x, out[j]) <= 0
  }

  /** The worst of what is left goes in front of what has been taken out. */
  lemma ConsumeWorst<T(!new)>(compare: (T, T) -> int, left: multiset<T>, out: seq<T>, all: multiset<T>, worst: T)
    requires Consuming(compare, left, out, all)
    requires worst in left && forall x :: x in left ==> compare(x, worst) <= 0
    ensures Consuming(compare, left - multiset{worst}, [worst] + out, all)
  {
  }

  lemma NoneConsumed<T(!new)>(compare: (T, T) -> int, all: multiset<T>)
    ensures Consuming(compare, all, [], all)
  {
  }

  lemma AllConsumed<T(!new)>(compare: (T, T) -> int, out: seq<T>, all: multiset<T>)
    requires Consuming(compare, multiset{}, out, all)
    ensures SortedBy(compare, out) && multiset(out) == all
  {
  }

  lemma WorstIsRoot<T(!new)>(compare: (T, T) -> int, heap: seq<T>, n: nat)
    requires TotalPreorder(compare) && 0 < n <= |heap| && HeapFrom(Reverse(compare), heap, n, 0)
    ensures heap[0] in multiset(heap[..n])
    ensures forall x :: x in multiset(heap[..n]) ==> compare(x, heap[0]) <= 0
  {
    assert heap[..n][0] == heap[0];
    ReverseIsTotal(compare);
    forall x | x in multiset(heap[..n])
      ensures compare(x, heap[0]) <= 0
    {
      var j := Member(heap[..n], x);
      RootIsLeast(Reverse(compare), heap, n, j);
    }
  }

  /** A full heap keeps the best if a better item replaces its root and any other item is turned away. */
  lemma OverWorst<T(!new)>(compare: (T, T) -> int, heap: seq<T>, pushed: multiset<T>, item: T)
    requires TotalPreorder(compare) && heap != [] && HeapFrom(Reverse(compare), heap, |heap|, 0)
    requires BestOf(compare, multiset(heap), pushed, |heap|)
    ensures BestOf(compare,
                   if Reverse(compare)(item, heap[0]) > 0 then multiset(heap) - multiset{heap[0]} + multiset{item} else multiset(heap),
                   pushed + multiset{item}, |heap|)
  {
    assert compare(item, heap[0]) < 0 <==> compare(heap[0], item) > 0;
    hide BestOf, HeapFrom, TotalPreorder;
    assert heap[..|heap|] == heap;
    WorstIsRoot(compare, heap, |heap|);
    if Reverse(compare)(item, heap[0]) > 0 {
      KeepBetter(compare, multiset(heap), pushed, item, heap[0], |heap|);
    } else {
      KeepOld(compare, multiset(heap), pushed, item, heap[0], |heap|);
    }
  }

  /** Empties the first `size` entries of the heap into a sequence, best first. */
  method ConsumeItems<T(!new)>(ghost compare: (T, T) -> int, reversed: (T, T) -> int, heap: Buffer<T>, size: nat, filler: T)
    returns (array': seq<T>)
    requires TotalPreorder(compare) && reversed == Reverse(compare)
    requires size <= |heap.items| && HeapFrom(reversed, heap.items, size, 0)
    modifies heap
    ensures |heap.items| == old(|heap.items|)
    ensures |array'| == size
    ensures SortedBy(compare, array') && Permuted(array', old(heap.items[..size]))
  {
    hide Consuming, HeapFrom, SortedBy, TotalPreorder;
    ReverseIsTotal(compare);
    ghost var all := multiset(heap.items[..size]);
    array' := seq(size, _ => filler);
    var i := size;
    ghost var out: seq<T>, left := [], all;
    NoneConsumed(compare, all);
    while i > 0
      invariant 0 <= i <= size == |array'|
      invariant |heap.items| == old(|heap.items|)
      invariant HeapFrom(reversed, heap.items, i, 0)
      invariant left == multiset(heap.items[..i]) && out == array'[i..]
      invariant Consuming(compare, left, out, all)
    {
      ghost var root := heap.items[0];
      WorstIsRoot(compare, heap.items, i);
      ConsumeWorst(compare, left, out, all, root);
      i := i - 1;
      var lastItem := TakeRoot(reversed, heap, i);
      array' := array'[i := lastItem];
      left, out := left - multiset{root}, [root] + out;
    }
    assert left == multiset{} && out == array';
    AllConsumed(compare, out, all);
  }

  /** Moves entry `last` to the root's place and lets it sink among the first `last` entries. */
  method TakeRoot<T(!new)>(reversed: (T, T) -> int, heap: Buffer<T>, last: nat) returns (root: T)
    requires TotalPreorder(reversed) && last < |heap.items| && HeapFrom(reversed, heap.items, last + 1, 0)
    modifies heap
    ensures |heap.items| == old(|heap.items|)
    ensures root == old(heap.items)[0]
    ensures HeapFrom(reversed, heap.items, last, 0)
    ensures multiset(heap.items[..last]) == multiset(old(heap.items)[..last + 1]) - multiset{root}
  {
    root := heap.items[last];
    ghost var before := heap.items;
    assert before[..last + 1] == before[..last] + [root];
    HeapPrefix(reversed, before, last + 1, last);
    if last != 0 {
      var item := heap.items[0];
      NewRoot(reversed, before, last, root);
      heap.items := heap.items[0 := root];
      ghost var reset := heap.items;
      assert reset[..last] == before[..last][0 := root];
      SiftUp(reversed, heap, last, 0);
      PermutedPrefix(heap.items, reset, last);
      root := item;
    }
  }

  lemma HeapPrefix<T(!new)>(compare: (T, T) -> int, s: seq<T>, n: nat, m: nat)
    requires m <= n <= |s| && HeapFrom(compare, s, n, 0)
    ensures HeapFrom(compare, s, m, 0)
  {
  }

  lemma PermutedPrefix<T>(s: seq<T>, t: seq<T>, n: nat)
    requires n <= |s| == |t| && Permuted(s, t) && s[n..] == t[n..]
    ensures Permuted(s[..n], t[..n])
  {
    PermutedWithin(s, t, 0, n);
    assert s[0..n] == s[..n] && t[0..n] == t[..n];
  }

  class FixedReverseHeap<T(!new)> {
    const capacity: nat
    const comparator: (T, T) -> int
    const items: Buffer<T>
    const filler: T
    var size: nat
    ghost const compare: (T, T) -> int
    /** Everything pushed since the heap was last empty. */
    ghost var pushed: multiset<T>

    ghost predicate Valid()
      reads this, items
    {
      && TotalPreorder(compare) && comparator == Reverse(compare)
      && size <= capacity == |items.items|
      && HeapFrom(comparator, items.items, size, 0)
      && BestOf(compare, Contents(), pushed, capacity)
    }

    ghost function Contents(): multiset<T>
      reads this, items
      requires size <= |items.items|
    {
      multiset(items.items[..size])
    }

    constructor (compare: (T, T) -> int, capacity: nat, filler: T)
      requires TotalPreorder(compare)
      ensures Valid() && size == 0 && pushed == multiset{} && fresh(items)
      ensures this.compare == compare && this.capacity == capacity
    {
      this.capacity := capacity;
      this.comparator := Reverse(compare);
      this.compare := compare;
      this.filler := filler;
      items := new Buffer(seq(capacity, _ => filler));
      size := 0;
      pushed := multiset{};
    }

    method Clear()
      requires Valid()
      modifies this
      ensures Valid() && size == 0 && pushed == multiset{}
    {
      size := 0;
      pushed := multiset{};
      assert items.items[..0] == [];
    }

    /** Keeps `item` if there is room for it or if it beats the worst item kept. */
    method Push(item: T) returns (newSize: nat)
      requires Valid() && capacity > 0
      modifies this, items
      ensures Valid()
      ensures pushed == old(pushed) + multiset{item}
      ensures newSize == size == Min(capacity, old(size) + 1)
    {
      ReverseIsTotal(compare);
      ghost var before := Contents();
      assert |items.items[..size]| == |before|;
      if size < capacity {
        Place(item);
        KeepAll(compare, before, pushed, item, capacity);
      } else {
        PlaceOverWorst(item);
      }
      pushed := pushed + multiset{item};
      newSize := size;
    }

    /** On a full heap: replaces the worst item by a better one. */
    method PlaceOverWorst(item: T)
      requires Valid() && size == capacity > 0
      modifies items
      ensures |items.items| == capacity && HeapFrom(comparator, items.items, size, 0)
      ensures BestOf(compare, Contents(), pushed + multiset{item}, capacity)
    {
      hide BestOf, HeapFrom, TotalPreorder, LeastOf, Reverse;
      ReverseIsTotal(compare);
      ghost var was := items.items;
      assert was[..size] == was;
      OverWorst(compare, was, pushed, item);
      if comparator(item, items.items[0]) > 0 {
        var worst := RawHeaps.Replace(comparator, items, item);
        assert items.items[..size] == items.items;
      }
    }

    /** Adds an item while there is room. */
    method Place(item: T)
      requires TotalPreorder(comparator) && size < capacity == |items.items|
      requires HeapFrom(comparator, items.items, size, 0)
      modifies this`size, items
      ensures size == old(size) + 1 <= |items.items| == capacity
      ensures HeapFrom(comparator, items.items, size, 0)
      ensures Contents() == old(Contents()) + multiset{item}
    {
      ghost var was := items.items;
      items.items := items.items[size := item];
      Placed(comparator, was, size, item);
      BelowRoot(size);
      hide TotalPreorder, HeapFrom, InOrder, Below;
      SiftDown(comparator, items, 0, size, size + 1);
      PermutedPrefix(items.items, was[size := item], size + 1);
      size := size + 1;
    }

    static lemma Placed(reversed: (T, T) -> int, was: seq<T>, size: nat, item: T)
      requires size < |was| && HeapFrom(reversed, was, size, 0)
      ensures was[size := item][..size + 1] == was[..size] + [item]
      ensures forall c {:trigger InOrder(reversed, was[size := item], c)} ::
                0 < c < size + 1 && c != size ==> InOrder(reversed, was[size := item], c)
    {
      forall c {:trigger InOrder(reversed, was[size := item], c)} | 0 < c < size
        ensures InOrder(reversed, was[size := item], c)
      {
        assert InOrder(reversed, was, c);
      }
    }

    /** The worst item kept; on an empty heap whatever the first slot holds. */
    method Peek() returns (worst: Option<T>)
      requires Valid()
      ensures worst == if capacity == 0 then None else Some(items.items[0])
      ensures size > 0 ==> worst.Some? && worst.value in Contents()
      ensures size > 0 ==> forall x :: x in Contents() ==> compare(x, worst.value) <= 0
    {
      worst := if 0 < |items.items| then Some(items.items[0]) else None;
      if size > 0 {
        assert items.items[..size][0] == items.items[0];
        WorstIsRoot(compare, items.items, size);
      }
    }

    /** Empties the heap into an ascending sequence of the best items pushed. */
    method Consume() returns (best: seq<T>)
      requires Valid()
      modifies this, items
      ensures Valid() && size == 0 && pushed == multiset{}
      ensures SortedBy(compare, best)
      ensures multiset(best) == old(Contents()) && BestOf(compare, multiset(best), old(pushed), capacity)
      ensures forall i, j :: 0 <= i < j < |best| ==> compare(best[i], best[j]) <= 0
      ensures multiset(best) <= old(pushed) && |best| == if capacity <= |old(pushed)| then capacity else |old(pushed)|
      ensures forall x, y :: x in best && y in old(pushed) - multiset(best) ==> compare(x, y) <= 0
    {
      best := ConsumeItems(compare, comparator, items, size, filler);
      size := 0;
      pushed := multiset{};
      assert items.items[..0] == [];
      assert |multiset(best)| == |best|;
    }
  }

  lemma KeepAll<T(!new)>(compare: (T, T) -> int, kept: multiset<T>, all: multiset<T>, item: T, k: nat)
    requires BestOf(compare, kept, all, k) && |kept| < k
    ensures BestOf(compare, kept + multiset{item}, all + multiset{item}, k)
  {
    assert all - kept == multiset{} by {
      assert |all - kept| == |all| - |kept|;
    }
    assert all + multiset{item} - (kept + multiset{item}) == all - kept;
  }

  lemma KeepBetter<T(!new)>(compare: (T, T) -> int, kept: multiset<T>, all: multiset<T>, item: T, worst: T, k: nat)
    requires TotalPreorder(compare) && BestOf(compare, kept, all, k) && |kept| == k
    requires worst in kept && compare(item, worst) < 0
    requires forall x :: x in kept ==> compare(x, worst) <= 0
    ensures BestOf(compare, kept - multiset{worst} + multiset{item}, all + multiset{item}, k)
  {
    var kept', all' := kept - multiset{worst} + multiset{item}, all + multiset{item};
    assert all' - kept' == all - kept + multiset{worst};
    forall x, y | x in kept' && y in all' - kept'
      ensures compare(x, y) <= 0
    {
      assert compare(x, worst) <= 0;
      if y in all - kept {
        assert compare(worst, y) <= 0;
        Transitive(compare, x, worst, y);
      }
    }
  }

  lemma KeepOld<T(!new)>(compare: (T, T) -> int, kept: multiset<T>, all: multiset<T>, item: T, worst: T, k: nat)
    requires TotalPreorder(compare) && BestOf(compare, kept, all, k) && |kept| == k
    requires worst in kept && compare(item, worst) >= 0
    requires forall x :: x in kept ==> compare(x, worst) <= 0
    ensures BestOf(compare, kept, all + multiset{item}, k)
  {
    assert all + multiset{item} - kept == all - kept + multiset{item};
    forall x, y | x in kept && y in all + multiset{item} - kept
      ensures compare(x, y) <= 0
    {
      if y !in all - kept {
        Transitive(compare, x, worst, item);
      }
    }
  }
}
