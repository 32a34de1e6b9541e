/** The static interval tree: its recursive build and the two pruning queries over a bounded stack. */
module StaticIntervalTrees {
  import opened Permutations
  import opened IndexSets
  import opened QuickSort
  import opened IntervalTreeModel

  // ----- Building -----

  /** An end, or minus infinity where there is no subtree. */
  datatype Bound = MinusInfinity | Finite(value: real)

  function Max(end: real, a: Bound, b: Bound): real {
    var m := if a.Finite? && a.value > end then a.value else end;
    if b.Finite? && b.value > m then b.value else m
  }

  ghost function MaxEndOf(intervals: seq<Interval>, t: Bst): Bound
    requires InRange(t, |intervals|)
  {
    if t.Node? then Finite(MaxEnd(intervals, t)) else MinusInfinity
  }

  ghost predicate Indices(sorted: seq<nat>, n: nat) {
    Distinct(sorted) && forall x :: 0 <= x < |sorted| ==> sorted[x] < n
  }

  /** sorted[low..high + 1] fits below slot i in h more levels of a blank part of the tree. */
  ghost predicate Buildable(sorted: seq<nat>, tree: seq<nat>, i: nat, low: nat, high: int, h: nat) {
    && low - 1 <= high < |sorted|
    && high - low + 1 < Pow2(h) && Room(i, h, |tree|) && BlankUnder(i, tree)
  }

  /** The subtree built below slot i from sorted[low..high + 1]. */
  ghost predicate Built(intervals: seq<Interval>, sorted: seq<nat>, tree: seq<nat>, augmentations: seq<nat>,
                        i: nat, low: nat, high: int, h: nat, t: Bst)
    requires low - 1 <= high < |sorted|
  {
    && Stored(t, i, tree) && InOrder(t) == sorted[low..high + 1] && Height(t) <= h
    && InRange(t, |intervals|) && Augmented(intervals, t, augmentations)
  }

  /** Only the augmentations of sorted[low..high + 1] have changed. */
  ghost predicate SameElsewhere(sorted: seq<nat>, low: nat, high: int, a: seq<nat>, a': seq<nat>)
    requires low - 1 <= high < |sorted|
  {
    |a| == |a'| && forall x: nat :: x < |a| && x !in sorted[low..high + 1] ==> a[x] == a'[x]
  }

  /** Room, and blank slots, for the two sides of slot i. */
  lemma SidesBuildable(sorted: seq<nat>, tree: seq<nat>, i: nat, low: nat, high: int, h: nat, node: nat)
    requires Buildable(sorted, tree, i, low, high, h) && low <= high
    ensures h > 0 && i < |tree|
    ensures var mid := low + (high - low) / 2;
            && Buildable(sorted, tree[i := node], 2 * i + 1, low, mid - 1, h - 1)
            && Buildable(sorted, tree[i := node], 2 * i + 2, mid + 1, high, h - 1)
    ensures SameOutside(i, tree, tree[i := node])
  {
    forall j: nat
      ensures Under(2 * i + 1, j) ==> Under(i, j) && j > i
      ensures Under(2 * i + 2, j) ==> Under(i, j) && j > i
    {
      UnderSide(i, j);
    }
    assert Under(i, i);
  }

  /** The two sides under their new root. */
  lemma JoinSides(intervals: seq<Interval>, sorted: seq<nat>, i: nat, low: nat, mid: nat, high: int, h: nat, left: Bst, right: Bst,
                  tree0: seq<nat>, tree1: seq<nat>, tree2: seq<nat>, augs1: seq<nat>, augs2: seq<nat>, pointer: nat)
    requires low <= mid <= high < |sorted| && Indices(sorted, |intervals|) && h > 0 && |augs1| == |augs2| == |intervals|
    requires i < |tree0| && tree0[i] == sorted[mid] + 1
    requires SameOutside(2 * i + 1, tree0, tree1) && SameOutside(2 * i + 2, tree1, tree2)
    requires Built(intervals, sorted, tree1, augs1, 2 * i + 1, low, mid - 1, h - 1, left)
    requires Built(intervals, sorted, tree2, augs2, 2 * i + 2, mid + 1, high, h - 1, right)
    requires SameElsewhere(sorted, mid + 1, high, augs1, augs2)
    requires pointer < |intervals| && intervals[pointer].end == Max(intervals[sorted[mid]].end, MaxEndOf(intervals, left), MaxEndOf(intervals, right))
    ensures SameOutside(i, tree0, tree2)
    ensures Built(intervals, sorted, tree2, augs2[sorted[mid] := pointer], i, low, high, h, Node(sorted[mid], left, right))
  {
    hide Under, Room, Height;
    var current := sorted[mid];
    var t := Node(current, left, right);
    OutsideSides(i, tree0, tree1);
    OutsideSides(i, tree1, tree2);
    StoredFramed(left, 2 * i + 1, tree1, tree2);
    assert Stored(t, i, tree2);
    assert sorted[low..high + 1] == sorted[low..mid] + [current] + sorted[mid + 1..high + 1];
    assert InOrder(t) == sorted[low..high + 1];
    assert InRange(t, |intervals|);
    KeptApart(sorted, low, mid, high);
    AugmentedFramed(intervals, left, augs1, augs2);
    AugmentedFramed(intervals, left, augs2, augs2[current := pointer]);
    AugmentedFramed(intervals, right, augs2, augs2[current := pointer]);
    JoinedMaxEnd(intervals, current, left, right);
    hide MaxEnd, Stored;
    assert current !in InOrder(left) && current !in InOrder(right);
    assert Augmented(intervals, t, augs2[current := pointer]);
    JoinHeight(current, left, right, h);
  }

  lemma JoinHeight(at: nat, left: Bst, right: Bst, h: nat)
    requires h > 0 && Height(left) <= h - 1 && Height(right) <= h - 1
    ensures Height(Node(at, left, right)) <= h
  {
  }

  /** The two sides of a position share no index, nor have they the one there. */
  lemma KeptApart(sorted: seq<nat>, low: nat, mid: nat, high: nat)
    requires low <= mid <= high < |sorted| && Distinct(sorted)
    ensures sorted[mid] !in sorted[low..mid] && sorted[mid] !in sorted[mid + 1..high + 1]
    ensures forall x :: x in sorted[low..mid] ==> x !in sorted[mid + 1..high + 1]
  {
    forall x | x in sorted[low..mid]
      ensures x !in sorted[mid + 1..high + 1]
    {
      var p :| low <= p < mid && sorted[p] == x;
    }
  }

  lemma SameAround(sorted: seq<nat>, low: nat, mid: nat, high: int, a: seq<nat>, b: seq<nat>, c: seq<nat>, x: nat, y: nat)
    requires low <= mid <= high < |sorted| && x == sorted[mid]
    requires SameElsewhere(sorted, low, mid - 1, a, b) && SameElsewhere(sorted, mid + 1, high, b, c) && x < |c|
    ensures SameElsewhere(sorted, low, high, a, c[x := y])
  {
    assert sorted[low..high + 1] == sorted[low..mid] + [x] + sorted[mid + 1..high + 1];
  }

  method BuildBST(intervals: seq<Interval>, sorted: seq<nat>, tree: array<nat>, augmentations: array<nat>,
                  i: nat, low: nat, high: int, ghost h: nat)
    returns (augmentation: real, ghost t: Bst)
    requires tree != augmentations && augmentations.Length == |intervals| && Indices(sorted, |intervals|)
    requires low <= high < |sorted| && Buildable(sorted, tree[..], i, low, high, h)
    modifies tree, augmentations
    ensures Built(intervals, sorted, tree[..], augmentations[..], i, low, high, h, t) && t.Node?
    ensures augmentation == MaxEnd(intervals, t)
    ensures SameOutside(i, old(tree[..]), tree[..])
    ensures SameElsewhere(sorted, low, high, old(augmentations[..]), augmentations[..])
    decreases high - low + 1, 0
  {
    hide Stored, Under, Augmented, Room, InOrder, Height, MaxEnd, Buildable, SameOutside, SameElsewhere, BlankUnder, InRange;
    var mid := low + (high - low) / 2;
    var current := sorted[mid];
    ghost var was, augs0 := tree[..], augmentations[..];
    SidesBuildable(sorted, was, i, low, high, h, current + 1);
    tree[i] := current + 1;
    var end := intervals[current].end;
    var left, right := 2 * i + 1, 2 * i + 2;
    ghost var tree0 := tree[..];
    assert tree0 == was[i := current + 1];
    var leftEnd, rightEnd;
    ghost var leftTree, rightTree;
    leftEnd, leftTree := BuildSide(intervals, sorted, tree, augmentations, left, low, mid - 1, h - 1);
    ghost var tree1, augs1 := tree[..], augmentations[..];
    OutsideSides(i, tree0, tree1);
    StillBuildable(sorted, tree0, tree1, i, mid + 1, high, h - 1);
    rightEnd, rightTree := BuildSide(intervals, sorted, tree, augmentations, right, mid + 1, high, h - 1);
    ghost var tree2, augs2 := tree[..], augmentations[..];
    augmentation := Max(end, leftEnd, rightEnd);
    var augmentationPointer := current;
    PointerThere(intervals, sorted, tree1, tree2, augs1, augs2, i, low, mid, high, h, leftTree, rightTree);
    if Finite(augmentation) == leftEnd {
      augmentationPointer := augmentations[tree[left] - 1];
    } else if Finite(augmentation) == rightEnd {
      augmentationPointer := augmentations[tree[right] - 1];
    }
    augmentations[current] := augmentationPointer;
    t := Node(current, leftTree, rightTree);
    JoinSides(intervals, sorted, i, low, mid, high, h, leftTree, rightTree, tree0, tree1, tree2, augs1, augs2, augmentationPointer);
    SameAround(sorted, low, mid, high, augs0, augs1, augs2, current, augmentationPointer);
    OutsideTwice(i, was, tree0, tree2);
    assert augmentations[..] == augs2[current := augmentationPointer];
    JoinedMaxEnd(intervals, current, leftTree, rightTree);
  }

  method BuildSide(intervals: seq<Interval>, sorted: seq<nat>, tree: array<nat>, augmentations: array<nat>,
                   i: nat, low: nat, high: int, ghost h: nat)
    returns (end: Bound, ghost t: Bst)
    requires tree != augmentations && augmentations.Length == |intervals| && Indices(sorted, |intervals|)
    requires Buildable(sorted, tree[..], i, low, high, h)
    modifies tree, augmentations
    ensures Built(intervals, sorted, tree[..], augmentations[..], i, low, high, h, t)
    ensures end == MaxEndOf(intervals, t)
    ensures SameOutside(i, old(tree[..]), tree[..])
    ensures SameElsewhere(sorted, low, high, old(augmentations[..]), augmentations[..])
    decreases high - low + 1, 1
  {
    end, t := MinusInfinity, Empty;
    if low <= high {
      var e;
      e, t := BuildBST(intervals, sorted, tree, augmentations, i, low, high, h);
      end := Finite(e);
    } else {
      assert Under(i, i);
    }
  }

  lemma JoinedMaxEnd(intervals: seq<Interval>, at: nat, left: Bst, right: Bst)
    requires at < |intervals| && InRange(left, |intervals|) && InRange(right, |intervals|)
    ensures InRange(Node(at, left, right), |intervals|)
    ensures MaxEnd(intervals, Node(at, left, right)) == Max(intervals[at].end, MaxEndOf(intervals, left), MaxEndOf(intervals, right))
  {
  }

  lemma StillBuildable(sorted: seq<nat>, tree0: seq<nat>, tree1: seq<nat>, i: nat, low: nat, high: int, h: nat)
    requires Buildable(sorted, tree0, 2 * i + 2, low, high, h) && SameUnder(2 * i + 2, tree0, tree1)
    ensures Buildable(sorted, tree1, 2 * i + 2, low, high, h)
  {
  }

  lemma OutsideTwice(i: nat, a: seq<nat>, b: seq<nat>, c: seq<nat>)
    requires SameOutside(i, a, b) && SameOutside(i, b, c)
    ensures SameOutside(i, a, c)
  {
  }

  /** The augmentation of a side is found through the slot of its root. */
  lemma PointerThere(intervals: seq<Interval>, sorted: seq<nat>, tree1: seq<nat>, tree2: seq<nat>, augs1: seq<nat>, augs2: seq<nat>,
                     i: nat, low: nat, mid: nat, high: int, h: nat, left: Bst, right: Bst)
    requires low <= mid <= high < |sorted| && Indices(sorted, |intervals|) && |augs1| == |augs2| == |intervals| && h > 0
    requires Built(intervals, sorted, tree1, augs1, 2 * i + 1, low, mid - 1, h - 1, left)
    requires Built(intervals, sorted, tree2, augs2, 2 * i + 2, mid + 1, high, h - 1, right)
    requires SameOutside(2 * i + 2, tree1, tree2) && SameElsewhere(sorted, mid + 1, high, augs1, augs2)
    ensures left.Node? ==> 2 * i + 1 < |tree2| && tree2[2 * i + 1] == left.at + 1 && left.at < |augs2| && augs2[left.at] < |intervals|
                           && intervals[augs2[left.at]].end == MaxEnd(intervals, left)
    ensures right.Node? ==> 2 * i + 2 < |tree2| && tree2[2 * i + 2] == right.at + 1 && right.at < |augs2| && augs2[right.at] < |intervals|
                            && intervals[augs2[right.at]].end == MaxEnd(intervals, right)
  {
    hide Under;
    OutsideSides(i, tree1, tree2);
    StoredFramed(left, 2 * i + 1, tree1, tree2);
    KeptApart(sorted, low, mid, high);
    AugmentedFramed(intervals, left, augs1, augs2);
  }

  // ----- The tree -----

  class FixedStack {
    const capacity: nat
    const items: array<nat>
    var size: nat

    ghost predicate Valid()
      reads this
    {
      size <= capacity == items.Length
    }

    ghost function Contents(): seq<nat>
      reads this, items
      requires Valid()
    {
      items[..size]
    }

    constructor (capacity: nat)
      ensures Valid() && Contents() == [] && this.capacity == capacity && fresh(items)
    {
      this.capacity := capacity;
      items := new nat[capacity];
      size := 0;
    }

    method Clear()
      requires Valid()
      modifies this
      ensures Valid() && Contents() == []
    {
      size := 0;
    }

    /** Refused when the stack is full, where the source throws. */
    method Push(item: nat) returns (pushed: bool)
      requires Valid()
      modifies this, items
      ensures Valid() && pushed == (|old(Contents())| < capacity)
      ensures Contents() == if pushed then old(Contents()) + [item] else old(Contents())
    {
      if size == capacity {
        return false;
      }
      items[size] := item;
      size := size + 1;
      pushed := true;
    }

    method Pop() returns (item: nat)
      requires Valid() && Contents() != []
      modifies this
      ensures Valid() && item == old(Contents())[|old(Contents())| - 1]
      ensures Contents() == old(Contents())[..|old(Contents())| - 1]
    {
      size := size - 1;
      item := items[size];
    }
  }

  class StaticIntervalTree {
    const intervals: seq<Interval>
    const height: nat
    const tree: array<nat>
    const augmentations: array<nat>
    const stack: FixedStack
    ghost var bst: Bst

    ghost function Reads(): Index
      reads tree, augmentations
    {
      Index(intervals, tree[..], augmentations[..], height)
    }

    ghost predicate Valid()
      reads this, tree, augmentations, stack
    {
      && intervals != []
      && tree != augmentations && stack.items != tree && stack.items != augmentations
      && stack.Valid() && stack.capacity == height
      && tree.Length == Pow2(height) - 1
      && bst.Node? && Ready(Reads(), bst, 0) && Height(bst) <= height
      && Permuted(InOrder(bst), Upto(|intervals|))
    }

    /** `sorted` is what sorting the indices by start gives, in whatever order of ties. */
    constructor (intervals: seq<Interval>, sorted: seq<nat>)
      requires intervals != []
      requires Permuted(sorted, Upto(|intervals|)) && AscendingStarts(intervals, sorted)
      ensures Valid() && this.intervals == intervals && InOrder(bst) == sorted
      ensures fresh(tree) && fresh(augmentations) && fresh(stack) && fresh(stack.items)
    {
      hide Pow2, CeilLog2, Room, Under, Buildable, Stored, InRange, Augmented, InOrder, Height, MaxEnd, BlankUnder, SameOutside, SameElsewhere;
      this.intervals := intervals;
      var h := CeilLog2(|intervals| + 1);
      height := h;
      var nodes := new nat[Pow2(h) - 1](_ => 0);
      var augs := new nat[|intervals|](_ => 0);
      ReadyToBuild(intervals, sorted, nodes[..], h);
      var end;
      ghost var t;
      end, t := BuildBST(intervals, sorted, nodes, augs, 0, 0, |intervals| - 1, h);
      bst := t;
      SortedIndices(sorted, |intervals|);
      assert sorted[0..|intervals|] == sorted;
      tree := nodes;
      augmentations := augs;
      stack := new FixedStack(h);
    }

    static lemma ReadyToBuild(intervals: seq<Interval>, sorted: seq<nat>, nodes: seq<nat>, h: nat)
      requires intervals != [] && Permuted(sorted, Upto(|intervals|)) && h == CeilLog2(|intervals| + 1)
      requires |nodes| == Pow2(h) - 1 && forall j :: 0 <= j < |nodes| ==> nodes[j] == 0
      ensures |sorted| == |intervals| && Indices(sorted, |intervals|)
      ensures Buildable(sorted, nodes, 0, 0, |intervals| - 1, h)
    {
      hide Pow2, CeilLog2, Room, Under;
      var n := |intervals|;
      SortedIndices(sorted, n);
      Doubles(h, n);
      RoomFor(0, h, |nodes|);
    }

    static lemma SortedIndices(sorted: seq<nat>, n: nat)
      requires Permuted(sorted, Upto(n))
      ensures |sorted| == n && Indices(sorted, n)
    {
      PermutedLength(sorted, Upto(n));
      UptoMembers(n);
      assert Distinct(Upto(n));
      DistinctRearranged(Upto(n), sorted);
      forall x | 0 <= x < |sorted|
        ensures sorted[x] < n
      {
        assert sorted[x] in multiset(sorted);
        assert sorted[x] in Upto(n);
      }
    }

    static lemma Doubles(h: nat, n: nat)
      requires n > 0 && h == CeilLog2(n + 1)
      ensures h > 0 && n < Pow2(h) == 2 * Pow2(h - 1)
    {
    }

    /** The stack holds the slots of the subtrees that wait. */
    ghost predicate Following(c: Index, ws: seq<Waiting>)
      reads stack, stack.items, tree, augmentations
    {
      && stack.Valid() && stack.capacity == c.height && stack.items != tree && stack.items != augmentations
      && c == Reads() && stack.Contents() == Slots(ws) && Searching(c, ws)
    }

    /** Pushes the subtree at a slot, if there is one; the stack always has room for it. */
    method PushChild(slot: nat, ghost w: Waiting, ghost c: Index, ghost ws: seq<Waiting>, ghost f: Interval -> bool) returns (ghost ws': seq<Waiting>)
      requires Following(c, ws) && Steady(c, ws)
      requires w.slot == slot && Ready(c, w.t, slot) && (w.t.Node? ==> Waits(c, w)) && w.depth >= |ws|
      modifies stack, stack.items
      ensures Following(c, ws')
      ensures ws' == if w.t.Node? then ws + [w] else ws
      ensures w.depth > |ws| ==> Steady(c, ws')
      ensures Offers(f, c, ws') == Offers(f, c, ws) + Hits(f, c.intervals, w.t)
      ensures Load(ws') == Load(ws) + Size(w.t)
    {
      hide Waits, Ready, Offers, Load, Hits;
      SlotTells(c, w.t, slot);
      ws' := ws;
      if slot < tree.Length && tree[slot] != 0 {
        Pushed(f, c, ws, w);
        var pushed := stack.Push(slot);
        assert pushed;
        ws' := ws + [w];
      } else {
        NothingOffered(f, c, w);
      }
    }

    /** The intervals that contain the point, each as often as it was given. */
    method IntervalsContainingPoint(point: real) returns (matches: seq<Interval>)
      requires Valid()
      modifies stack, stack.items
      ensures Valid() && multiset(matches) == multiset(Filter(Contains(point), intervals))
      ensures forall x :: multiset(matches)[x] == if x.start <= point <= x.end then multiset(intervals)[x] else 0
    {
      hide Waits, Ready, Offers, Load, Hits, Steady, Filter, Height, InOrder, MaxEnd;
      matches := [];
      ghost var c, f := Reads(), Contains(point);
      ghost var ws := Start(c, f);
      while stack.size > 0
        invariant InRange(bst, |intervals|)
        invariant Following(c, ws)
        invariant multiset(matches) + Offers(f, c, ws) == Hits(f, intervals, bst)
        decreases Load(ws)
      {
        matches, ws := StepContaining(point, matches, c, ws);
      }
      Finished(f, c, ws);
      WholeTree(f, intervals, bst, Upto(|intervals|));
      forall x
        ensures multiset(matches)[x] == if f(x) then multiset(intervals)[x] else 0
      {
        FilterCounts(f, intervals, x);
      }
    }

    /** One round of the search for a point. */
    method StepContaining(point: real, found: seq<Interval>, ghost c: Index, ghost ws: seq<Waiting>)
      returns (matches: seq<Interval>, ghost ws': seq<Waiting>)
      requires Following(c, ws) && ws != []
      modifies stack, stack.items
      ensures Following(c, ws') && Progress(Contains(point), c, ws, found, ws', matches)
    {
      hide Following, Progress, Opened, WentLeft, WentRight;
      matches := found;
      ghost var f := Contains(point);
      var bstIndex, interval, max := PopNode(f, c, ws);
      ws' := ws[..|ws| - 1];
      // No possible match, point is farther right than the max end value
      if point > max {
        NoneBelow(f, c, ws, interval, max, found, point);
        return;
      }
      // Searching left
      ws' := PushLeft(bstIndex, f, c, ws, interval, max);
      ghost var left := ws';
      // Checking current node
      if point >= interval.start && point <= interval.end {
        matches := matches + [interval];
      }
      // If the point is to the left of the start of the current interval,
      // then it cannot be in the right child
      if point < interval.start {
        NoneToTheRight(f, c, ws, interval, max, found, left, point);
        return;
      }
      // Searching right
      ws' := PushRight(bstIndex, f, c, ws, interval, max, left);
      BothSides(f, c, ws, interval, max, found, left, ws');
    }

    /** The intervals that overlap the given one, each as often as it was given. */
    method IntervalsOverlappingInterval(interval: Interval) returns (matches: seq<Interval>)
      requires Valid()
      modifies stack, stack.items
      ensures Valid() && multiset(matches) == multiset(Filter(Overlaps(interval), intervals))
      ensures forall x :: multiset(matches)[x] ==
                          if x.start <= interval.end && interval.start <= x.end then multiset(intervals)[x] else 0
    {
      hide Waits, Ready, Offers, Load, Hits, Steady, Filter, Height, InOrder, MaxEnd;
      matches := [];
      ghost var c, f := Reads(), Overlaps(interval);
      ghost var ws := Start(c, f);
      while stack.size > 0
        invariant InRange(bst, |intervals|)
        invariant Following(c, ws)
        invariant multiset(matches) + Offers(f, c, ws) == Hits(f, intervals, bst)
        decreases Load(ws)
      {
        matches, ws := StepOverlapping(interval, matches, c, ws);
      }
      Finished(f, c, ws);
      WholeTree(f, intervals, bst, Upto(|intervals|));
      forall x
        ensures multiset(matches)[x] == if f(x) then multiset(intervals)[x] else 0
      {
        FilterCounts(f, intervals, x);
      }
    }

    /** One round of the search for an interval. */
    method StepOverlapping(interval: Interval, found: seq<Interval>, ghost c: Index, ghost ws: seq<Waiting>)
      returns (matches: seq<Interval>, ghost ws': seq<Waiting>)
      requires Following(c, ws) && ws != []
      modifies stack, stack.items
      ensures Following(c, ws') && Progress(Overlaps(interval), c, ws, found, ws', matches)
    {
      hide Following, Progress, Opened, WentLeft, WentRight;
      matches := found;
      var intervalStart, intervalEnd := interval.start, interval.end;
      ghost var f := Overlaps(interval);
      var bstIndex, currentInterval, max := PopNode(f, c, ws);
      ws' := ws[..|ws| - 1];
      // No possible match, start is farther right than the max end value
      if intervalStart > max {
        NoneBelow(f, c, ws, currentInterval, max, found, intervalStart);
        return;
      }
      // Searching left
      ws' := PushLeft(bstIndex, f, c, ws, currentInterval, max);
      ghost var left := ws';
      // Checking current node
      if intervalEnd >= currentInterval.start && intervalStart <= currentInterval.end {
        matches := matches + [currentInterval];
      }
      // If the end is to the left of the start of the current interval,
      // then it cannot be in the right child
      if intervalEnd < currentInterval.start {
        NoneToTheRight(f, c, ws, currentInterval, max, found, left, intervalEnd);
        return;
      }
      // Searching right
      ws' := PushRight(bstIndex, f, c, ws, currentInterval, max, left);
      BothSides(f, c, ws, currentInterval, max, found, left, ws');
    }

    method PushLeft(bstIndex: nat, ghost f: Interval -> bool, ghost c: Index, ghost ws: seq<Waiting>, ghost interval: Interval, ghost max: real)
      returns (ghost left: seq<Waiting>)
      requires Opened(f, c, ws, interval, max) && bstIndex == ws[|ws| - 1].slot && Following(c, ws[..|ws| - 1])
      modifies stack, stack.items
      ensures Following(c, left) && WentLeft(f, c, ws, left)
    {
      hide Searching, Steady, Waits, Ready, Offers, Hits, Load, Size, MaxEnd, InOrder, InRange;
      ghost var w := ws[|ws| - 1];
      left := PushChild(bstIndex * 2 + 1, Waiting(bstIndex * 2 + 1, w.t.left, w.depth + 1), c, ws[..|ws| - 1], f);
    }

    method PushRight(bstIndex: nat, ghost f: Interval -> bool, ghost c: Index, ghost ws: seq<Waiting>, ghost interval: Interval, ghost max: real,
                     ghost left: seq<Waiting>) returns (ghost ws': seq<Waiting>)
      requires Opened(f, c, ws, interval, max) && bstIndex == ws[|ws| - 1].slot && Following(c, left) && WentLeft(f, c, ws, left)
      modifies stack, stack.items
      ensures Following(c, ws') && WentRight(f, c, ws, left, ws')
    {
      hide Searching, Steady, Waits, Ready, Offers, Hits, Load, Size, MaxEnd, InOrder, InRange;
      ghost var w := ws[|ws| - 1];
      ws' := PushChild(bstIndex * 2 + 2, Waiting(bstIndex * 2 + 2, w.t.right, w.depth + 1), c, left, f);
    }

    /** Pops a slot and reads its interval and the largest end below it. */
    method PopNode(ghost f: Interval -> bool, ghost c: Index, ghost ws: seq<Waiting>) returns (bstIndex: nat, interval: Interval, max: real)
      requires Following(c, ws) && ws != []
      modifies stack
      ensures Following(c, ws[..|ws| - 1]) && Opened(f, c, ws, interval, max) && bstIndex == ws[|ws| - 1].slot
    {
      hide Waits, Ready, Offers, Load, Hits, Steady, Height, InOrder, MaxEnd;
      ghost var w := ws[|ws| - 1];
      Popped(f, c, ws);
      ChildrenReady(c, w);
      NodeHits(f, c, w);
      bstIndex := stack.Pop();
      var intervalIndex := tree[bstIndex] - 1;
      interval := intervals[intervalIndex];
      max := intervals[augmentations[intervalIndex]].end;
    }

    /** Puts the root alone on the stack. */
    method Start(ghost c: Index, ghost f: Interval -> bool) returns (ghost ws: seq<Waiting>)
      requires Valid() && c == Reads()
      modifies stack, stack.items
      ensures Valid() && Following(c, ws)
      ensures InRange(bst, |intervals|) && Offers(f, c, ws) == Hits(f, intervals, bst)
    {
      stack.Clear();
      var pushed := stack.Push(0);
      ws := [Waiting(0, bst, 0)];
      assert ws[..0] == [];
    }
  }

  /** The node on top of the stack, taken off: what it says, and that its children may be pushed. */
  ghost predicate Opened(f: Interval -> bool, c: Index, ws: seq<Waiting>, interval: Interval, max: real) {
    && ws != [] && Searching(c, ws) && Steady(c, ws[..|ws| - 1])
    && var w := ws[|ws| - 1];
    && Waits(c, w) && w.depth >= |ws| - 1 && w.t.Node? && InRange(w.t, |c.intervals|)
    && InRange(w.t.left, |c.intervals|) && InRange(w.t.right, |c.intervals|)
    && w.t.at < |c.intervals| && interval == c.intervals[w.t.at] && max == MaxEnd(c.intervals, w.t)
    && Ready(c, w.t.left, 2 * w.slot + 1) && Ready(c, w.t.right, 2 * w.slot + 2)
    && (w.t.left.Node? ==> Waits(c, Waiting(2 * w.slot + 1, w.t.left, w.depth + 1)))
    && (w.t.right.Node? ==> Waits(c, Waiting(2 * w.slot + 2, w.t.right, w.depth + 1)))
    && (forall x :: x in InOrder(w.t.right) && x < |c.intervals| ==> interval.start <= c.intervals[x].start)
    && Offers(f, c, ws) == Offers(f, c, ws[..|ws| - 1]) + Hits(f, c.intervals, w.t)
    && Hits(f, c.intervals, w.t) == Hits(f, c.intervals, w.t.left) + Chosen(f, interval) + Hits(f, c.intervals, w.t.right)
    && Load(ws) == Load(ws[..|ws| - 1]) + Size(w.t.left) + 1 + Size(w.t.right)
  }

  /** The left child of the node taken off waits in its place. */
  ghost predicate WentLeft(f: Interval -> bool, c: Index, ws: seq<Waiting>, left: seq<Waiting>) {
    && ws != [] && Searching(c, ws[..|ws| - 1]) && Steady(c, left) && Searching(c, left) && |left| <= |ws|
    && var w := ws[|ws| - 1];
    && w.t.Node? && InRange(w.t.left, |c.intervals|)
    && Offers(f, c, left) == Offers(f, c, ws[..|ws| - 1]) + Hits(f, c.intervals, w.t.left)
    && Load(left) == Load(ws[..|ws| - 1]) + Size(w.t.left)
  }

  /** So does its right child, on top of the left one. */
  ghost predicate WentRight(f: Interval -> bool, c: Index, ws: seq<Waiting>, left: seq<Waiting>, ws': seq<Waiting>) {
    && ws != [] && Searching(c, left) && Searching(c, ws')
    && var w := ws[|ws| - 1];
    && w.t.Node? && InRange(w.t.right, |c.intervals|)
    && Offers(f, c, ws') == Offers(f, c, left) + Hits(f, c.intervals, w.t.right)
    && Load(ws') == Load(left) + Size(w.t.right)
  }

  /** What has been found and what is still on offer stay the same together, and less is left to do. */
  ghost predicate Progress(f: Interval -> bool, c: Index, ws: seq<Waiting>, found: seq<Interval>, ws': seq<Waiting>, matches: seq<Interval>) {
    && Searching(c, ws) && Searching(c, ws')
    && multiset(matches) + Offers(f, c, ws') == multiset(found) + Offers(f, c, ws)
    && Load(ws') < Load(ws)
  }

  lemma NoneBelow(f: Interval -> bool, c: Index, ws: seq<Waiting>, interval: Interval, max: real, found: seq<Interval>, bound: real)
    requires Opened(f, c, ws, interval, max) && max < bound && forall x :: f(x) ==> bound <= x.end
    ensures Progress(f, c, ws, found, ws[..|ws| - 1], found)
  {
    hide Searching, Waits, Ready, Offers, Load, Hits, MaxEnd, InOrder, InRange;
    EndsTooEarly(f, c.intervals, ws[|ws| - 1].t, bound);
  }

  lemma NoneToTheRight(f: Interval -> bool, c: Index, ws: seq<Waiting>, interval: Interval, max: real, found: seq<Interval>,
                       left: seq<Waiting>, bound: real)
    requires Opened(f, c, ws, interval, max) && WentLeft(f, c, ws, left)
    requires bound < interval.start && forall x :: f(x) ==> x.start <= bound
    ensures Progress(f, c, ws, found, left, if f(interval) then found + [interval] else found)
  {
    hide Searching, Steady, Waits, Ready, Offers, Load, Hits, MaxEnd, InOrder, InRange;
    StartsTooLate(f, c.intervals, ws[|ws| - 1].t.right, bound);
  }

  lemma BothSides(f: Interval -> bool, c: Index, ws: seq<Waiting>, interval: Interval, max: real, found: seq<Interval>,
                  left: seq<Waiting>, ws': seq<Waiting>)
    requires Opened(f, c, ws, interval, max) && WentLeft(f, c, ws, left) && WentRight(f, c, ws, left, ws')
    ensures Progress(f, c, ws, found, ws', if f(interval) then found + [interval] else found)
  {
    hide Searching, Steady, Waits, Ready, Offers, Load, Hits, MaxEnd, InOrder, InRange;
  }

  function Contains(point: real): Interval -> bool {
    (x: Interval) => x.start <= point <= x.end
  }

  function Overlaps(interval: Interval): Interval -> bool {
    (x: Interval) => interval.end >= x.start && interval.start <= x.end
  }

  /** Two intervals that do not end before they start overlap exactly if they share a point. */
  lemma OverlapIsCommonPoint(a: Interval, b: Interval)
    requires a.start <= a.end && b.start <= b.end
    ensures Overlaps(a)(b) <==> exists point :: Contains(point)(a) && Contains(point)(b)
  {
    var later := if a.start >= b.start then a.start else b.start;
    assert Overlaps(a)(b) ==> Contains(later)(a) && Contains(later)(b);
  }

  lemma NodeHits(f: Interval -> bool, c: Index, w: Waiting)
    requires Waits(c, w)
    ensures InRange(w.t, |c.intervals|) && InRange(w.t.left, |c.intervals|) && InRange(w.t.right, |c.intervals|)
    ensures Hits(f, c.intervals, w.t) == Hits(f, c.intervals, w.t.left) + Chosen(f, c.intervals[w.t.at]) + Hits(f, c.intervals, w.t.right)
    ensures Size(w.t) == Size(w.t.left) + 1 + Size(w.t.right)
  {
  }

  lemma Finished(f: Interval -> bool, c: Index, ws: seq<Waiting>)
    requires Searching(c, ws) && Slots(ws) == []
    ensures Offers(f, c, ws) == multiset{}
  {
  }

  lemma NothingOffered(f: Interval -> bool, c: Index, w: Waiting)
    requires w.t.Empty?
    ensures Hits(f, c.intervals, w.t) == multiset{} && Size(w.t) == 0
  {
  }
}
