/** The interval tree as a value: how it lies in the array of its nodes, what the augmentations
    promise, and which subtrees a query need not look at. */
module IntervalTreeModel {
  import opened Permutations
  import opened IndexSets
  import opened QuickSort

  datatype Interval = Interval(start: real, end: real)

  /** A binary search tree of interval indices. */
  datatype Bst = Empty | Node(at: nat, left: Bst, right: Bst)

  function InOrder(t: Bst): seq<nat> {
    match t
    case Empty => []
    case Node(at, left, right) => InOrder(left) + [at] + InOrder(right)
  }

  function Height(t: Bst): nat {
    match t
    case Empty => 0
    case Node(_, left, right) => 1 + if Height(left) >= Height(right) then Height(left) else Height(right)
  }

  function Size(t: Bst): nat {
    match t
    case Empty => 0
    case Node(_, left, right) => Size(left) + 1 + Size(right)
  }

  // ----- The array of nodes -----

  /** The tree hangs at slot i: the children of slot i are 2i + 1 and 2i + 2, and 0 is no node. */
  ghost predicate Stored(t: Bst, i: nat, tree: seq<nat>) {
    match t
    case Empty => i < |tree| ==> tree[i] == 0
    case Node(at, left, right) => i < |tree| && tree[i] == at + 1 && Stored(left, 2 * i + 1, tree) && Stored(right, 2 * i + 2, tree)
  }

  /** Slot j is slot i or below it. */
  ghost predicate Under(i: nat, j: nat)
    decreases j
  {
    j == i || (j > i && Under(i, (j - 1) / 2))
  }

  lemma {:induction false} UnderSide(i: nat, j: nat)
    ensures Under(2 * i + 1, j) ==> Under(i, j) && j > i && !Under(2 * i + 2, j)
    ensures Under(2 * i + 2, j) ==> Under(i, j) && j > i
    decreases j
  {
    if j > 2 * i + 1 {
      UnderSide(i, (j - 1) / 2);
    }
    if j == 2 * i + 2 {
      assert !Under(2 * i + 1, i);
    }
  }

  ghost predicate BlankUnder(i: nat, tree: seq<nat>) {
    forall j :: 0 <= j < |tree| && Under(i, j) ==> tree[j] == 0
  }

  ghost predicate SameUnder(i: nat, tree: seq<nat>, tree': seq<nat>) {
    |tree| == |tree'| && forall j :: 0 <= j < |tree| && Under(i, j) ==> tree[j] == tree'[j]
  }

  ghost predicate SameOutside(i: nat, tree: seq<nat>, tree': seq<nat>) {
    |tree| == |tree'| && forall j :: 0 <= j < |tree| && !Under(i, j) ==> tree[j] == tree'[j]
  }

  lemma {:induction false} StoredFramed(t: Bst, i: nat, tree: seq<nat>, tree': seq<nat>)
    requires Stored(t, i, tree) && SameUnder(i, tree, tree')
    ensures Stored(t, i, tree')
  {
    assert Under(i, i);
    if t.Node? {
      forall j: nat
        ensures Under(2 * i + 1, j) ==> Under(i, j)
        ensures Under(2 * i + 2, j) ==> Under(i, j)
      {
        UnderSide(i, j);
      }
      StoredFramed(t.left, 2 * i + 1, tree, tree');
      StoredFramed(t.right, 2 * i + 2, tree, tree');
    }
  }

  /** What is written below one child is not below the other, nor at their parent. */
  lemma OutsideSides(i: nat, tree: seq<nat>, tree': seq<nat>)
    ensures SameOutside(2 * i + 1, tree, tree') ==> SameOutside(i, tree, tree') && SameUnder(2 * i + 2, tree, tree')
    ensures SameOutside(2 * i + 2, tree, tree') ==> SameOutside(i, tree, tree') && SameUnder(2 * i + 1, tree, tree')
    ensures SameOutside(2 * i + 1, tree, tree') || SameOutside(2 * i + 2, tree, tree') ==> i < |tree| ==> tree[i] == tree'[i]
  {
    forall j: nat
      ensures Under(2 * i + 1, j) ==> Under(i, j) && j > i && !Under(2 * i + 2, j)
      ensures Under(2 * i + 2, j) ==> Under(i, j) && j > i
    {
      UnderSide(i, j);
    }
  }

  /** All slots of the top h levels below slot i exist. */
  ghost predicate Room(i: nat, h: nat, length: nat)
    decreases h
  {
    h > 0 ==> i < length && Room(2 * i + 1, h - 1, length) && Room(2 * i + 2, h - 1, length)
  }

  lemma {:induction false} RoomFor(i: nat, h: nat, length: nat)
    requires h > 0 ==> (i + 2) * Pow2(h - 1) - 1 <= length
    ensures Room(i, h, length)
    decreases h
  {
    if h > 1 {
      var p := Pow2(h - 2);
      Pow2Grows(0, h - 2);
      assert (i + 2) * (2 * p) == (2 * i + 4) * p;
      assert (2 * i + 3) * p <= (2 * i + 4) * p;
      RoomFor(2 * i + 1, h - 1, length);
      RoomFor(2 * i + 2, h - 1, length);
    } else if h == 1 {
      assert (i + 2) * Pow2(0) == i + 2;
    }
  }

  /** The logarithm of n, rounded up. */
  function CeilLog2(n: nat): (h: nat)
    requires n > 0
    ensures n <= Pow2(h) && (h > 0 ==> Pow2(h - 1) < n)
  {
    if n == 1 then 0 else CeilLog2((n + 1) / 2) + 1
  }

  // ----- Maximum ends -----

  function MaxEnd(intervals: seq<Interval>, t: Bst): real
    requires t.Node? && InRange(t, |intervals|)
  {
    var end := intervals[t.at].end;
    var end := if t.left.Node? && MaxEnd(intervals, t.left) > end then MaxEnd(intervals, t.left) else end;
    if t.right.Node? && MaxEnd(intervals, t.right) > end then MaxEnd(intervals, t.right) else end
  }

  ghost predicate InRange(t: Bst, n: nat) {
    t.Node? ==> t.at < n && InRange(t.left, n) && InRange(t.right, n)
  }

  /** The augmentation of every node is an interval that ends last in its subtree. */
  ghost predicate Augmented(intervals: seq<Interval>, t: Bst, augmentations: seq<nat>) {
    t.Node? ==>
      && InRange(t, |intervals|) && t.at < |augmentations|
      && augmentations[t.at] < |intervals| && intervals[augmentations[t.at]].end == MaxEnd(intervals, t)
      && Augmented(intervals, t.left, augmentations) && Augmented(intervals, t.right, augmentations)
  }

  lemma {:induction false} AugmentedFramed(intervals: seq<Interval>, t: Bst, a: seq<nat>, a': seq<nat>)
    requires Augmented(intervals, t, a) && |a| == |a'|
    requires forall x :: x in InOrder(t) && x < |a| ==> a[x] == a'[x]
    ensures Augmented(intervals, t, a')
  {
    if t.Node? {
      assert t.at in InOrder(t);
      AugmentedFramed(intervals, t.left, a, a');
      AugmentedFramed(intervals, t.right, a, a');
    }
  }

  // ----- Queries -----

  /** The intervals of the tree that meet the query. */
  ghost function Hits(f: Interval -> bool, intervals: seq<Interval>, t: Bst): multiset<Interval>
    requires InRange(t, |intervals|)
  {
    match t
    case Empty => multiset{}
    case Node(at, left, right) => Hits(f, intervals, left) + Chosen(f, intervals[at]) + Hits(f, intervals, right)
  }

  ghost function Chosen(f: Interval -> bool, interval: Interval): multiset<Interval> {
    if f(interval) then multiset{interval} else multiset{}
  }

  ghost function At(intervals: seq<Interval>): nat -> Interval {
    (x: nat) => if x < |intervals| then intervals[x] else Interval(0.0, 0.0)
  }

  /** What the tree has to offer is what the filter finds in its intervals. */
  lemma {:induction false} HitsAreFiltered(f: Interval -> bool, intervals: seq<Interval>, t: Bst)
    requires InRange(t, |intervals|)
    ensures Hits(f, intervals, t) == multiset(Filter(f, Map(At(intervals), InOrder(t))))
  {
    if t.Node? {
      var g := At(intervals);
      var left, right := Map(g, InOrder(t.left)), Map(g, InOrder(t.right));
      HitsAreFiltered(f, intervals, t.left);
      HitsAreFiltered(f, intervals, t.right);
      MapAppend(g, InOrder(t.left) + [t.at], InOrder(t.right));
      MapAppendOne(g, InOrder(t.left), t.at);
      FilterConcat(f, left + [g(t.at)], right);
      FilterConcat(f, left, [g(t.at)]);
      FilterOne(f, g(t.at));
      hide Filter;
      assert multiset(Filter(f, left) + Filter(f, [g(t.at)]) + Filter(f, right)) == Hits(f, intervals, t);
    }
  }

  lemma FilterOne(f: Interval -> bool, x: Interval)
    ensures multiset(Filter(f, [x])) == Chosen(f, x)
  {
  }

  /** A tree of all the intervals offers exactly what the filter finds. */
  lemma WholeTree(f: Interval -> bool, intervals: seq<Interval>, t: Bst, all: seq<nat>)
    requires InRange(t, |intervals|) && Permuted(InOrder(t), all)
    requires |all| == |intervals| && forall x :: 0 <= x < |all| ==> all[x] == x
    ensures Hits(f, intervals, t) == multiset(Filter(f, intervals))
  {
    hide Hits, Filter, InOrder, InRange, Map, At;
    var g := At(intervals);
    HitsAreFiltered(f, intervals, t);
    MapPermuted(g, InOrder(t), all);
    AllInOrder(intervals, all);
    FilterPermuted(f, Map(g, InOrder(t)), intervals);
  }

  lemma AllInOrder(intervals: seq<Interval>, all: seq<nat>)
    requires |all| == |intervals| && forall x :: 0 <= x < |all| ==> all[x] == x
    ensures Map(At(intervals), all) == intervals
  {
  }

  ghost predicate AscendingStarts(intervals: seq<Interval>, idx: seq<nat>) {
    && (forall x :: 0 <= x < |idx| ==> idx[x] < |intervals|)
    && (forall x, y :: 0 <= x < y < |idx| ==> intervals[idx[x]].start <= intervals[idx[y]].start)
  }

  lemma SidesAscend(intervals: seq<Interval>, t: Bst)
    requires t.Node? && AscendingStarts(intervals, InOrder(t))
    ensures AscendingStarts(intervals, InOrder(t.left)) && AscendingStarts(intervals, InOrder(t.right))
    ensures t.at < |intervals|
    ensures forall x :: x in InOrder(t.right) ==> intervals[t.at].start <= intervals[x].start
  {
    var left, right := InOrder(t.left), InOrder(t.right);
    assert InOrder(t) == left + [t.at] + right;
    hide InOrder;
    PartsAscend(intervals, left, t.at, right);
  }

  lemma PartsAscend(intervals: seq<Interval>, left: seq<nat>, at: nat, right: seq<nat>)
    requires AscendingStarts(intervals, left + [at] + right)
    ensures AscendingStarts(intervals, left) && AscendingStarts(intervals, right) && at < |intervals|
    ensures forall x :: x in right ==> intervals[at].start <= intervals[x].start
  {
    var s, l := left + [at] + right, |left|;
    assert left == s[0..l] && right == s[l + 1..|s|];
    SliceAscends(intervals, s, 0, l);
    SliceAscends(intervals, s, l + 1, |s|);
    assert s[l] == at;
    forall x | x in right
      ensures intervals[at].start <= intervals[x].start
    {
      var j :| 0 <= j < |right| && right[j] == x;
      assert s[l + 1 + j] == x;
    }
  }

  lemma SliceAscends(intervals: seq<Interval>, idx: seq<nat>, i: nat, j: nat)
    requires AscendingStarts(intervals, idx) && i <= j <= |idx|
    ensures AscendingStarts(intervals, idx[i..j])
  {
  }

  /** Nothing in a subtree meets a query that asks for an end the subtree does not reach. */
  lemma {:induction false} EndsTooEarly(f: Interval -> bool, intervals: seq<Interval>, t: Bst, bound: real)
    requires t.Node? && InRange(t, |intervals|) && MaxEnd(intervals, t) < bound
    requires forall x :: f(x) ==> bound <= x.end
    ensures Hits(f, intervals, t) == multiset{}
  {
    if t.left.Node? {
      EndsTooEarly(f, intervals, t.left, bound);
    }
    if t.right.Node? {
      EndsTooEarly(f, intervals, t.right, bound);
    }
  }

  /** Nothing in a subtree meets a query that asks for an earlier start. */
  lemma {:induction false} StartsTooLate(f: Interval -> bool, intervals: seq<Interval>, t: Bst, bound: real)
    requires InRange(t, |intervals|) && forall x :: x in InOrder(t) && x < |intervals| ==> bound < intervals[x].start
    requires forall x :: f(x) ==> x.start <= bound
    ensures Hits(f, intervals, t) == multiset{}
  {
    if t.Node? {
      assert t.at in InOrder(t);
      StartsTooLate(f, intervals, t.left, bound);
      StartsTooLate(f, intervals, t.right, bound);
    }
  }

  // ----- The depth-first search of a query -----

  /** All that a query reads. */
  datatype Index = Index(intervals: seq<Interval>, tree: seq<nat>, augmentations: seq<nat>, height: nat)

  /** A subtree on the stack: its slot, itself, and how deep it hangs. */
  datatype Waiting = Waiting(slot: nat, t: Bst, depth: nat)

  ghost predicate Ready(c: Index, t: Bst, slot: nat) {
    && Stored(t, slot, c.tree) && InRange(t, |c.intervals|) && Augmented(c.intervals, t, c.augmentations)
    && AscendingStarts(c.intervals, InOrder(t))
  }

  ghost predicate Waits(c: Index, w: Waiting) {
    w.t.Node? && Ready(c, w.t, w.slot) && Height(w.t) + w.depth <= c.height
  }

  function Slots(ws: seq<Waiting>): seq<nat> {
    seq(|ws|, j requires 0 <= j < |ws| => ws[j].slot)
  }

  /** Every waiting subtree hangs deeper than its place in the stack; the last one at least as deep. */
  ghost predicate Searching(c: Index, ws: seq<Waiting>) {
    && (forall j :: 0 <= j < |ws| ==> Waits(c, ws[j]))
    && (forall j :: 0 <= j < |ws| - 1 ==> ws[j].depth >= j + 1)
    && (ws != [] ==> ws[|ws| - 1].depth >= |ws| - 1)
  }

  ghost predicate Steady(c: Index, ws: seq<Waiting>) {
    Searching(c, ws) && forall j :: 0 <= j < |ws| ==> ws[j].depth >= j + 1
  }

  ghost function Offers(f: Interval -> bool, c: Index, ws: seq<Waiting>): multiset<Interval>
    requires forall j :: 0 <= j < |ws| ==> Waits(c, ws[j])
  {
    if ws == [] then multiset{} else
      var w := ws[|ws| - 1];
      assert Waits(c, w);
      Offers(f, c, ws[..|ws| - 1]) + Hits(f, c.intervals, w.t)
  }

  ghost function Load(ws: seq<Waiting>): nat {
    if ws == [] then 0 else Load(ws[..|ws| - 1]) + Size(ws[|ws| - 1].t)
  }

  lemma Popped(f: Interval -> bool, c: Index, ws: seq<Waiting>)
    requires Searching(c, ws) && ws != []
    ensures var w, rest := ws[|ws| - 1], ws[..|ws| - 1];
            && Waits(c, w) && Steady(c, rest) && |rest| <= w.depth < c.height
            && Offers(f, c, ws) == Offers(f, c, rest) + Hits(f, c.intervals, w.t)
            && Load(ws) == Load(rest) + Size(w.t)
            && Slots(rest) == Slots(ws)[..|ws| - 1]
  {
    hide Stored, Augmented, AscendingStarts, InOrder, Hits, MaxEnd, InRange;
  }

  /** A child may be pushed after its parent was popped, and there is room for it. */
  lemma Pushed(f: Interval -> bool, c: Index, ws: seq<Waiting>, w: Waiting)
    requires Steady(c, ws) && Waits(c, w) && w.depth >= |ws|
    ensures Searching(c, ws + [w]) && |ws| < c.height && (w.depth > |ws| ==> Steady(c, ws + [w]))
    ensures Offers(f, c, ws + [w]) == Offers(f, c, ws) + Hits(f, c.intervals, w.t)
    ensures Load(ws + [w]) == Load(ws) + Size(w.t)
    ensures Slots(ws + [w]) == Slots(ws) + [w.slot]
  {
    hide Stored, Augmented, AscendingStarts, InOrder, Hits, MaxEnd, InRange;
    assert (ws + [w])[..|ws|] == ws;
  }

  lemma ChildrenReady(c: Index, w: Waiting)
    requires Waits(c, w)
    ensures w.slot < |c.tree| && c.tree[w.slot] == w.t.at + 1 && w.t.at < |c.intervals| && w.t.at < |c.augmentations|
    ensures c.augmentations[w.t.at] < |c.intervals| && c.intervals[c.augmentations[w.t.at]].end == MaxEnd(c.intervals, w.t)
    ensures Ready(c, w.t.left, 2 * w.slot + 1) && Ready(c, w.t.right, 2 * w.slot + 2)
    ensures w.t.left.Node? ==> Waits(c, Waiting(2 * w.slot + 1, w.t.left, w.depth + 1))
    ensures w.t.right.Node? ==> Waits(c, Waiting(2 * w.slot + 2, w.t.right, w.depth + 1))
    ensures forall x :: x in InOrder(w.t.right) ==> c.intervals[w.t.at].start <= c.intervals[x].start
  {
    SidesAscend(c.intervals, w.t);
  }

  /** The slot of a subtree tells whether there is one. */
  lemma SlotTells(c: Index, t: Bst, slot: nat)
    requires Ready(c, t, slot)
    ensures t.Node? <==> slot < |c.tree| && c.tree[slot] != 0
  {
  }
}
