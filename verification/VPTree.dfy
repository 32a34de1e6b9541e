/** The VPTree: build loop over an explicit stack, range and k-nearest queries that prune. */
module VPTrees {
  import opened Permutations
  import opened IndexSets
  import opened QuickSort
  import opened BinarySearch
  import opened VPTreeModel
  import opened VPTreeSearch
  import opened Comparators
  import opened Heaps
  import opened RawHeaps
  import opened FixedReverseHeaps

  ghost function Snapshot(nodes: array<nat>, lefts: array<nat>, rights: array<nat>, mus: array<real>): Flat
    reads nodes, lefts, rights, mus
  {
    Flat(nodes[..], lefts[..], rights[..], mus[..])
  }

  /** The distances of the items at positions lo to hi to item vp are filled in. */
  ghost predicate Measured(D: (nat, nat) -> real, distances: seq<real>, idx: seq<nat>, vp: nat, lo: nat, hi: nat)
    requires hi <= |idx|
  {
    forall x :: lo <= x < hi ==> idx[x] < |distances| && distances[idx[x]] == D(vp, idx[x])
  }

  method ComputeDistances<T>(distance: (T, T) -> real, items: seq<T>, indices: array<nat>, distances: array<real>,
                             vantagePoint: nat, lo: nat, hi: nat)
    requires Permutation(indices[..], |items|) && distances.Length == |items|
    requires vantagePoint < |items| && lo <= hi <= |items|
    modifies distances
    ensures Measured(ByIndex(distance, items), distances[..], indices[..], vantagePoint, lo, hi)
  {
    IndexInRange(indices[..], |items|);
    var i := lo;
    while i < hi
      invariant lo <= i <= hi
      invariant forall x :: lo <= x < i ==>
          distances[indices[x]] == ByIndex(distance, items)(vantagePoint, indices[x])
    {
      distances[indices[i]] := distance(items[vantagePoint], items[indices[i]]);
      i := i + 1;
    }
  }

  /** After sorting, the distances along the stretch ascend. */
  lemma SortedDistances(D: (nat, nat) -> real, distances: seq<real>, was: seq<nat>, now: seq<nat>, vp: nat,
                        lo: nat, hi: nat, n: nat)
    requires Permutation(was, n) && |distances| == n && lo <= hi <= n
    requires Measured(D, distances, was, vp, lo, hi)
    requires Rearranged(was, now, lo, hi) && Sorted(Map(ValueAt(distances), now), lo, hi)
    ensures Permutation(now, n) && Measured(D, distances, now, vp, lo, hi)
    ensures forall x, y :: lo <= x < y < hi ==> distances[now[x]] <= distances[now[y]]
  {
    IndicesStay(was, now, lo, hi, n);
    forall x | lo <= x < hi
      ensures now[x] < n && distances[now[x]] == D(vp, now[x])
    {
      var y := PermutedMember(now, was, lo, hi, x);
    }
    forall x, y | lo <= x < y < hi
      ensures distances[now[x]] <= distances[now[y]]
    {
      var keys := Map(ValueAt(distances), now);
      assert keys[x] <= keys[y];
    }
  }

  /** The median of the ascending distances along a stretch: the middle one, or the mean of
      the two in the middle. */
  method Median(indices: array<nat>, distances: array<real>, lo: nat, hi: nat) returns (mu: real)
    requires lo + 2 <= hi <= indices.Length
    requires forall x :: lo <= x < hi ==> indices[x] < distances.Length
    requires forall x, y :: lo <= x < y < hi ==> distances[indices[x]] <= distances[indices[y]]
    ensures distances[indices[lo + (hi - lo - 1) / 2]] <= mu <= distances[indices[lo + (hi - lo) / 2]]
  {
    var l := hi - lo;
    if l % 2 == 0 {
      var medianIndex := lo + l / 2 - 1;
      mu := (distances[indices[medianIndex]] + distances[indices[medianIndex + 1]]) / 2.0;
    } else {
      mu := distances[indices[lo + l / 2]];
    }
  }

  /** Sorts the indices from lo to hi by distance to the vantage point and finds the median
      distance mu and the position where distances reach it; at most half of them lie below. */
  method MedianSplit<T>(distance: (T, T) -> real, items: seq<T>, indices: array<nat>, distances: array<real>,
                        LOS: array<int>, HIS: array<int>, vantagePoint: nat, lo: nat, hi: nat)
    returns (mu: real, mid: nat)
    requires Permutation(indices[..], |items|) && distances.Length == |items| < Pow2(STACK_SIZE)
    requires LOS.Length == HIS.Length == STACK_SIZE && LOS != HIS
    requires indices as object != LOS && indices as object != HIS
    requires vantagePoint < |items| && lo + 2 <= hi <= |items|
    modifies indices, distances, LOS, HIS
    ensures Rearranged(old(indices[..]), indices[..], lo, hi)
    ensures lo <= mid <= lo + (hi - lo) / 2
    ensures MuSplits(ByIndex(distance, items), vantagePoint, indices[..], lo, mid, hi, mu)
  {
    assert indices.Length == |items|;
    hide Measured, Permutation, Rearranged, Pow2, MuSplits;
    ghost var was := indices[..];
    ComputeDistances(distance, items, indices, distances, vantagePoint, lo, hi);
    ghost var measures := distances[..];
    IndexInRange(was, |items|);
    InplaceQuickSortIndices(distances, indices, LOS, HIS, lo, hi);
    assert distances[..] == measures;
    SortedDistances(ByIndex(distance, items), measures, was, indices[..], vantagePoint, lo, hi, |items|);
    IndexInRange(indices[..], |items|);
    mu, mid := SplitAtMedian(ByIndex(distance, items), indices, distances, vantagePoint, lo, hi);
  }

  method SplitAtMedian(ghost D: (nat, nat) -> real, indices: array<nat>, distances: array<real>, ghost vantagePoint: nat, lo: nat, hi: nat)
    returns (mu: real, mid: nat)
    requires lo + 2 <= hi <= indices.Length && Measured(D, distances[..], indices[..], vantagePoint, lo, hi)
    requires forall x, y :: lo <= x < y < hi ==>
               indices[..][x] < distances.Length && indices[..][y] < distances.Length && distances[..][indices[..][x]] <= distances[..][indices[..][y]]
    ensures lo <= mid <= lo + (hi - lo) / 2
    ensures MuSplits(D, vantagePoint, indices[..], lo, mid, hi, mu)
  {
    assert forall x :: lo <= x < hi ==> indices[x] == indices[..][x] < distances.Length && distances[indices[x]] == D(vantagePoint, indices[x]);
    hide Measured;
    mu := Median(indices, distances, lo, hi);
    mid := LowerBoundIndices(distances, indices, mu, lo, hi);
  }

  // ----- The build loop -----

  ghost predicate Apart(nodes: array<nat>, lefts: array<nat>, rights: array<nat>) {
    nodes != lefts && nodes != rights && lefts != rights
  }

  ghost predicate Separate(indices: array<nat>, nodes: array<nat>, lefts: array<nat>, rights: array<nat>,
                           mus: array<real>, distances: array<real>, LOS: array<int>, HIS: array<int>) {
    && indices != nodes && indices != lefts && indices != rights
    && Apart(nodes, lefts, rights) && mus != distances && LOS != HIS
    && indices as object != LOS && nodes as object != LOS && lefts as object != LOS && rights as object != LOS
    && indices as object != HIS && nodes as object != HIS && lefts as object != HIS && rights as object != HIS
  }

  /** Writes the node of a vantage point; a child index of 0 is already there. */
  method PlaceNode(nodes: array<nat>, lefts: array<nat>, rights: array<nat>, mus: array<real>,
                   v: nat, vantagePoint: nat, mu: real, left: nat, right: nat)
    requires nodes != lefts && nodes != rights && lefts != rights
    requires v < nodes.Length == lefts.Length == rights.Length == mus.Length
    requires lefts[v] == 0 == rights[v]
    modifies nodes, lefts, rights, mus
    ensures Snapshot(nodes, lefts, rights, mus) == Vantage(old(Snapshot(nodes, lefts, rights, mus)), v, vantagePoint, left, right, mu)
  {
    nodes[v] := vantagePoint;
    mus[v] := mu;
    if right > 0 {
      rights[v] := right;
    }
    if left > 0 {
      lefts[v] := left;
    }
  }

  /** Writes the node of a vantage point and the leaf of its only other item. */
  method PlacePair(nodes: array<nat>, lefts: array<nat>, rights: array<nat>, mus: array<real>,
                   v: nat, vantagePoint: nat, mu: real, C: nat, other: nat)
    requires nodes != lefts && nodes != rights && lefts != rights
    requires v < nodes.Length == lefts.Length == rights.Length == mus.Length && C < nodes.Length
    requires lefts[v] == 0 == rights[v]
    modifies nodes, lefts, rights, mus
    ensures var pair := Vantage(old(Snapshot(nodes, lefts, rights, mus)), v, vantagePoint, 0, C, mu);
            Snapshot(nodes, lefts, rights, mus) == pair.(nodes := pair.nodes[C := other])
  {
    PlaceNode(nodes, lefts, rights, mus, v, vantagePoint, mu, 0, C);
    nodes[C] := other;
  }

  /** Lets the two sides of the sorted positions lo to hi wait, and places their vantage point. */
  method PlaceSides(ghost D: (nat, nat) -> real, ghost idx: seq<nat>, ghost n: nat,
                    nodes: array<nat>, lefts: array<nat>, rights: array<nat>, mus: array<real>,
                    rest: seq<Frame>, nodeIndex: nat, vantagePoint: nat, lo: nat, mid: nat, hi: nat, mu: real,
                    C0: nat, ghost content0: seq<set<nat>>)
    returns (C: nat, stack: seq<Frame>, ghost content: seq<set<nat>>)
    requires Apart(nodes, lefts, rights)
    requires lo <= mid < hi < |idx| && vantagePoint == idx[hi]
    requires Underway(D, Snapshot(nodes, lefts, rights, mus), content0, idx, rest + [Frame(nodeIndex, lo, hi + 1)], n, C0)
    requires MuSplits(D, vantagePoint, idx, lo, mid, hi, mu)
    modifies nodes, lefts, rights, mus
    ensures Underway(D, Snapshot(nodes, lefts, rights, mus), content, idx, stack, n, C)
    ensures Load(stack) < Load(rest + [Frame(nodeIndex, lo, hi + 1)])
  {
    hide Building, Opened, MuSplits, Slack, Load;
    ghost var t, f := Snapshot(nodes, lefts, rights, mus), Frame(nodeIndex, lo, hi + 1);
    TopFacts(D, t, content0, idx, rest, f, n);
    OpenTop(D, t, content0, idx, rest, f, n);
    C, stack, content := C0, rest, content0;
    LoadAppend(rest, f);
    var left, right := 0, 0;
    if hi - mid > 0 {
      C := C + 1;
      right := C;
      LoadAppend(stack, Frame(C, mid, hi));
      stack, content := stack + [Frame(C, mid, hi)], content + [SetOf(idx[mid..hi])];
    }
    if mid - lo > 0 {
      PushSide(D, t, content0, idx, rest, n, nodeIndex, idx[hi], lo, mid, hi);
      LeftTurn(D, t, content, idx, stack, n, nodeIndex, lo, mid, hi, right, mu);
      C := C + 1;
      left := C;
      LoadAppend(stack, Frame(C, lo, mid));
      stack, content := stack + [Frame(C, lo, mid)], content + [SetOf(idx[lo..mid])];
    } else {
      RightTurn(D, t, content0, idx, rest, n, nodeIndex, lo, hi, mu);
    }
    PlaceNode(nodes, lefts, rights, mus, nodeIndex, vantagePoint, mu, left, right);
  }

  /** Sorts the frame's other items by their distance to its vantage point, and splits them at mu. */
  method SortFrame<T>(distance: (T, T) -> real, items: seq<T>, indices: array<nat>, distances: array<real>,
                      LOS: array<int>, HIS: array<int>, ghost t: Flat, ghost rest: seq<Frame>, ghost f: Frame,
                      vantagePoint: nat, lo: nat, hi: nat, ghost content: seq<set<nat>>, ghost C: nat)
    returns (mu: real, mid: nat)
    requires LOS.Length == HIS.Length == STACK_SIZE && distances.Length == |items| < Pow2(STACK_SIZE) && LOS != HIS
    requires indices as object != LOS && indices as object != HIS
    requires f.lo == lo && f.hi == hi + 1 && lo + 2 <= hi < indices.Length && vantagePoint == indices[hi]
    requires Underway(ByIndex(distance, items), t, content, indices[..], rest + [f], |items|, C)
    modifies indices, distances, LOS, HIS
    ensures Underway(ByIndex(distance, items), t, content, indices[..], rest + [f], |items|, C)
    ensures lo <= mid < hi < indices.Length && vantagePoint == indices[hi]
    ensures MuSplits(ByIndex(distance, items), vantagePoint, indices[..], lo, mid, hi, mu)
  {
    hide Building, MuSplits, Rearranged, Pow2, Slack;
    ghost var D, n, was := ByIndex(distance, items), |items|, indices[..];
    TopFacts(D, t, content, was, rest, f, n);
    BuildingPermutes(D, t, content, was, rest + [f], n);
    mu, mid := MedianSplit(distance, items, indices, distances, LOS, HIS, vantagePoint, lo, hi);
    SortTurn(D, t, content, was, indices[..], rest, f, n);
  }

  lemma BuildingPermutes(D: (nat, nat) -> real, t: Flat, content: seq<set<nat>>, idx: seq<nat>, stack: seq<Frame>, n: nat)
    requires Building(D, t, content, idx, stack, n)
    ensures Permutation(idx, n)
  {
  }

  /** The node of a frame over one position. */
  method PlaceLeaf(ghost D: (nat, nat) -> real, ghost idx: seq<nat>, ghost n: nat,
                   nodes: array<nat>, lefts: array<nat>, rights: array<nat>, mus: array<real>,
                   ghost rest: seq<Frame>, f: Frame, vantagePoint: nat, ghost C: nat, ghost content: seq<set<nat>>)
    requires Apart(nodes, lefts, rights) && f.hi == f.lo + 1 <= |idx| && vantagePoint == idx[f.lo]
    requires Underway(D, Snapshot(nodes, lefts, rights, mus), content, idx, rest + [f], n, C)
    modifies nodes
    ensures Underway(D, Snapshot(nodes, lefts, rights, mus), content, idx, rest, n, C) && Load(rest) < Load(rest + [f])
  {
    hide Underway, Load;
    ghost var t := Snapshot(nodes, lefts, rights, mus);
    LeafUnderway(D, t, content, idx, rest, f, n, C);
    nodes[f.node] := vantagePoint;
    assert Snapshot(nodes, lefts, rights, mus) == t.(nodes := t.nodes[f.node := vantagePoint]);
  }

  /** The node of a frame over two positions, and the leaf for the item that is not its vantage point. */
  method PlaceBoth(ghost D: (nat, nat) -> real, ghost idx: seq<nat>, ghost n: nat,
                   nodes: array<nat>, lefts: array<nat>, rights: array<nat>, mus: array<real>,
                   ghost rest: seq<Frame>, f: Frame, vantagePoint: nat, other: nat, mu: real, C0: nat, ghost content0: seq<set<nat>>)
    returns (C: nat, ghost content: seq<set<nat>>)
    requires Apart(nodes, lefts, rights) && f.hi == f.lo + 2 <= |idx| && vantagePoint == idx[f.lo + 1] && other == idx[f.lo]
    requires mu == D(vantagePoint, other)
    requires Underway(D, Snapshot(nodes, lefts, rights, mus), content0, idx, rest + [f], n, C0)
    modifies nodes, lefts, rights, mus
    ensures Underway(D, Snapshot(nodes, lefts, rights, mus), content, idx, rest, n, C) && Load(rest) < Load(rest + [f])
  {
    hide Underway, Load;
    ghost var t := Snapshot(nodes, lefts, rights, mus);
    UnderwayTop(D, t, content0, idx, rest, f, n, C0);
    PairUnderway(D, t, content0, idx, rest, f, n, C0);
    C := C0 + 1;
    content := content0 + [SetOf(idx[f.lo..f.hi - 1])];
    PlacePair(nodes, lefts, rights, mus, f.node, vantagePoint, mu, C, other);
  }

  lemma SeparateArrays(indices: array<nat>, nodes: array<nat>, lefts: array<nat>, rights: array<nat>, mus: array<real>,
                       distances: array<real>, LOS: array<int>, HIS: array<int>)
    requires Separate(indices, nodes, lefts, rights, mus, distances, LOS, HIS)
    ensures Apart(nodes, lefts, rights) && indices != nodes && indices != lefts && indices != rights
  {
  }

  lemma ByIndexAt<T>(distance: (T, T) -> real, items: seq<T>, i: nat, j: nat)
    requires i < |items| && j < |items|
    ensures ByIndex(distance, items)(i, j) == distance(items[i], items[j])
  {
  }

  /** Builds the node of the frame on top of the stack. */
  method BuildNext<T>(distance: (T, T) -> real, items: seq<T>, indices: array<nat>,
                      nodes: array<nat>, lefts: array<nat>, rights: array<nat>, mus: array<real>,
                      distances: array<real>, LOS: array<int>, HIS: array<int>,
                      stack0: seq<Frame>, C0: nat, ghost content0: seq<set<nat>>)
    returns (C: nat, stack: seq<Frame>, ghost content: seq<set<nat>>)
    requires Separate(indices, nodes, lefts, rights, mus, distances, LOS, HIS)
    requires LOS.Length == HIS.Length == STACK_SIZE && distances.Length == |items| < Pow2(STACK_SIZE)
    requires stack0 != []
    requires Underway(ByIndex(distance, items), Snapshot(nodes, lefts, rights, mus), content0, indices[..], stack0, |items|, C0)
    modifies indices, nodes, lefts, rights, mus, distances, LOS, HIS
    ensures Underway(ByIndex(distance, items), Snapshot(nodes, lefts, rights, mus), content, indices[..], stack, |items|, C)
    ensures Load(stack) < Load(stack0)
  {
    hide *;
    ghost var D, n, t, idx := ByIndex(distance, items), |items|, Snapshot(nodes, lefts, rights, mus), indices[..];
    SeparateArrays(indices, nodes, lefts, rights, mus, distances, LOS, HIS);
    var f := stack0[|stack0| - 1];
    stack := stack0[..|stack0| - 1];
    assert stack0 == stack + [f];
    UnderwayTop(D, t, content0, idx, stack, f, n, C0);
    // Getting our vantage point
    var vantagePoint := indices[f.hi - 1];
    if f.hi - f.lo == 1 {
      C, content := C0, content0;
      PlaceLeaf(D, idx, n, nodes, lefts, rights, mus, stack, f, vantagePoint, C, content);
    } else if f.hi - f.lo == 2 {
      // We put the remaining item to the right
      var other := indices[f.lo];
      var mu := distance(items[vantagePoint], items[other]);
      ByIndexAt(distance, items, vantagePoint, other);
      C, content := PlaceBoth(D, idx, n, nodes, lefts, rights, mus, stack, f, vantagePoint, other, mu, C0, content0);
    } else {
      C, stack, content := BuildSides(distance, items, indices, nodes, lefts, rights, mus, distances, LOS, HIS,
                                      stack, f, vantagePoint, C0, content0);
    }
  }

  /** Sorts the frame's other items by distance, splits them at mu and lets both sides wait. */
  method BuildSides<T>(distance: (T, T) -> real, items: seq<T>, indices: array<nat>,
                       nodes: array<nat>, lefts: array<nat>, rights: array<nat>, mus: array<real>,
                       distances: array<real>, LOS: array<int>, HIS: array<int>,
                       rest: seq<Frame>, f: Frame, vantagePoint: nat, C0: nat, ghost content0: seq<set<nat>>)
    returns (C: nat, stack: seq<Frame>, ghost content: seq<set<nat>>)
    requires Separate(indices, nodes, lefts, rights, mus, distances, LOS, HIS)
    requires LOS.Length == HIS.Length == STACK_SIZE && distances.Length == |items| < Pow2(STACK_SIZE)
    requires f.lo + 3 <= f.hi <= indices.Length && vantagePoint == indices[f.hi - 1]
    requires Underway(ByIndex(distance, items), Snapshot(nodes, lefts, rights, mus), content0, indices[..], rest + [f], |items|, C0)
    modifies indices, nodes, lefts, rights, mus, distances, LOS, HIS
    ensures Underway(ByIndex(distance, items), Snapshot(nodes, lefts, rights, mus), content, indices[..], stack, |items|, C)
    ensures Load(stack) < Load(rest + [f])
  {
    hide Underway, MuSplits, Load, Pow2, Apart;
    ghost var D, n, t := ByIndex(distance, items), |items|, Snapshot(nodes, lefts, rights, mus);
    var lo, hi := f.lo, f.hi - 1;
    assert f == Frame(f.node, lo, hi + 1);
    var mu, mid := SortFrame(distance, items, indices, distances, LOS, HIS, t, rest, f, vantagePoint, lo, hi, content0, C0);
    assert Snapshot(nodes, lefts, rights, mus) == t;
    ghost var idx := indices[..];
    C, stack, content := PlaceSides(D, idx, n, nodes, lefts, rights, mus, rest, f.node, vantagePoint,
                                    lo, mid, hi, mu, C0, content0);
    assert indices[..] == idx;
  }

  /** Builds the flat tree of a non-empty list of items. */
  method CreateBinaryTree<T>(distance: (T, T) -> real, items: seq<T>, indices: array<nat>)
    returns (nodes: array<nat>, lefts: array<nat>, rights: array<nat>, mus: array<real>, ghost content: seq<set<nat>>)
    requires 0 < |items| < Pow2(STACK_SIZE) && Permutation(indices[..], |items|)
    modifies indices
    ensures fresh(nodes) && fresh(lefts) && fresh(rights) && fresh(mus)
    ensures VantageTree(ByIndex(distance, items), Snapshot(nodes, lefts, rights, mus), content, |items|)
  {
    hide Permutation, Pow2, VantageTree, Underway;
    var N := |items|;
    nodes, lefts, rights := new nat[N](_ => 0), new nat[N](_ => 0), new nat[N](_ => 0);
    mus := new real[N](_ => 0.0);
    var distances := new real[N](_ => 0.0);
    var LOS, HIS := new int[STACK_SIZE], new int[STACK_SIZE];
    StartUnderway(ByIndex(distance, items), Snapshot(nodes, lefts, rights, mus), indices[..], N);
    content := BuildAll(distance, items, indices, nodes, lefts, rights, mus, distances, LOS, HIS);
  }

  method BuildAll<T>(distance: (T, T) -> real, items: seq<T>, indices: array<nat>,
                     nodes: array<nat>, lefts: array<nat>, rights: array<nat>, mus: array<real>,
                     distances: array<real>, LOS: array<int>, HIS: array<int>)
    returns (ghost content: seq<set<nat>>)
    requires Separate(indices, nodes, lefts, rights, mus, distances, LOS, HIS)
    requires LOS.Length == HIS.Length == STACK_SIZE && distances.Length == |items| < Pow2(STACK_SIZE)
    requires Underway(ByIndex(distance, items), Snapshot(nodes, lefts, rights, mus), [All(|items|)], indices[..], [Frame(0, 0, |items|)], |items|, 0)
    modifies indices, nodes, lefts, rights, mus, distances, LOS, HIS
    ensures VantageTree(ByIndex(distance, items), Snapshot(nodes, lefts, rights, mus), content, |items|)
  {
    hide *;
    ghost var D := ByIndex(distance, items);
    var stack := [Frame(0, 0, |items|)];
    var C := 0;
    content := [All(|items|)];
    UnderwayLoad(D, Snapshot(nodes, lefts, rights, mus), content, indices[..], stack, |items|, C);
    while |stack| > 0
      invariant Underway(D, Snapshot(nodes, lefts, rights, mus), content, indices[..], stack, |items|, C)
      invariant Load(stack) >= 0
      decreases Load(stack)
    {
      C, stack, content := BuildNext(distance, items, indices, nodes, lefts, rights, mus, distances, LOS, HIS, stack, C, content);
      UnderwayLoad(D, Snapshot(nodes, lefts, rights, mus), content, indices[..], stack, |items|, C);
    }
    assert stack == [];
    EndUnderway(D, Snapshot(nodes, lefts, rights, mus), content, indices[..], |items|, C);
  }

  class VPTree<T(!new)> {
    const distance: (T, T) -> real
    const items: seq<T>
    const size: nat
    const nodes: array<nat>
    const lefts: array<nat>
    const rights: array<nat>
    const mus: array<real>
    const heap: Heap<Neighbor<T>>
    var D: nat
    ghost const content: seq<set<nat>>

    /** The tree is built and the heap usable. */
    ghost predicate Built()
      reads nodes, lefts, rights, mus, heap, heap.items
    {
      && Metric(distance)
      && size == |items| > 0
      && VantageTree(ByIndex(distance, items), Snapshot(nodes, lefts, rights, mus), content, size)
      && heap.Valid() && heap.comparator == ByFarthest
    }

    /** Between queries the heap is empty. */
    ghost predicate Valid()
      reads nodes, lefts, rights, mus, heap, heap.items
    {
      Built() && heap.size == 0
    }

    constructor (distance: (T, T) -> real, items: seq<T>)
      requires Metric(distance) && 0 < |items| < Pow2(STACK_SIZE)
      ensures Valid() && this.distance == distance && this.items == items
      ensures fresh(heap) && fresh(heap.items)
    {
      hide VantageTree, Metric, TotalPreorder, Pow2;
      this.distance := distance;
      this.items := items;
      size := |items|;
      D := 0;
      FarthestIsTotal<T>();
      heap := new Heap(ByFarthest);
      var indices := new nat[|items|](i => i);
      StartingIndices(indices[..], |items|);
      var ns, ls, rs, ms;
      ghost var c;
      ns, ls, rs, ms, c := CreateBinaryTree(distance, items, indices);
      nodes, lefts, rights, mus, content := ns, ls, rs, ms, c;
    }

    /** The children of node v to visit when the query is at distance d from its item: all items
        below the others are out of reach. */
    method ChildrenToVisit(v: nat, query: T, d: real, reach: Reach) returns (kids: seq<nat>)
      requires Built() && v < size && nodes.Length == size && nodes[v] < size
      requires d == distance(items[nodes[v]], query)
      ensures Visits(Snapshot(nodes, lefts, rights, mus), v, kids)
      ensures forall x :: x in content[v] && x < |items| && x !in Rest(content, kids) && x != nodes[v] ==>
                reach.Within? && distance(items[x], query) > reach.radius
    {
      ghost var t := Snapshot(nodes, lefts, rights, mus);
      ChildrenDiffer(ByIndex(distance, items), t, content, v, size);
      var leftIndex, rightIndex := lefts[v], rights[v];
      // A leaf has no children to look at
      if leftIndex == 0 && rightIndex == 0 {
        kids := [];
      } else {
        kids := NextNodes(leftIndex, rightIndex, d, mus[v], reach);
      }
      if reach.Within? {
        PrunedOutOfReach(distance, items, query, t, content, v, kids, reach.radius);
      } else {
        KidsApart(ByIndex(distance, items), t, content, v, kids);
      }
    }

    function WithinRadius(query: T, radius: real): nat -> bool {
      (i: nat) => i < |items| && distance(items[i], query) <= radius
    }

    /** Midway through a radius query: everything not below the stack has been dealt with. */
    ghost predicate Scanning(query: T, radius: real, stack: seq<nat>, neighbors: seq<Neighbor<T>>,
                             ids: seq<nat>, done: set<nat>)
      requires |items| > 0
    {
      && Covered(content, stack, done, size) && done <= All(size)
      && Collected(WithinRadius(query, radius), ids, done)
      && neighbors == Map(AsNeighbor(distance, items, query), ids)
    }

    /** The items within the radius, found without measuring every distance. */
    method Neighbors(radius: real, query: T) returns (neighbors: seq<Neighbor<T>>, ghost ids: seq<nat>)
      requires Valid()
      modifies this`D
      ensures Valid()
      ensures |neighbors| == |ids| && forall i, j :: 0 <= i < j < |ids| ==> ids[i] != ids[j]
      ensures forall i: nat :: i in ids <==> i < |items| && distance(items[i], query) <= radius
      ensures forall j :: 0 <= j < |ids| ==> ids[j] < |items| && neighbors[j].item == items[ids[j]]
                                             && neighbors[j].distance == distance(items[ids[j]], query)
      ensures Permuted(neighbors, LinearNeighbors(distance, items, query, radius))
      ensures D <= size
    {
      hide VantageTree, Metric, Collected, Map, HeapFrom, TotalPreorder, AsNeighbor;
      neighbors, ids := Gather(radius, query);
      CollectedAll(WithinRadius(query, radius), ids, size);
      MapPermuted(AsNeighbor(distance, items, query), ids, Filter(WithinRadius(query, radius), Upto(size)));
      NeighborsListed(distance, items, query, radius, ids, WithinRadius(query, radius));
    }

    /** Walks the tree until no node is left that may hold an item within the radius. */
    method Gather(radius: real, query: T) returns (neighbors: seq<Neighbor<T>>, ghost ids: seq<nat>)
      requires Valid()
      modifies this`D
      ensures Valid() && D <= size && Collected(WithinRadius(query, radius), ids, All(size))
      ensures neighbors == Map(AsNeighbor(distance, items, query), ids)
    {
      ghost var done: set<nat> := {};
      ids := [];
      neighbors := [];
      var stack: seq<nat> := [0];
      D := 0;
      StartCovered(content, size);
      while |stack| > 0
        invariant Valid()
        invariant Scanning(query, radius, stack, neighbors, ids, done)
        invariant D <= |done|
        decreases All(size) - done
      {
        hide Scanning;
        stack, neighbors, ids, done := NeighborsAt(query, radius, stack, neighbors, ids, done);
      }
      AllSize(size);
    }

    /** One turn of a radius query. */
    method NeighborsAt(query: T, radius: real, stack: seq<nat>, neighbors: seq<Neighbor<T>>,
                       ghost ids: seq<nat>, ghost done: set<nat>)
      returns (stack': seq<nat>, neighbors': seq<Neighbor<T>>, ghost ids': seq<nat>, ghost done': set<nat>)
      requires Valid() && |stack| > 0
      requires Scanning(query, radius, stack, neighbors, ids, done)
      modifies this`D
      ensures Scanning(query, radius, stack', neighbors', ids', done')
      ensures done < done' <= All(size) && |done| < |done'|
      ensures D == old(D) + 1
    {
      hide VantageTree, Metric, Covered, Collected, Rest, Visits, Map;
      ghost var tree, measure := Snapshot(nodes, lefts, rights, mus), ByIndex(distance, items);
      var nodeIndex := stack[|stack| - 1];
      stack' := stack[..|stack| - 1];
      assert stack == stack' + [nodeIndex];
      TopInTree(measure, tree, content, stack', nodeIndex, done, size);
      var itemIndex := nodes[nodeIndex];
      var vantagePoint := items[itemIndex];
      var d := distance(vantagePoint, query);
      D := D + 1;
      neighbors', ids' := neighbors, ids;
      if d <= radius {
        neighbors' := neighbors + [Neighbor(d, vantagePoint)];
        ids' := ids + [itemIndex];
        MapAppendOne(AsNeighbor(distance, items, query), ids, itemIndex);
      }
      var kids := ChildrenToVisit(nodeIndex, query, d, Within(radius));
      done' := NeighborsTurn(measure, tree, content, stack', nodeIndex, kids, done, size, WithinRadius(query, radius), ids);
      stack' := stack' + kids;
    }

    /** The heap holds the neighbors with the indices in `ids`. */
    ghost predicate Holds(query: T, ids: seq<nat>)
      requires |items| > 0
      reads heap, heap.items
    {
      heap.Valid() && heap.Contents() == multiset(Map(AsNeighbor(distance, items, query), ids))
    }

    /** Lets the item itemIndex, at distance d from the query, into the k nearest found so far if
        it is within reach, and adjusts the reach. */
    method Keep(k: nat, itemIndex: nat, d: real, query: T, tau: Reach, ghost ids: seq<nat>, ghost done: set<nat>)
      returns (tau': Reach, ghost ids': seq<nat>)
      requires k >= 1 && itemIndex < |items| && d == ToQuery(distance, items, query)(itemIndex)
      requires heap.comparator == ByFarthest && Holds(query, ids) && itemIndex !in done
      requires Nearest(ToQuery(distance, items, query), ids, done, k, tau)
      requires forall x :: x in ids ==> x < |items|
      modifies heap, heap.items
      ensures heap.items == old(heap.items)
      ensures Holds(query, ids') && (forall x :: x in ids' ==> x < |items|)
      ensures Nearest(ToQuery(distance, items, query), ids', done + {itemIndex}, k, tau')
    {
      hide Nearest, Trimmed, ReachOf;
      ghost var q := ToQuery(distance, items, query);
      tau', ids' := tau, ids;
      if tau.Beats(d) {
        NearestBounds(q, ids, done, k, tau);
        ids' := PushAndTrim(k, itemIndex, d, query, ids);
        tau' := Tau(k, query, tau, ids');
        Join(q, ids, done, k, itemIndex, tau, ids', tau');
      } else {
        DropOutOfReach(q, ids, done, k, tau, {itemIndex});
      }
    }

    method PushAndTrim(k: nat, itemIndex: nat, d: real, query: T, ghost ids: seq<nat>) returns (ghost ids': seq<nat>)
      requires itemIndex < |items| && d == ToQuery(distance, items, query)(itemIndex)
      requires heap.comparator == ByFarthest && Holds(query, ids)
      requires forall x :: x in ids ==> x < |items|
      modifies heap, heap.items
      ensures heap.items == old(heap.items)
      ensures Holds(query, ids') && (forall x :: x in ids' ==> x < |items|)
      ensures |ids| <= k ==> |ids'| >= |ids|
      ensures Trimmed(ToQuery(distance, items, query), ids, itemIndex, k, ids')
    {
      ids' := ids + [itemIndex];
      PushHeld(itemIndex, d, query, ids);
      // Trimming
      if heap.size > k {
        ghost var far := PopFarthest(query, ids');
        WithoutMembers(ids', far);
        ids' := Without(ids', far);
      }
    }

    method PushHeld(itemIndex: nat, d: real, query: T, ghost ids: seq<nat>)
      requires itemIndex < |items| && d == ToQuery(distance, items, query)(itemIndex)
      requires Holds(query, ids)
      modifies heap, heap.items
      ensures heap.items == old(heap.items)
      ensures Holds(query, ids + [itemIndex]) && heap.size == |ids| + 1
    {
      MapAppendOne(AsNeighbor(distance, items, query), ids, itemIndex);
      var newSize := heap.Push(Neighbor(d, items[itemIndex]));
      HeldSize(query, ids + [itemIndex]);
    }

    method PopFarthest(query: T, ghost ids: seq<nat>) returns (ghost far: nat)
      requires heap.comparator == ByFarthest && |items| > 0 && Holds(query, ids) && ids != []
      requires forall x :: x in ids ==> x < |items|
      modifies heap, heap.items
      ensures heap.items == old(heap.items)
      ensures FarthestAt(ToQuery(distance, items, query), ids, far)
      ensures Holds(query, Without(ids, far))
    {
      ghost var f := AsNeighbor(distance, items, query);
      HeldSize(query, ids);
      var popped := heap.Pop();
      far := Farthest(query, ids, popped.value);
      MapWithout(f, ids, far);
      WithoutOne(Map(f, ids), far);
    }

    /** Adjusts tau, which stays as it is until there are k items. */
    method Tau(k: nat, query: T, tau: Reach, ghost ids: seq<nat>) returns (tau': Reach)
      requires k >= 1 && heap.comparator == ByFarthest && |items| > 0 && Holds(query, ids)
      requires forall x :: x in ids ==> x < |items|
      requires |ids| < k ==> tau.Unbounded?
      ensures ReachOf(ToQuery(distance, items, query), ids, k, tau')
    {
      tau' := tau;
      HeldSize(query, ids);
      if heap.size >= k {
        var top := heap.Peek();
        ghost var far := Farthest(query, ids, top.value);
        tau' := Within(top.value.distance);
      }
    }

    lemma HeldSize(query: T, ids: seq<nat>)
      requires |items| > 0 && Holds(query, ids)
      ensures heap.size == |ids|
    {
      assert |multiset(Map(AsNeighbor(distance, items, query), ids))| == |ids|;
      assert |heap.Contents()| == heap.size;
    }

    /** The neighbor the heap serves first is the farthest of those listed. */
    lemma Farthest(query: T, ids: seq<nat>, first: Neighbor<T>) returns (far: nat)
      requires |items| > 0 && forall x :: x in ids ==> x < |items|
      requires LeastOf(ByFarthest, first, multiset(Map(AsNeighbor(distance, items, query), ids)))
      ensures far < |ids| && AsNeighbor(distance, items, query)(ids[far]) == first
      ensures FarthestAt(ToQuery(distance, items, query), ids, far)
      ensures ToQuery(distance, items, query)(ids[far]) == first.distance
    {
      var f := AsNeighbor(distance, items, query);
      far := Member(Map(f, ids), first);
      assert ids[far] in ids;
      forall x | x in ids
        ensures ToQuery(distance, items, query)(x) <= first.distance
      {
        var j :| 0 <= j < |ids| && ids[j] == x;
        assert Map(f, ids)[j] in multiset(Map(f, ids));
      }
    }

    /** Midway through a k-nearest query. */
    ghost predicate Ranking(k: nat, query: T, stack: seq<nat>, tau: Reach, ids: seq<nat>, done: set<nat>)
      requires |items| > 0
      reads heap, heap.items
    {
      && Covered(content, stack, done, size) && done <= All(size)
      && Nearest(ToQuery(distance, items, query), ids, done, k, tau)
      && (forall x :: x in ids ==> x < |items|)
      && Holds(query, ids)
    }

    /** The k nearest items, or all of them when there are fewer, nearest first. */
    method NearestNeighbors(k: nat, query: T) returns (array': seq<Neighbor<T>>, ghost ids: seq<nat>)
      requires Valid() && k >= 1
      modifies this`D, heap, heap.items
      ensures Valid()
      ensures |array'| == |ids| == (if k <= |items| then k else |items|)
      ensures forall i, j :: 0 <= i < j < |ids| ==> ids[i] != ids[j] && array'[i].distance <= array'[j].distance
      ensures forall j :: 0 <= j < |ids| ==> ids[j] < |items| && array'[j].item == items[ids[j]]
                                             && array'[j].distance == distance(items[ids[j]], query)
      ensures forall i, j :: 0 <= i < |items| && i !in ids && 0 <= j < |ids| ==> array'[j].distance <= distance(items[i], query)
      ensures SortedBy(ByNearest, array')
      ensures BestOf(ByNearest, multiset(array'), multiset(Map(AsNeighbor(distance, items, query), Upto(size))), k)
      ensures D <= size
    {
      hide Nearest, VantageTree, Metric, Map, SortedBy, BestOf, TotalPreorder, HeapFrom, AsNeighbor, ToQuery;
      ghost var tau;
      tau, ids := Rank(k, query);
      NearestOfAll(distance, items, query, ids, k, tau);
      array' := DrainHeap();
      ids := NearestListed(distance, items, query, ids, k, tau, array');
    }

    /** Walks the tree until the heap holds the k nearest items. */
    method Rank(k: nat, query: T) returns (tau: Reach, ghost ids: seq<nat>)
      requires Valid() && k >= 1
      modifies this`D, heap, heap.items
      ensures Built() && heap.items == old(heap.items) && Holds(query, ids) && D <= size
      ensures Nearest(ToQuery(distance, items, query), ids, All(size), k, tau)
    {
      ghost var done: set<nat> := {};
      ids := [];
      var stack: seq<nat> := [0];
      tau := Unbounded;
      D := 0;
      StartCovered(content, size);
      while |stack| > 0
        invariant Built() && heap.items == old(heap.items)
        invariant Ranking(k, query, stack, tau, ids, done)
        invariant D <= |done|
        decreases All(size) - done
      {
        hide Ranking;
        stack, tau, ids, done := NearestAt(k, query, stack, tau, ids, done);
      }
      AllSize(size);
    }

    method NearestAt(k: nat, query: T, stack: seq<nat>, tau: Reach, ghost ids: seq<nat>, ghost done: set<nat>)
      returns (stack': seq<nat>, tau': Reach, ghost ids': seq<nat>, ghost done': set<nat>)
      requires Built() && |stack| > 0 && k >= 1
      requires Ranking(k, query, stack, tau, ids, done)
      modifies this`D, heap, heap.items
      ensures Built() && heap.items == old(heap.items)
      ensures Ranking(k, query, stack', tau', ids', done')
      ensures done < done' <= All(size) && |done| < |done'|
      ensures D == old(D) + 1
    {
      hide VantageTree, Metric, Covered, Nearest, Rest, Visits, Map, HeapFrom, TotalPreorder, AsNeighbor;
      ghost var tree, measure := Snapshot(nodes, lefts, rights, mus), ByIndex(distance, items);
      var nodeIndex := stack[|stack| - 1];
      stack' := stack[..|stack| - 1];
      assert stack == stack' + [nodeIndex];
      TopInTree(measure, tree, content, stack', nodeIndex, done, size);
      var itemIndex := nodes[nodeIndex];
      var vantagePoint := items[itemIndex];
      var d := distance(vantagePoint, query);
      D := D + 1;
      tau', ids' := Keep(k, itemIndex, d, query, tau, ids, done);
      var kids := ChildrenToVisit(nodeIndex, query, d, tau');
      done' := NearestTurn(measure, tree, content, stack', nodeIndex, kids, done, size,
                           ToQuery(distance, items, query), ids', k, tau');
      stack' := stack' + kids;
    }

    /** Empties the heap, which serves the farthest first, into an array from its end. */
    method DrainHeap() returns (array': seq<Neighbor<T>>)
      requires Built()
      modifies heap, heap.items
      ensures Built() && heap.items == old(heap.items) && heap.size == 0
      ensures SortedBy(ByNearest, array') && multiset(array') == old(heap.Contents())
    {
      ghost var all := heap.Contents();
      array' := [];
      while heap.size > 0
        invariant Built() && heap.items == old(heap.items)
        invariant Consuming(ByNearest, heap.Contents(), array', all)
        decreases heap.size
      {
        array' := DrainOne(array', all);
      }
      assert heap.items.items == [];
    }

    /** The farthest neighbor left goes in front of those drained before. */
    method DrainOne(drained: seq<Neighbor<T>>, ghost all: multiset<Neighbor<T>>) returns (array': seq<Neighbor<T>>)
      requires Built() && heap.size > 0 && Consuming(ByNearest, heap.Contents(), drained, all)
      modifies heap, heap.items
      ensures Built() && heap.items == old(heap.items) && heap.size < old(heap.size)
      ensures Consuming(ByNearest, heap.Contents(), array', all)
    {
      ghost var left := heap.Contents();
      hide VantageTree, Metric, HeapFrom, Consuming, TotalPreorder;
      var popped := heap.Pop();
      ConsumeWorst(ByNearest, left, drained, all, popped.value);
      array' := [popped.value] + drained;
    }
  }

}
