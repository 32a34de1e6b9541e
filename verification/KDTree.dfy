/** The k-d tree: build loop over an explicit stack, nearest and k-nearest queries that prune. */
module KDTrees {
  import opened Permutations
  import opened QuickSort
  import opened IndexSets
  import opened KDTreeModel
  import opened KDTreeSearch
  import opened Comparators
  import opened RawHeaps
  import opened FixedReverseHeaps

  ghost function Snapshot(pivots: array<nat>, lefts: array<nat>, rights: array<nat>): Flat
    reads pivots, lefts, rights
  {
    Flat(pivots[..], lefts[..], rights[..])
  }

  /** The axes hold these coordinates. */
  ghost predicate Coordinates(axes: seq<array<real>>, points: seq<seq<real>>, n: nat)
    reads set d | 0 <= d < |axes| :: axes[d]
  {
    |axes| == |points| && forall d :: 0 <= d < |axes| ==> axes[d].Length == n && axes[d][..] == points[d]
  }

  ghost predicate Separate(ids: array<nat>, pivots: array<nat>, lefts: array<nat>, rights: array<nat>,
                           LOS: array<int>, HIS: array<int>) {
    && ids != pivots && ids != lefts && ids != rights && pivots != lefts && pivots != rights && lefts != rights
    && LOS != HIS && LOS.Length == HIS.Length == STACK_SIZE
    && ids as object != LOS && pivots as object != LOS && lefts as object != LOS && rights as object != LOS
    && ids as object != HIS && pivots as object != HIS && lefts as object != HIS && rights as object != HIS
  }

  /** Writes node i and the link to it. */
  method PlaceNode(pivots: array<nat>, lefts: array<nat>, rights: array<nat>, s: Step, i: nat, pivot: nat)
    requires pivots != lefts && pivots != rights && lefts != rights
    requires i < pivots.Length == lefts.Length == rights.Length && s.parent < pivots.Length
    modifies pivots, lefts, rights
    ensures Snapshot(pivots, lefts, rights) == Linking(old(Snapshot(pivots, lefts, rights)), s, i, pivot)
  {
    pivots[i] := pivot;
    if s.parent > -1 {
      if s.direction == 0 {
        lefts[s.parent] := i + 1;
      } else {
        rights[s.parent] := i + 1;
      }
    }
  }

  /** What sorting a stretch of ids on an axis establishes. */
  lemma SortedAscends(axis: seq<real>, ids: seq<nat>, lo: nat, hi: nat)
    requires hi <= |ids| && forall x :: lo <= x < hi ==> ids[x] < |axis|
    requires Sorted(Map(ValueAt(axis), ids), lo, hi)
    ensures AscendsOn(axis, ids, lo, hi)
  {
    forall x, y | lo <= x < y < hi
      ensures axis[ids[x]] <= axis[ids[y]]
    {
      var keys := Map(ValueAt(axis), ids);
      assert keys[x] <= keys[y];
    }
  }

  /** Builds the node of one step and leaves its sides on the stack. */
  method BuildNode(dimensions: nat, axes: seq<array<real>>, ghost points: seq<seq<real>>, ids: array<nat>,
                   pivots: array<nat>, lefts: array<nat>, rights: array<nat>, LOS: array<int>, HIS: array<int>,
                   rest: seq<Step>, step: Step, i: nat, ghost g: Shape)
    returns (stack: seq<Step>, ghost g': Shape)
    requires Separate(ids, pivots, lefts, rights, LOS, HIS)
    requires dimensions == |axes| > 0 && Coordinates(axes, points, ids.Length) && ids.Length < Pow2(STACK_SIZE)
    requires Building(points, Snapshot(pivots, lefts, rights), g, ids[..], rest + [step], ids.Length)
    requires i == |g.content| && i + Load(rest + [step]) == ids.Length
    modifies ids, pivots, lefts, rights, LOS, HIS
    ensures Building(points, Snapshot(pivots, lefts, rights), g', ids[..], stack, ids.Length)
    ensures i + 1 == |g'.content| && Load(stack) == Load(rest + [step]) - 1
  {
    hide Building, Rearranged, Load, Pow2, Sorted, AscendsOn;
    ghost var n, t, was := ids.Length, Snapshot(pivots, lefts, rights), ids[..];
    TopStep(points, t, g, was, rest, step, n);
    var d, lo, hi := step.d, step.lo, step.hi;
    InplaceQuickSortIndices(axes[d], ids, LOS, HIS, lo, hi);
    ghost var sorted := ids[..];
    SortTop(points, t, g, was, sorted, rest, step, n);
    TopStep(points, t, g, sorted, rest, step, n);
    SortedAscends(points[d], sorted, lo, hi);
    var l := hi - lo;
    var median := lo + l / 2;
    var pivot := ids[median];
    Turn(points, t, g, sorted, rest, step, median, n);
    LoadSides(rest, step, median, i, dimensions);
    g' := Grown(g, sorted, step, median);
    PlaceNode(pivots, lefts, rights, step, i, pivot);
    assert ids[..] == sorted;
    d := NextAxis(d, dimensions);
    stack := rest;
    // Right
    if median != lo && median != hi - 1 {
      stack := stack + [Step(d, median + 1, hi, i, 1)];
    }
    // Left
    if median != lo {
      stack := stack + [Step(d, lo, median, i, 0)];
    }
    assert stack == Sides(rest, step, median, i, dimensions);
  }

  /** Builds the flat tree of a non-empty set of points. */
  method BuildTree(dimensions: nat, axes: seq<array<real>>, ghost points: seq<seq<real>>, ids: array<nat>)
    returns (pivots: array<nat>, lefts: array<nat>, rights: array<nat>, ghost g: Shape)
    requires dimensions == |axes| > 0 && Coordinates(axes, points, ids.Length)
    requires 0 < ids.Length < Pow2(STACK_SIZE) && Permutation(ids[..], ids.Length)
    modifies ids
    ensures fresh(pivots) && fresh(lefts) && fresh(rights)
    ensures KdTree(points, Snapshot(pivots, lefts, rights), g, ids.Length)
  {
    hide KdTree, Permutation, Pow2, Building;
    var l := ids.Length;
    pivots, lefts, rights := new nat[l](_ => 0), new nat[l](_ => 0), new nat[l](_ => 0);
    var LOS, HIS := new int[STACK_SIZE], new int[STACK_SIZE];
    StartBuilding(points, Snapshot(pivots, lefts, rights), ids[..], l);
    g := BuildAll(dimensions, axes, points, ids, pivots, lefts, rights, LOS, HIS);
  }

  lemma LoadOfAll(n: nat)
    ensures Load([]) == 0 && Load([Step(0, 0, n, -1, 0)]) == n
  {
  }

  method BuildAll(dimensions: nat, axes: seq<array<real>>, ghost points: seq<seq<real>>, ids: array<nat>,
                  pivots: array<nat>, lefts: array<nat>, rights: array<nat>, LOS: array<int>, HIS: array<int>)
    returns (ghost g: Shape)
    requires Separate(ids, pivots, lefts, rights, LOS, HIS)
    requires dimensions == |axes| > 0 && Coordinates(axes, points, ids.Length) && 0 < ids.Length < Pow2(STACK_SIZE)
    requires Building(points, Snapshot(pivots, lefts, rights), Shape([], [], [], []), ids[..], [Step(0, 0, ids.Length, -1, 0)], ids.Length)
    modifies ids, pivots, lefts, rights, LOS, HIS
    ensures KdTree(points, Snapshot(pivots, lefts, rights), g, ids.Length)
  {
    hide *;
    var l := ids.Length;
    var stack := [Step(0, 0, l, -1, 0)];
    LoadOfAll(l);
    var i := 0;
    g := Shape([], [], [], []);
    while |stack| != 0
      invariant Building(points, Snapshot(pivots, lefts, rights), g, ids[..], stack, l)
      invariant i == |g.content| && i + Load(stack) == l && Coordinates(axes, points, l)
      decreases Load(stack)
    {
      var step := stack[|stack| - 1];
      ghost var popped := stack;
      stack := stack[..|stack| - 1];
      assert popped == stack + [step];
      TopStep(points, Snapshot(pivots, lefts, rights), g, ids[..], stack, step, l);
      stack, g := BuildNode(dimensions, axes, points, ids, pivots, lefts, rights, LOS, HIS, stack, step, i, g);
      i := i + 1;
    }
    EndBuilding(points, Snapshot(pivots, lefts, rights), g, ids[..], l);
  }

  // ----- Queries -----

  /** What a search that feeds `heap` has established once the points of `done` are dealt with. */
  ghost predicate Searched<E(!new)>(keys: Keys<E>, q: nat -> real, heap: FixedReverseHeap<E>, s: Search<E>, done: set<nat>)
    reads heap, heap.items
  {
    && heap.Valid() && heap.capacity > 0 && heap.compare == keys.compare
    && DistanceFirst(keys.compare, keys.dist)
    && heap.pushed == multiset(s.tuples)
    && Selected(keys.dist, keys.pivot, q, heap.Contents(), s, done, heap.capacity)
  }

  /** How tuples are ordered and what they carry. */
  datatype Keys<!E> = Keys(compare: (E, E) -> int, dist: E -> real, pivot: E -> nat)

  lemma StartSearch<E(!new)>(keys: Keys<E>, q: nat -> real, heap: FixedReverseHeap<E>)
    requires heap.Valid() && heap.capacity > 0 && heap.compare == keys.compare && heap.pushed == multiset{}
    requires DistanceFirst(keys.compare, keys.dist)
    ensures Searched(keys, q, heap, Search([], [], {}), {})
  {
    NothingSelected(keys.dist, keys.pivot, q, heap.Contents(), heap.capacity);
  }

  /** Pushes the tuple of one point. */
  method PushTuple<E(!new)>(ghost keys: Keys<E>, ghost q: nat -> real, heap: FixedReverseHeap<E>, e: E, ghost s0: Search<E>, ghost done: set<nat>)
    returns (ghost s: Search<E>)
    requires Searched(keys, q, heap, s0, done)
    requires keys.dist(e) == q(keys.pivot(e)) && keys.pivot(e) !in done
    modifies heap, heap.items
    ensures Searched(keys, q, heap, s, done + {keys.pivot(e)}) && heap.size > 0
  {
    hide Selected, BestOf, HeapFrom, DistanceFirst;
    ghost var kept := heap.Contents();
    var size := heap.Push(e);
    s := Pushed(s0, e, keys.pivot(e));
    SelectOne(keys.compare, keys.dist, keys.pivot, q, kept, heap.Contents(), s0, done, heap.capacity, e, keys.pivot(e));
  }

  /** Empties the heap of a finished search: its tuples carry the nearest points, nearest first. */
  method ConsumeTuples<E(!new)>(ghost keys: Keys<E>, ghost q: nat -> real, heap: FixedReverseHeap<E>, ghost s: Search<E>, ghost n: nat)
    returns (best: seq<E>)
    requires Searched(keys, q, heap, s, All(n)) && heap.capacity <= n
    modifies heap, heap.items
    ensures KNearest(q, Map(keys.pivot, best), n, heap.capacity)
  {
    hide Selected, HeapFrom, DistanceFirst, KNearest;
    best := heap.Consume();
    SelectedAll(keys.compare, keys.dist, keys.pivot, q, s, best, n, heap.capacity);
  }

  ghost function VisitKeys(): Keys<Visit> {
    Keys(CompareVisits, VisitDistance(), VisitPivot())
  }

  ghost function EntryKeys(pivots: seq<nat>): Keys<Entry> {
    Keys(CompareEntries, EntryDistance(), EntryPivot(pivots))
  }

  class KDTree<L> {
    const dimensions: nat
    const axes: seq<array<real>>
    const labels: seq<L>
    const size: nat
    const pivots: array<nat>
    const lefts: array<nat>
    const rights: array<nat>
    var visited: nat
    ghost const points: seq<seq<real>>
    ghost const shape: Shape

    ghost predicate Valid()
      reads pivots, lefts, rights, set d | 0 <= d < |axes| :: axes[d]
    {
      && dimensions == |axes| == |points| > 0 && size == |labels| > 0
      && Coordinates(axes, points, size) && Grid(points, size)
      && pivots.Length == lefts.Length == rights.Length == size
      && KdTree(points, Snapshot(pivots, lefts, rights), shape, size)
    }

    constructor (axes: seq<array<real>>, labels: seq<L>)
      requires |axes| > 0 && 0 < |labels| < Pow2(STACK_SIZE)
      requires forall d :: 0 <= d < |axes| ==> axes[d].Length == |labels|
      ensures Valid() && this.axes == axes && this.labels == labels
    {
      hide Permutation, Pow2;
      dimensions := |axes|;
      this.axes := axes;
      this.labels := labels;
      size := |labels|;
      visited := 0;
      ghost var coordinates := Values(axes, |labels|);
      points := coordinates;
      var ids := new nat[|labels|](i => i);
      StartingIndices(ids[..], |labels|);
      var ps, ls, rs;
      ghost var g;
      ps, ls, rs, g := BuildTree(|axes|, axes, coordinates, ids);
      pivots, lefts, rights, shape := ps, ls, rs, g;
    }

    ghost function DistanceTo(query: seq<real>): nat -> real
      requires |points| > 0 && |points| <= |query| && Grid(points, size)
    {
      Distances(points, size, query)
    }

    /** The coordinates of an indexed point. */
    ghost function Point(p: nat): (x: seq<real>)
      reads pivots, lefts, rights, set d | 0 <= d < |axes| :: axes[d]
      requires Valid() && p < size
      ensures |x| == |axes| && forall d :: 0 <= d < |axes| ==> p < axes[d].Length && x[d] == axes[d][p]
    {
      PointAt(points, p)
    }

    /** What obeys the law of squared distances is the distance to the query. */
    lemma ObeyLaw(query: seq<real>)
      requires Valid() && |query| >= dimensions
      ensures forall m, p :: MeasuresSquares(m, query[..dimensions]) && 0 <= p < size ==> m(Point(p)) == DistanceTo(query)(p)
    {
      hide MeasuresSquares, Distances, KdTree;
      forall m, p | MeasuresSquares(m, query[..dimensions]) && 0 <= p < size
        ensures m(Point(p)) == DistanceTo(query)(p)
      {
        LawGivesDistance(m, points, size, p, query);
      }
    }

    /** Squared distance of an indexed point, accumulated axis by axis. */
    method SquaredDistanceAxes(pivot: nat, b: seq<real>) returns (dist: real)
      requires Valid() && pivot < size && |b| >= dimensions
      ensures dist == DistanceTo(b)(pivot)
      ensures forall m :: MeasuresSquares(m, b[..dimensions]) ==> dist == m(Point(pivot))
    {
      hide MeasuresSquares, KdTree, Point;
      dist := 0.0;
      var d := 0;
      while d < dimensions
        invariant 0 <= d <= dimensions
        invariant dist == SquaredDistance(points, d, pivot, b)
      {
        assert axes[d][..][pivot] == points[d][pivot];
        var step := axes[d][pivot] - b[d];
        dist := dist + step * step;
        d := d + 1;
      }
      ObeyLaw(b);
    }

    /** Signed gap between a point and the query on one axis. */
    method Gap(d: nat, pivot: nat, query: seq<real>) returns (dx: real)
      requires Valid() && d < dimensions <= |query| && pivot < size
      ensures |points| == dimensions && |points[d]| == size && dx == points[d][pivot] - query[d]
    {
      assert axes[d][..][pivot] == points[d][pivot];
      dx := axes[d][pivot] - query[d];
    }

    /** Searches the subtree of a node that splits axis d for a point nearer than the best. */
    method Recurse(d: nat, node: nat, query: seq<real>, best0: Best) returns (best: Best)
      requires Valid() && |query| >= dimensions && node < size
      requires node < |shape.dims| && node < |shape.content| && d == shape.dims[node] < dimensions
      modifies this`visited
      ensures Improves(DistanceTo(query), best0, best, shape.content[node])
      ensures old(visited) < visited <= old(visited) + |shape.content[node]|
      decreases size - node, 1
    {
      hide Improves, KdTree, Coordinates, Grid, Distances, Square, NextAxis, OnSide;
      visited := visited + 1;
      var left, right, pivot, dist, dx := Examine(d, node, query);
      ghost var q, L, R := DistanceTo(query), shape.lefts[node], shape.rights[node];
      best := best0;
      ImprovesByOne(q, best, pivot);
      if best.BeatenBy(dist) {
        best := Best(pivot, dist);
        if dist == 0.0 {
          ZeroIsBest(points, size, query, best, L + R);
          ImprovesTogether(q, best0, best, best, {pivot}, L + R);
          return;
        }
      }
      ghost var best1 := best;
      var d' := NextAxis(d, dimensions);
      if dx > 0.0 {
        best := RecurseSides(d', Square(dx), left, right, query, best, node, L, R);
      } else {
        best := RecurseSides(d', Square(dx), right, left, query, best, node, R, L);
        assert R + L == L + R;
      }
      ImprovesTogether(q, best0, best1, best, {pivot}, L + R);
    }

    /** The points of `side` are those below child link `child` of node v. */
    ghost predicate OnSide(v: nat, child: nat, d: nat, side: set<nat>) {
      if child == 0 then side == {}
      else v < child - 1 < size && child - 1 < |shape.content| && child - 1 < |shape.dims|
           && d == shape.dims[child - 1] < dimensions && side == shape.content[child - 1]
    }

    /** Reads the links and the pivot of a node. */
    method ReadNode(node: nat) returns (left: nat, right: nat, pivot: nat)
      requires Valid() && node < size
      ensures pivot < size && node < |shape.dims|
      ensures node < |shape.lefts| && node < |shape.rights| && node < |shape.content|
      ensures shape.content[node] == {pivot} + (shape.lefts[node] + shape.rights[node])
      ensures |shape.content[node]| == 1 + |shape.lefts[node]| + |shape.rights[node]|
      ensures pivot !in shape.lefts[node] + shape.rights[node] && shape.lefts[node] !! shape.rights[node]
      ensures OnSide(node, left, NextAxis(shape.dims[node], dimensions), shape.lefts[node])
      ensures OnSide(node, right, NextAxis(shape.dims[node], dimensions), shape.rights[node])
      ensures pivot == Snapshot(pivots, lefts, rights).pivots[node]
    {
      hide KdTree, NextAxis;
      NodeContent(points, Snapshot(pivots, lefts, rights), shape, node, size);
      left, right, pivot := lefts[node], rights[node], pivots[node];
    }

    /** Reads a node that splits axis d: its links and pivot, how far the pivot is, and the gap
        between the query and the split, which the points on the far side cannot undercut. */
    method Examine(d: nat, node: nat, query: seq<real>)
      returns (left: nat, right: nat, pivot: nat, dist: real, dx: real)
      requires Valid() && |query| >= dimensions && node < size
      requires node < |shape.dims| && d == shape.dims[node] < dimensions
      ensures pivot < size && dist == DistanceTo(query)(pivot)
      ensures node < |shape.lefts| && node < |shape.rights| && node < |shape.content|
      ensures shape.content[node] == {pivot} + (shape.lefts[node] + shape.rights[node])
      ensures |shape.content[node]| == 1 + |shape.lefts[node]| + |shape.rights[node]|
      ensures pivot !in shape.lefts[node] + shape.rights[node] && shape.lefts[node] !! shape.rights[node]
      ensures OnSide(node, left, NextAxis(d, dimensions), shape.lefts[node])
      ensures OnSide(node, right, NextAxis(d, dimensions), shape.rights[node])
      ensures dx > 0.0 ==> forall x :: x in shape.rights[node] ==> DistanceTo(query)(x) >= Square(dx)
      ensures dx <= 0.0 ==> forall x :: x in shape.lefts[node] ==> DistanceTo(query)(x) >= Square(dx)
    {
      hide KdTree, Distances, Square, NextAxis, OnSide;
      left, right, pivot := ReadNode(node);
      FarSide(points, Snapshot(pivots, lefts, rights), shape, node, size, query);
      dist := SquaredDistanceAxes(pivot, query);
      dx := Gap(d, pivot, query);
    }

    /** Searches the side the query is on, then the other one unless the gap to it rules it out. */
    method RecurseSides(d: nat, gap: real, near: nat, far: nat, query: seq<real>, best0: Best,
                        ghost v: nat, ghost one: set<nat>, ghost other: set<nat>) returns (best: Best)
      requires Valid() && |query| >= dimensions
      requires v < size && OnSide(v, near, d, one) && OnSide(v, far, d, other)
      requires forall x :: x in other ==> DistanceTo(query)(x) >= gap
      modifies this`visited
      ensures Improves(DistanceTo(query), best0, best, one + other)
      ensures old(visited) <= visited <= old(visited) + |one| + |other|
      decreases size - v, 0
    {
      hide Improves, KdTree, Coordinates, Grid;
      // Going the correct way?
      best := RecurseSide(d, near, query, best0, v, one);
      ghost var best1 := best;
      // Going the other way?
      if best.BeatenBy(gap) {
        best := RecurseSide(d, far, query, best, v, other);
      } else {
        ImprovesByNone(DistanceTo(query), best, other);
      }
      ImprovesTogether(DistanceTo(query), best0, best1, best, one, other);
    }

    /** Searches one side of a node, if there is anything on it. */
    method RecurseSide(d: nat, child: nat, query: seq<real>, best0: Best, ghost v: nat, ghost side: set<nat>) returns (best: Best)
      requires Valid() && |query| >= dimensions && v < size && OnSide(v, child, d, side)
      modifies this`visited
      ensures Improves(DistanceTo(query), best0, best, side)
      ensures old(visited) <= visited <= old(visited) + |side|
      decreases size - v - 1, 2
    {
      best := best0;
      if child != 0 {
        best := Recurse(d, child - 1, query, best);
      }
    }

    /** A point nearest to the query. */
    method NearestNeighbor(query: seq<real>) returns (nearest: L, ghost best: nat)
      requires Valid() && |query| >= dimensions
      modifies this`visited
      ensures KNearest(DistanceTo(query), [best], size, 1)
      ensures best < size && nearest == labels[best]
      ensures forall m, p :: MeasuresSquares(m, query[..dimensions]) && 0 <= p < size ==> m(Point(best)) <= m(Point(p))
      ensures 1 <= visited <= size
    {
      hide KdTree;
      RootFacts(points, Snapshot(pivots, lefts, rights), shape, size);
      visited := 0;
      var found := Recurse(0, 0, query, Nothing);
      AllSize(size);
      assert 0 in All(size);
      nearest, best := labels[found.pivot], found.pivot;
      hide *;
      NearestByLaw(query, [best], 1);
      forall m, p | MeasuresSquares(m, query[..dimensions]) && 0 <= p < size
        ensures m(Point(best)) <= m(Point(p))
      {
        if p != best {
          assert p !in [best] && [best][0] == best;
        }
      }
    }

    /** A choice of nearest points is one by every measure that obeys the law of squared distances. */
    lemma NearestByLaw(query: seq<real>, chosen: seq<nat>, k: nat)
      requires Valid() && |query| >= dimensions && KNearest(DistanceTo(query), chosen, size, k)
      ensures |chosen| == k && (forall i, j :: 0 <= i < j < k ==> chosen[i] != chosen[j])
      ensures forall j :: 0 <= j < k ==> chosen[j] < size
      ensures forall m, i, j :: MeasuresSquares(m, query[..dimensions]) && 0 <= i < j < k ==>
                m(Point(chosen[i])) <= m(Point(chosen[j]))
      ensures forall m, p, j :: MeasuresSquares(m, query[..dimensions]) && 0 <= p < size && p !in chosen && 0 <= j < k ==>
                m(Point(chosen[j])) <= m(Point(p))
    {
      hide MeasuresSquares, Distances, KdTree, Point;
      ObeyLaw(query);
    }

    /** Searches the subtree of a node that splits axis d for the nearest points. */
    method RecurseAll(d: nat, node: nat, query: seq<real>, heap: FixedReverseHeap<Visit>, ghost s0: Search<Visit>, ghost done: set<nat>)
      returns (ghost s: Search<Visit>)
      requires Valid() && |query| >= dimensions && node < size
      requires node < |shape.dims| && node < |shape.content| && d == shape.dims[node] < dimensions
      requires Searched(VisitKeys(), DistanceTo(query), heap, s0, done) && done !! shape.content[node]
      modifies this`visited, heap, heap.items
      ensures Searched(VisitKeys(), DistanceTo(query), heap, s, done + shape.content[node]) && heap.size > 0
      ensures old(visited) < visited <= old(visited) + |shape.content[node]|
      decreases size - node, 1
    {
      hide Searched, KdTree, Coordinates, Grid, Distances, Square, NextAxis, OnSide;
      var left, right, pivot, dist, dx := Examine(d, node, query);
      ghost var L, R := shape.lefts[node], shape.rights[node];
      s := PushVisit(query, heap, dist, pivot, s0, done);
      assert shape.content[node] == {pivot} + (L + R);
      DealtWith(done, pivot, L, R);
      hide Valid;
      s := RecurseChildren(NextAxis(d, dimensions), dx, left, right, query, heap, s, done + {pivot}, node, L, R);
    }

    method PushVisit(query: seq<real>, heap: FixedReverseHeap<Visit>, dist: real, pivot: nat, ghost s0: Search<Visit>, ghost done: set<nat>)
      returns (ghost s: Search<Visit>)
      requires Valid() && |query| >= dimensions
      requires Searched(VisitKeys(), DistanceTo(query), heap, s0, done) && dist == DistanceTo(query)(pivot) && pivot !in done
      modifies this`visited, heap, heap.items
      ensures Valid() && visited == old(visited) + 1
      ensures Searched(VisitKeys(), DistanceTo(query), heap, s, done + {pivot}) && heap.size > 0
    {
      hide Searched, KdTree, Coordinates, Grid, Distances;
      s := PushTuple(VisitKeys(), DistanceTo(query), heap, Visit(dist, visited, pivot), s0, done);
      visited := visited + 1;
    }

    /** The split is past the query exactly when dx is positive. */
    method RecurseChildren(d: nat, dx: real, left: nat, right: nat, query: seq<real>, heap: FixedReverseHeap<Visit>,
                           ghost s0: Search<Visit>, ghost done: set<nat>, ghost v: nat, ghost L: set<nat>, ghost R: set<nat>)
      returns (ghost s: Search<Visit>)
      requires Valid() && |query| >= dimensions
      requires v < size && OnSide(v, left, d, L) && OnSide(v, right, d, R)
      requires dx > 0.0 ==> forall x :: x in R ==> DistanceTo(query)(x) >= Square(dx)
      requires dx <= 0.0 ==> forall x :: x in L ==> DistanceTo(query)(x) >= Square(dx)
      requires Searched(VisitKeys(), DistanceTo(query), heap, s0, done) && heap.size > 0
      requires done !! L && done !! R && L !! R
      modifies this`visited, heap, heap.items
      ensures Searched(VisitKeys(), DistanceTo(query), heap, s, done + L + R) && heap.size > 0
      ensures old(visited) <= visited <= old(visited) + |L| + |R|
      decreases size - v, 0, 1
    {
      hide Searched, KdTree, Coordinates, Grid, Distances, Square, OnSide;
      if dx > 0.0 {
        s := RecurseBoth(d, Square(dx), left, right, query, heap, s0, done, v, L, R);
      } else {
        s := RecurseBoth(d, Square(dx), right, left, query, heap, s0, done, v, R, L);
        assert done + R + L == done + L + R;
      }
    }

    /** Searches the side the query is on, then the other one unless k nearer points are known. */
    method RecurseBoth(d: nat, gap: real, near: nat, far: nat, query: seq<real>, heap: FixedReverseHeap<Visit>,
                       ghost s0: Search<Visit>, ghost done: set<nat>, ghost v: nat, ghost one: set<nat>, ghost other: set<nat>)
      returns (ghost s: Search<Visit>)
      requires Valid() && |query| >= dimensions
      requires v < size && OnSide(v, near, d, one) && OnSide(v, far, d, other)
      requires forall x :: x in other ==> DistanceTo(query)(x) >= gap
      requires Searched(VisitKeys(), DistanceTo(query), heap, s0, done) && heap.size > 0
      requires done !! one && done !! other && one !! other
      modifies this`visited, heap, heap.items
      ensures Searched(VisitKeys(), DistanceTo(query), heap, s, done + one + other) && heap.size > 0
      ensures old(visited) <= visited <= old(visited) + |one| + |other|
      decreases size - v, 0, 0
    {
      hide Searched, KdTree, Coordinates, Grid, OnSide;
      // Going the correct way?
      s := RecurseAllSide(d, near, query, heap, s0, done, v, one);
      // Going the other way?
      var skip := FarIsTooFar(query, heap, gap, s, done + one, other);
      if !skip {
        s := RecurseAllSide(d, far, query, heap, s, done + one, v, other);
      } else {
        s := s.(out := s.out + other);
      }
    }

    /** Whether the far side can be left out: k points are kept, none farther than the gap. */
    method FarIsTooFar(query: seq<real>, heap: FixedReverseHeap<Visit>, gap: real, ghost s: Search<Visit>,
                       ghost done: set<nat>, ghost other: set<nat>) returns (skip: bool)
      requires |points| > 0 && |points| <= |query| && Grid(points, size)
      requires Searched(VisitKeys(), DistanceTo(query), heap, s, done) && heap.size > 0
      requires forall x :: x in other ==> DistanceTo(query)(x) >= gap
      ensures skip ==> Searched(VisitKeys(), DistanceTo(query), heap, s.(out := s.out + other), done + other)
    {
      hide Selected, Distances, BestOf, HeapFrom, DistanceFirst;
      var top := heap.Peek();
      var worst := top.value;
      skip := !(gap < worst.dist || heap.size < heap.capacity);
      if skip {
        assert |heap.items.items[..heap.size]| == |heap.Contents()|;
        SelectSkip(CompareVisits, VisitDistance(), VisitPivot(), DistanceTo(query), heap.Contents(), s, done,
                   heap.capacity, worst, other);
      }
    }

    /** Searches one side of a node, if there is anything on it. */
    method RecurseAllSide(d: nat, child: nat, query: seq<real>, heap: FixedReverseHeap<Visit>,
                          ghost s0: Search<Visit>, ghost done: set<nat>, ghost v: nat, ghost side: set<nat>)
      returns (ghost s: Search<Visit>)
      requires Valid() && |query| >= dimensions && v < size && OnSide(v, child, d, side)
      requires Searched(VisitKeys(), DistanceTo(query), heap, s0, done) && heap.size > 0 && done !! side
      modifies this`visited, heap, heap.items
      ensures Searched(VisitKeys(), DistanceTo(query), heap, s, done + side) && heap.size > 0
      ensures old(visited) <= visited <= old(visited) + |side|
      decreases size - v - 1, 2
    {
      hide Searched, KdTree, Coordinates, Grid;
      s := s0;
      if child != 0 {
        s := RecurseAll(d, child - 1, query, heap, s, done);
      } else {
        assert done + side == done;
      }
    }

    /** The labels of these points. */
    ghost predicate Labelled(result: seq<L>, chosen: seq<nat>) {
      |result| == |chosen| && forall i :: 0 <= i < |chosen| ==> chosen[i] < |labels| && result[i] == labels[chosen[i]]
    }

    /** The labels of k nearest points, nearest first. */
    ghost predicate Answers(query: seq<real>, k: nat, result: seq<L>)
      requires |points| > 0 && |points| <= |query| && Grid(points, size)
    {
      exists chosen :: KNearest(DistanceTo(query), chosen, size, k) && Labelled(result, chosen)
    }

    /** The k points nearest to the query, nearest first. */
    method KNearestNeighbors(k0: nat, query: seq<real>) returns (result: seq<L>, ghost chosen: seq<nat>)
      requires Valid() && |query| >= dimensions && k0 >= 1
      modifies this`visited
      ensures KNearest(DistanceTo(query), chosen, size, Min(k0, size)) && Labelled(result, chosen)
      ensures Answers(query, Min(k0, size), result)
      ensures 1 <= visited <= size
      ensures |chosen| == (if k0 <= size then k0 else size) && forall i, j :: 0 <= i < j < |chosen| ==> chosen[i] != chosen[j]
      ensures |result| == |chosen| && forall j :: 0 <= j < |chosen| ==> chosen[j] < size == |labels| && result[j] == labels[chosen[j]]
      ensures forall m, i, j :: MeasuresSquares(m, query[..dimensions]) && 0 <= i < j < |chosen| ==>
                m(Point(chosen[i])) <= m(Point(chosen[j]))
      ensures forall m, p, j :: MeasuresSquares(m, query[..dimensions]) && 0 <= p < size && p !in chosen && 0 <= j < |chosen| ==>
                m(Point(chosen[j])) <= m(Point(p))
    {
      hide KdTree, Coordinates, Grid, KNearest, Searched, MeasuresSquares, Point, Distances;
      var k := Min(k0, size);
      if k == 1 {
        var nearest;
        ghost var best;
        nearest, best := NearestNeighbor(query);
        NearestByLaw(query, [best], 1);
        return [nearest], [best];
      }
      result, chosen := KNearestThroughHeap(k, query);
      NearestByLaw(query, chosen, k);
    }

    /** Searches the whole tree with a heap of k tuples. */
    method KNearestThroughHeap(k: nat, query: seq<real>) returns (result: seq<L>, ghost chosen: seq<nat>)
      requires Valid() && |query| >= dimensions && 1 <= k <= size
      modifies this`visited
      ensures KNearest(DistanceTo(query), chosen, size, k) && Labelled(result, chosen)
      ensures 1 <= visited <= size
    {
      hide KdTree, Coordinates, Grid, KNearest, Searched;
      var heap := new FixedReverseHeap<Visit>(CompareVisits, k, Visit(0.0, 0, 0));
      RootFacts(points, Snapshot(pivots, lefts, rights), shape, size);
      visited := 0;
      ghost var s: Search<Visit> := Search([], [], {});
      VisitsAreDistanceFirst();
      StartSearch(VisitKeys(), DistanceTo(query), heap);
      s := RecurseAll(0, 0, query, heap, s, {});
      assert {} + shape.content[0] == All(size);
      AllSize(size);
      var best := ConsumeTuples(VisitKeys(), DistanceTo(query), heap, s, size);
      chosen := Map(VisitPivot(), best);
      ChosenInRange(DistanceTo(query), chosen, size, k);
      result := VisitLabels(best, chosen);
    }

    /** Reads the labels of the tuples' points. */
    method VisitLabels(best: seq<Visit>, ghost chosen: seq<nat>) returns (result: seq<L>)
      requires size == |labels| && chosen == Map(VisitPivot(), best) && forall i :: 0 <= i < |chosen| ==> chosen[i] < size
      ensures Labelled(result, chosen)
    {
      result := [];
      var i := 0;
      while i < |best|
        invariant 0 <= i <= |best|
        invariant |result| == i && forall j :: 0 <= j < i ==> result[j] == labels[chosen[j]]
      {
        result := result + [labels[best[i].pivot]];
        i := i + 1;
      }
    }

    /** Reads the labels of the entries' points. */
    method EntryLabels(best: seq<Entry>, ghost chosen: seq<nat>) returns (result: seq<L>)
      requires size == |labels| && pivots.Length == size
      requires |chosen| == |best| && forall i :: 0 <= i < |chosen| ==> chosen[i] < size
      requires forall i :: 0 <= i < |chosen| ==> best[i].index < size && chosen[i] == pivots[best[i].index]
      ensures Labelled(result, chosen)
    {
      result := [];
      var i := 0;
      while i < |best|
        invariant 0 <= i <= |best|
        invariant |result| == i && forall j :: 0 <= j < i ==> result[j] == labels[chosen[j]]
      {
        result := result + [labels[pivots[best[i].index]]];
        i := i + 1;
      }
    }

    /** The k points nearest to the query, nearest first, by looking at every point. */
    method LinearKNearestNeighbors(k0: nat, query: seq<real>) returns (result: seq<L>, ghost chosen: seq<nat>)
      requires Valid() && |query| >= dimensions && k0 >= 1
      ensures KNearest(DistanceTo(query), chosen, size, Min(k0, size)) && Labelled(result, chosen)
      ensures Answers(query, Min(k0, size), result)
      ensures |chosen| == (if k0 <= size then k0 else size) && forall i, j :: 0 <= i < j < |chosen| ==> chosen[i] != chosen[j]
      ensures |result| == |chosen| && forall j :: 0 <= j < |chosen| ==> chosen[j] < size == |labels| && result[j] == labels[chosen[j]]
      ensures forall m, i, j :: MeasuresSquares(m, query[..dimensions]) && 0 <= i < j < |chosen| ==>
                m(Point(chosen[i])) <= m(Point(chosen[j]))
      ensures forall m, p, j :: MeasuresSquares(m, query[..dimensions]) && 0 <= p < size && p !in chosen && 0 <= j < |chosen| ==>
                m(Point(chosen[j])) <= m(Point(p))
    {
      result, chosen := LinearThroughHeap(Min(k0, size), query);
      hide KdTree, Coordinates, Grid, KNearest, Searched, MeasuresSquares, Point, Distances;
      NearestByLaw(query, chosen, Min(k0, size));
    }

    method LinearThroughHeap(k: nat, query: seq<real>) returns (result: seq<L>, ghost chosen: seq<nat>)
      requires Valid() && |query| >= dimensions && 1 <= k <= size
      ensures KNearest(DistanceTo(query), chosen, size, k) && Labelled(result, chosen)
    {
      hide KdTree, Coordinates, KNearest, Searched, DistanceFirst, Distances;
      var heap := new FixedReverseHeap<Entry>(CompareEntries, k, Entry(0.0, 0));
      ghost var keys, q := EntryKeys(pivots[..]), DistanceTo(query);
      PivotFacts(points, Snapshot(pivots, lefts, rights), shape, size);
      ghost var s: Search<Entry> := Search([], [], {});
      EntriesAreDistanceFirst();
      StartSearch(keys, q, heap);
      assert SetOf(pivots[..0]) == {};
      var i := 0;
      while i < size
        invariant 0 <= i <= size && heap.capacity == k && keys == EntryKeys(pivots[..])
        invariant Searched(keys, q, heap, s, SetOf(pivots[..i]))
      {
        ghost var done := SetOf(pivots[..i]);
        NextPivot(pivots[..], i);
        var dist := SquaredDistanceAxes(pivots[i], query);
        s := PushTuple(keys, q, heap, Entry(dist, i), s, done);
        i := i + 1;
      }
      assert pivots[..i] == pivots[..];
      var best := ConsumeTuples(keys, q, heap, s, size);
      chosen := Map(keys.pivot, best);
      ChosenInRange(q, chosen, size, k);
      result := EntryLabels(best, chosen);
    }
  }

  lemma DealtWith(done: set<nat>, pivot: nat, L: set<nat>, R: set<nat>)
    ensures done + {pivot} + L + R == done + ({pivot} + (L + R))
  {
  }

  lemma ChosenInRange(q: nat -> real, chosen: seq<nat>, n: nat, k: nat)
    requires KNearest(q, chosen, n, k)
    ensures forall i :: 0 <= i < |chosen| ==> chosen[i] < n
  {
  }

  lemma NextPivot(pivots: seq<nat>, i: nat)
    requires Distinct(pivots) && i < |pivots|
    ensures pivots[i] !in SetOf(pivots[..i])
    ensures SetOf(pivots[..i + 1]) == SetOf(pivots[..i]) + {pivots[i]}
  {
    assert pivots[..i + 1] == pivots[..i] + [pivots[i]];
    SetOfAppend(pivots[..i], pivots[i]);
  }

  lemma PivotFacts(axes: seq<seq<real>>, t: Flat, g: Shape, n: nat)
    requires KdTree(axes, t, g, n)
    ensures |t.pivots| == n && Distinct(t.pivots) && SetOf(t.pivots) == All(n)
    ensures forall i :: 0 <= i < n ==> t.pivots[i] < n
  {
    IndexInRange(t.pivots, n);
  }

  lemma RootFacts(axes: seq<seq<real>>, t: Flat, g: Shape, n: nat)
    requires KdTree(axes, t, g, n)
    ensures 0 < n == |g.dims| == |g.content| && g.dims[0] == 0 && g.content[0] == All(n)
  {
  }

  ghost function Values(axes: seq<array<real>>, n: nat): (points: seq<seq<real>>)
    requires forall d :: 0 <= d < |axes| ==> axes[d].Length == n
    reads set d | 0 <= d < |axes| :: axes[d]
    ensures Coordinates(axes, points, n) && (|axes| > 0 ==> Grid(points, n))
  {
    if axes == [] then []
    else
      var last := |axes| - 1;
      Values(axes[..last], n) + [axes[last][..]]
  }
}
