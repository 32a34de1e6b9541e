/** Squared distances, why a side of a k-d tree node can be skipped, and what the k nearest
    points are. */
module KDTreeSearch {
  import opened Permutations
  import opened Comparators
  import opened IndexSets
  import opened KDTreeModel

  ghost predicate Grid(axes: seq<seq<real>>, n: nat) {
    |axes| > 0 && forall d :: 0 <= d < |axes| ==> |axes[d]| == n
  }

  function Square(x: real): real {
    x * x
  }

  /** Squared distance of point p to the query on the first `dimensions` axes. */
  function SquaredDistance(axes: seq<seq<real>>, dimensions: nat, p: nat, query: seq<real>): real
    requires dimensions <= |axes| && dimensions <= |query|
    requires forall d :: 0 <= d < dimensions ==> p < |axes[d]|
  {
    if dimensions == 0 then 0.0
    else SquaredDistance(axes, dimensions - 1, p, query) + Square(axes[dimensions - 1][p] - query[dimensions - 1])
  }

  function Distances(axes: seq<seq<real>>, n: nat, query: seq<real>): nat -> real
    requires Grid(axes, n) && |axes| <= |query|
  {
    (p: nat) => if p < n then SquaredDistance(axes, |axes|, p, query) else 0.0
  }

  // ----- What a squared distance is -----

  /** Points that differ in coordinate c alone differ in distance by what its squared gap to q does. */
  ghost predicate MovesBySquares(m: seq<real> -> real, q: seq<real>, x: seq<real>, y: seq<real>, c: int) {
    |x| == |y| == |q| && 0 <= c < |q| && (forall d :: 0 <= d < |q| && d != c ==> x[d] == y[d]) ==>
      m(y) - m(x) == (y[c] - q[c]) * (y[c] - q[c]) - (x[c] - q[c]) * (x[c] - q[c])
  }

  /** The law of squared distances to q, on points as lists of coordinates: zero at q, and moving coordinate c
      from u to v changes it by (v - q[c])^2 - (u - q[c])^2. */
  ghost predicate MeasuresSquares(m: seq<real> -> real, q: seq<real>) {
    m(q) == 0.0 && forall x, y, c :: MovesBySquares(m, q, x, y, c)
  }

  /** The coordinates of point p. */
  function PointAt(axes: seq<seq<real>>, p: nat): (x: seq<real>)
    requires forall d :: 0 <= d < |axes| ==> p < |axes[d]|
    ensures |x| == |axes| && forall d :: 0 <= d < |axes| ==> x[d] == axes[d][p]
  {
    seq(|axes|, d requires 0 <= d < |axes| => axes[d][p])
  }

  lemma AtRest(m: seq<real> -> real, q: seq<real>)
    requires MeasuresSquares(m, q)
    ensures m(q) == 0.0
  {
  }

  lemma OneMove(m: seq<real> -> real, q: seq<real>, x: seq<real>, y: seq<real>, c: nat)
    requires MeasuresSquares(m, q) && |x| == |y| == |q| && c < |q| && x[c] == q[c]
    requires forall d :: 0 <= d < |q| && d != c ==> x[d] == y[d]
    ensures m(y) == m(x) + Square(y[c] - q[c])
  {
    assert MovesBySquares(m, q, x, y, c);
    assert (x[c] - q[c]) * (x[c] - q[c]) == 0.0;
  }

  /** The points that are the same on the first k axes and at q on the others are k moves away from q. */
  lemma {:induction false} MovedOnFirst(m: seq<real> -> real, axes: seq<seq<real>>, p: nat, query: seq<real>, q: seq<real>, k: nat)
    requires forall d :: 0 <= d < |axes| ==> p < |axes[d]|
    requires |axes| <= |query| && q == query[..|axes|] && MeasuresSquares(m, q) && k <= |axes|
    ensures m(PointAt(axes, p)[..k] + q[k..]) == SquaredDistance(axes, k, p, query)
  {
    hide MeasuresSquares;
    var x := PointAt(axes, p);
    if k == 0 {
      AtRest(m, q);
      assert x[..0] + q[0..] == q;
    } else {
      MovedOnFirst(m, axes, p, query, q, k - 1);
      var before, after := x[..k - 1] + q[k - 1..], x[..k] + q[k..];
      OneMove(m, q, before, after, k - 1);
    }
  }

  /** Whatever obeys the law of squared distances is the distance computed here. */
  lemma LawGivesDistance(m: seq<real> -> real, axes: seq<seq<real>>, n: nat, p: nat, query: seq<real>)
    requires Grid(axes, n) && |axes| <= |query| && p < n && MeasuresSquares(m, query[..|axes|])
    ensures m(PointAt(axes, p)) == Distances(axes, n, query)(p)
  {
    var q := query[..|axes|];
    MovedOnFirst(m, axes, p, query, q, |axes|);
    assert PointAt(axes, p)[..|axes|] + q[|axes|..] == PointAt(axes, p);
  }

  /** The distance of a point given by its coordinates. */
  function DistanceOf(q: seq<real>): seq<real> -> real {
    (x: seq<real>) => if |x| == |q| then SquaredDistance(Columns(x), |x|, 0, q) else 0.0
  }

  /** The axes of a single point. */
  function Columns(x: seq<real>): seq<seq<real>> {
    seq(|x|, d requires 0 <= d < |x| => [x[d]])
  }

  /** And the distance computed here obeys it. */
  lemma DistanceObeysLaw(q: seq<real>)
    ensures MeasuresSquares(DistanceOf(q), q)
  {
    hide MovesBySquares, SquaredDistance;
    forall x: seq<real>, y: seq<real>, c: int
      ensures MovesBySquares(DistanceOf(q), q, x, y, c)
    {
      DistanceMoves(q, x, y, c);
    }
    AtQuery(Columns(q), |q|, 0, q);
  }

  lemma DistanceMoves(q: seq<real>, x: seq<real>, y: seq<real>, c: int)
    ensures MovesBySquares(DistanceOf(q), q, x, y, c)
  {
    hide SquaredDistance;
    if |x| == |y| == |q| && 0 <= c < |q| && forall d :: 0 <= d < |q| && d != c ==> x[d] == y[d] {
      OneMoved(Columns(x), Columns(y), |x|, 0, q, c);
    }
  }

  lemma {:induction false} AtQuery(axes: seq<seq<real>>, dimensions: nat, p: nat, query: seq<real>)
    requires dimensions <= |axes| && dimensions <= |query|
    requires forall d :: 0 <= d < dimensions ==> p < |axes[d]| && axes[d][p] == query[d]
    ensures SquaredDistance(axes, dimensions, p, query) == 0.0
  {
    if dimensions > 0 {
      AtQuery(axes, dimensions - 1, p, query);
    }
  }

  lemma {:induction false} OneMoved(axes: seq<seq<real>>, axes': seq<seq<real>>, dimensions: nat, p: nat, query: seq<real>, c: nat)
    requires dimensions <= |axes| == |axes'| && dimensions <= |query|
    requires forall d :: 0 <= d < dimensions ==> p < |axes[d]| && p < |axes'[d]| && (d != c ==> axes[d][p] == axes'[d][p])
    ensures SquaredDistance(axes', dimensions, p, query) == SquaredDistance(axes, dimensions, p, query)
              + if c < dimensions then (axes'[c][p] - query[c]) * (axes'[c][p] - query[c]) - (axes[c][p] - query[c]) * (axes[c][p] - query[c])
                else 0.0
  {
    if dimensions > 0 {
      OneMoved(axes, axes', dimensions - 1, p, query, c);
    }
  }

  lemma SquareIsNatural(x: real)
    ensures Square(x) >= 0.0
  {
  }

  /** The distance is at least the gap on any one axis. */
  lemma {:induction false} OneAxis(axes: seq<seq<real>>, dimensions: nat, p: nat, query: seq<real>, d: nat)
    requires d < dimensions <= |axes| && dimensions <= |query|
    requires forall c :: 0 <= c < dimensions ==> p < |axes[c]|
    ensures SquaredDistance(axes, dimensions, p, query) >= Square(axes[d][p] - query[d])
  {
    SquareIsNatural(axes[dimensions - 1][p] - query[dimensions - 1]);
    if d < dimensions - 1 {
      OneAxis(axes, dimensions - 1, p, query, d);
    } else {
      DistanceIsNatural(axes, dimensions - 1, p, query);
    }
  }

  lemma {:induction false} DistanceIsNatural(axes: seq<seq<real>>, dimensions: nat, p: nat, query: seq<real>)
    requires dimensions <= |axes| && dimensions <= |query|
    requires forall c :: 0 <= c < dimensions ==> p < |axes[c]|
    ensures SquaredDistance(axes, dimensions, p, query) >= 0.0
  {
    if dimensions > 0 {
      DistanceIsNatural(axes, dimensions - 1, p, query);
      SquareIsNatural(axes[dimensions - 1][p] - query[dimensions - 1]);
    }
  }

  lemma SquareGrows(a: real, b: real)
    requires 0.0 <= a <= b
    ensures Square(a) <= Square(b) && Square(-a) == Square(a)
  {
    assert a * a <= a * b <= b * b;
  }

  /** Points on the far side of the split are no nearer than the split is on its axis. */
  lemma FarSide(axes: seq<seq<real>>, t: Flat, g: Shape, v: nat, n: nat, query: seq<real>)
    requires KdTree(axes, t, g, n) && Grid(axes, n) && |axes| <= |query| && v < n
    ensures t.pivots[v] < n && g.dims[v] < |axes|
    ensures var d, p, q := g.dims[v], t.pivots[v], Distances(axes, n, query);
            && (query[d] >= axes[d][p] ==> forall x :: x in g.lefts[v] ==> q(x) >= Square(axes[d][p] - query[d]))
            && (query[d] <= axes[d][p] ==> forall x :: x in g.rights[v] ==> q(x) >= Square(axes[d][p] - query[d]))
  {
    assert Split(axes, t, g, v);
    var d, p, q := g.dims[v], t.pivots[v], Distances(axes, n, query);
    assert p in SetOf(t.pivots);
    if query[d] >= axes[d][p] {
      forall x | x in g.lefts[v]
        ensures q(x) >= Square(axes[d][p] - query[d])
      {
        OneAxis(axes, |axes|, x, query, d);
        SquareGrows(query[d] - axes[d][p], query[d] - axes[d][x]);
        SquareGrows(query[d] - axes[d][x], query[d] - axes[d][x]);
        assert axes[d][p] - query[d] == -(query[d] - axes[d][p]) && axes[d][x] - query[d] == -(query[d] - axes[d][x]);
      }
    }
    if query[d] <= axes[d][p] {
      forall x | x in g.rights[v]
        ensures q(x) >= Square(axes[d][p] - query[d])
      {
        OneAxis(axes, |axes|, x, query, d);
        SquareGrows(axes[d][p] - query[d], axes[d][x] - query[d]);
      }
    }
  }

  // ----- The nearest point -----

  /** The best point found so far, if any; before that the best distance is infinite. */
  datatype Best = Nothing | Best(pivot: nat, distance: real)
  {
    predicate BeatenBy(d: real) {
      this.Nothing? || d < distance
    }
  }

  /** Searching the points of C improves `before` to `after`. */
  ghost predicate Improves(q: nat -> real, before: Best, after: Best, C: set<nat>) {
    && (after == before || (after.Best? && after.pivot in C && after.distance == q(after.pivot)))
    && (forall x :: x in C ==> after.Best? && after.distance <= q(x))
    && (before.Best? ==> after.Best? && after.distance <= before.distance)
  }

  lemma ImprovesTogether(q: nat -> real, a: Best, b: Best, c: Best, C: set<nat>, C': set<nat>)
    requires Improves(q, a, b, C) && Improves(q, b, c, C')
    ensures Improves(q, a, c, C + C')
  {
  }

  /** A set whose points are all too far changes nothing. */
  lemma ImprovesByNone(q: nat -> real, a: Best, C: set<nat>)
    requires forall x :: x in C ==> !a.BeatenBy(q(x))
    ensures Improves(q, a, a, C)
  {
  }

  /** Looking at one point. */
  lemma ImprovesByOne(q: nat -> real, a: Best, pivot: nat)
    ensures Improves(q, a, if a.BeatenBy(q(pivot)) then Best(pivot, q(pivot)) else a, {pivot})
  {
  }

  /** Nothing improves on a distance of zero. */
  lemma ZeroIsBest(axes: seq<seq<real>>, n: nat, query: seq<real>, a: Best, C: set<nat>)
    requires Grid(axes, n) && |axes| <= |query| && a.Best? && a.distance == 0.0
    ensures Improves(Distances(axes, n, query), a, a, C)
  {
    forall x | x in C
      ensures !a.BeatenBy(Distances(axes, n, query)(x))
    {
      if x < n {
        DistanceIsNatural(axes, |axes|, x, query);
      }
    }
    ImprovesByNone(Distances(axes, n, query), a, C);
  }

  /** The parts of a node's content. */
  lemma NodeContent(axes: seq<seq<real>>, t: Flat, g: Shape, v: nat, n: nat)
    requires KdTree(axes, t, g, n) && v < n
    ensures Sized(t, g, n) && |g.content| == n && t.pivots[v] < n && g.dims[v] < |axes|
    ensures g.content[v] == {t.pivots[v]} + (g.lefts[v] + g.rights[v])
    ensures t.pivots[v] !in g.lefts[v] + g.rights[v] && g.lefts[v] !! g.rights[v]
    ensures |g.content[v]| == 1 + |g.lefts[v]| + |g.rights[v]|
    ensures t.lefts[v] == 0 ==> g.lefts[v] == {}
    ensures t.rights[v] == 0 ==> g.rights[v] == {}
    ensures t.lefts[v] != 0 ==> var c := t.lefts[v] - 1;
                                v < c < n && g.content[c] == g.lefts[v] && g.dims[c] == NextAxis(g.dims[v], |axes|)
    ensures t.rights[v] != 0 ==> var c := t.rights[v] - 1;
                                 v < c < n && g.content[c] == g.rights[v] && g.dims[c] == NextAxis(g.dims[v], |axes|)
  {
    assert Split(axes, t, g, v);
    assert t.pivots[v] in SetOf(t.pivots);
    var both := g.lefts[v] + g.rights[v];
    assert |both| == |g.lefts[v]| + |g.rights[v]|;
    assert g.content[v] == {t.pivots[v]} + both;
  }

  // ----- The k nearest points -----

  /** `chosen` lists k points, nearest first, and no other point is nearer than any of them. */
  ghost predicate KNearest(q: nat -> real, chosen: seq<nat>, n: nat, k: nat) {
    && |chosen| == k && Distinct(chosen)
    && (forall i :: 0 <= i < k ==> chosen[i] < n)
    && (forall i, j :: 0 <= i < j < k ==> q(chosen[i]) <= q(chosen[j]))
    && (forall x: nat, i :: x < n && x !in chosen && 0 <= i < k ==> q(chosen[i]) <= q(x))
  }

  function ByValue(): (real, real) -> int {
    (a, b) => if a < b then -1 else if a > b then 1 else 0
  }

  lemma KNearestIsBest(q: nat -> real, chosen: seq<nat>, n: nat, k: nat)
    requires KNearest(q, chosen, n, k) && k <= n
    ensures BestOf(ByValue(), multiset(Map(q, chosen)), multiset(Map(q, Upto(n))), k)
  {
    forall x | x in chosen
      ensures x < n
    {
    }
    var others := LeftOut(chosen, n);
    MapPermuted(q, Upto(n), chosen + others);
    MapAppend(q, chosen, others);
    var kept, all := multiset(Map(q, chosen)), multiset(Map(q, Upto(n)));
    assert all == kept + multiset(Map(q, others));
    assert |all| == n && |kept| == k;
    forall a, b | a in kept && b in all - kept
      ensures ByValue()(a, b) <= 0
    {
      var i := Member(Map(q, chosen), a);
      var j := Member(Map(q, others), b);
      assert others[j] in others;
    }
  }

  lemma KNearestIsSorted(q: nat -> real, chosen: seq<nat>, n: nat, k: nat)
    requires KNearest(q, chosen, n, k)
    ensures SortedBy(ByValue(), Map(q, chosen))
  {
  }

  lemma ByValueIsAntisymmetric()
    ensures Antisymmetric(ByValue())
  {
  }

  /** Any two lists of k nearest points have the same distances, in the same order. */
  lemma SameDistances(q: nat -> real, a: seq<nat>, b: seq<nat>, n: nat, k: nat)
    requires KNearest(q, a, n, k) && KNearest(q, b, n, k) && k <= n
    ensures Map(q, a) == Map(q, b)
  {
    KNearestIsSorted(q, a, n, k);
    KNearestIsSorted(q, b, n, k);
    ByValueIsAntisymmetric();
    hide KNearest, BestOf, SortedBy, Antisymmetric, ByValue, Map;
    KNearestIsBest(q, a, n, k);
    KNearestIsBest(q, b, n, k);
    BestIsUnique(ByValue(), multiset(Map(q, a)), multiset(Map(q, b)), multiset(Map(q, Upto(n))), k);
    SortedIsUnique(ByValue(), Map(q, a), Map(q, b));
  }

  // ----- Selecting through a heap of tuples that lead with the distance -----

  ghost predicate DistanceFirst<E(!new)>(compare: (E, E) -> int, dist: E -> real) {
    TotalPreorder(compare) && forall a, b :: compare(a, b) <= 0 ==> dist(a) <= dist(b)
  }

  /** Tuple j carries the point seen[j] and its distance. */
  ghost predicate Tuples<E>(dist: E -> real, pivot: E -> nat, q: nat -> real, tuples: seq<E>, seen: seq<nat>) {
    |tuples| == |seen| && forall j :: 0 <= j < |seen| ==> dist(tuples[j]) == q(seen[j]) && pivot(tuples[j]) == seen[j]
  }

  /** Points were only dropped once k tuples were kept, none of which is farther. */
  ghost predicate Dropped<E(!new)>(dist: E -> real, kept: multiset<E>, q: nat -> real, out: set<nat>, k: nat) {
    out != {} ==> |kept| == k && forall e, x :: e in kept && x in out ==> dist(e) <= q(x)
  }

  /** A heap that has moved on to better tuples keeps none that is farther than all it kept before. */
  lemma DroppedStays<E(!new)>(compare: (E, E) -> int, dist: E -> real, kept: multiset<E>, kept': multiset<E>,
                              pushed: multiset<E>, e: E, q: nat -> real, out: set<nat>, k: nat)
    requires DistanceFirst(compare, dist)
    requires BestOf(compare, kept, pushed, k) && BestOf(compare, kept', pushed + multiset{e}, k)
    requires Dropped(dist, kept, q, out, k)
    ensures Dropped(dist, kept', q, out, k)
  {
    if out != {} {
      assert |pushed + multiset{e}| == |pushed| + 1;
      forall a, x | a in kept' && x in out
        ensures dist(a) <= q(x)
      {
        if a !in kept {
          var b := ExtraMember(kept, kept');
          assert b in pushed + multiset{e} - kept';
        }
      }
    }
  }

  lemma {:induction false} MapSubset<S, T>(f: S -> T, a: seq<S>, b: seq<S>)
    requires multiset(a) <= multiset(b)
    ensures multiset(Map(f, a)) <= multiset(Map(f, b))
  {
    if a != [] {
      assert a[0] in multiset(b);
      var j := Member(b, a[0]);
      WithoutOne(a, 0);
      WithoutOne(b, j);
      MapSubset(f, Without(a, 0), Without(b, j));
      MapWithout(f, a, 0);
      MapWithout(f, b, j);
      WithoutOne(Map(f, a), 0);
      WithoutOne(Map(f, b), j);
    }
  }

  lemma DistinctSubset<T>(a: seq<T>, b: seq<T>)
    requires multiset(a) <= multiset(b) && Distinct(b)
    ensures Distinct(a)
  {
    forall i, j | 0 <= i < j < |a|
      ensures a[i] != a[j]
    {
      CountDistinct(b, a[i]);
      assert a == a[..i] + [a[i]] + a[i + 1..j] + [a[j]] + a[j + 1..];
      assert multiset(a)[a[i]] <= 1;
    }
  }

  lemma PivotsOf<E>(dist: E -> real, pivot: E -> nat, q: nat -> real, tuples: seq<E>, seen: seq<nat>, best: seq<E>)
    requires Tuples(dist, pivot, q, tuples, seen) && Distinct(seen) && multiset(best) <= multiset(tuples)
    ensures Distinct(Map(pivot, best))
    ensures forall i :: 0 <= i < |best| ==> pivot(best[i]) in seen && dist(best[i]) == q(pivot(best[i]))
  {
    assert Map(pivot, tuples) == seen;
    MapSubset(pivot, best, tuples);
    DistinctSubset(Map(pivot, best), seen);
    forall i | 0 <= i < |best|
      ensures pivot(best[i]) in seen && dist(best[i]) == q(pivot(best[i]))
    {
      assert best[i] in multiset(best);
      var j := Member(tuples, best[i]);
    }
  }

  /** A point that was not chosen is no nearer than those that were. */
  lemma NotChosenIsFar<E(!new)>(compare: (E, E) -> int, dist: E -> real, pivot: E -> nat, q: nat -> real,
                                tuples: seq<E>, seen: seq<nat>, out: set<nat>, best: seq<E>, k: nat, x: nat, e: E)
    requires DistanceFirst(compare, dist) && Tuples(dist, pivot, q, tuples, seen)
    requires BestOf(compare, multiset(best), multiset(tuples), k)
    requires Dropped(dist, multiset(best), q, out, k)
    requires x in out || x in seen
    requires x !in Map(pivot, best) && e in best
    ensures dist(e) <= q(x)
  {
    if x !in out {
      var j :| 0 <= j < |seen| && seen[j] == x;
      NotKept(pivot, tuples, best, j);
      assert compare(e, tuples[j]) <= 0;
    }
  }

  lemma BestCount<E(!new)>(compare: (E, E) -> int, dist: E -> real, q: nat -> real,
                           tuples: seq<E>, seen: seq<nat>, out: set<nat>, best: seq<E>, n: nat, k: nat)
    requires |tuples| == |seen| && Distinct(seen) && SetOf(seen) + out == All(n) && k <= n
    requires BestOf(compare, multiset(best), multiset(tuples), k)
    requires Dropped(dist, multiset(best), q, out, k)
    ensures |best| == k
  {
    assert |multiset(best)| == |best| && |multiset(tuples)| == |tuples|;
    if out == {} {
      DistinctSize(seen);
      AllSize(n);
    }
  }

  /** The best tuples in order carry the k nearest points, nearest first. */
  lemma BestAreNearest<E(!new)>(compare: (E, E) -> int, dist: E -> real, pivot: E -> nat, q: nat -> real,
                                tuples: seq<E>, seen: seq<nat>, out: set<nat>, best: seq<E>, n: nat, k: nat)
    requires DistanceFirst(compare, dist) && Tuples(dist, pivot, q, tuples, seen) && Distinct(seen)
    requires SetOf(seen) + out == All(n) && k <= n
    requires SortedBy(compare, best) && BestOf(compare, multiset(best), multiset(tuples), k)
    requires Dropped(dist, multiset(best), q, out, k)
    ensures KNearest(q, Map(pivot, best), n, k)
  {
    var chosen := Map(pivot, best);
    PivotsOf(dist, pivot, q, tuples, seen, best);
    BestCount(compare, dist, q, tuples, seen, out, best, n, k);
    hide BestOf, Dropped, Tuples;
    forall i | 0 <= i < k
      ensures chosen[i] < n
    {
      assert chosen[i] in SetOf(seen);
    }
    forall x: nat, i | x < n && x !in chosen && 0 <= i < k
      ensures q(chosen[i]) <= q(x)
    {
      assert x in SetOf(seen) + out;
      NotChosenIsFar(compare, dist, pivot, q, tuples, seen, out, best, k, x, best[i]);
    }
  }

  lemma NotKept<E>(pivot: E -> nat, tuples: seq<E>, best: seq<E>, j: nat)
    requires j < |tuples| && pivot(tuples[j]) !in Map(pivot, best)
    ensures tuples[j] in multiset(tuples) - multiset(best)
  {
    forall i | 0 <= i < |best|
      ensures best[i] != tuples[j]
    {
      assert Map(pivot, best)[i] in Map(pivot, best);
    }
    assert tuples[j] !in best;
  }

  // ----- A search that keeps the best tuples pushed so far -----

  /** The tuples pushed, the points they carry, and the points skipped as too far. */
  datatype Search<E> = Search(tuples: seq<E>, seen: seq<nat>, out: set<nat>)

  /** The points of `done` have been dealt with: each was pushed once or rightly skipped. */
  ghost predicate Selected<E(!new)>(dist: E -> real, pivot: E -> nat, q: nat -> real, kept: multiset<E>,
                                    s: Search<E>, done: set<nat>, k: nat) {
    && Tuples(dist, pivot, q, s.tuples, s.seen) && Distinct(s.seen)
    && Dropped(dist, kept, q, s.out, k)
    && SetOf(s.seen) + s.out == done
  }

  function Pushed<E>(s: Search<E>, e: E, x: nat): Search<E> {
    Search(s.tuples + [e], s.seen + [x], s.out)
  }

  lemma SelectOne<E(!new)>(compare: (E, E) -> int, dist: E -> real, pivot: E -> nat, q: nat -> real,
                           kept: multiset<E>, kept': multiset<E>, s: Search<E>, done: set<nat>, k: nat, e: E, x: nat)
    requires DistanceFirst(compare, dist) && Selected(dist, pivot, q, kept, s, done, k)
    requires BestOf(compare, kept, multiset(s.tuples), k)
    requires BestOf(compare, kept', multiset(s.tuples) + multiset{e}, k)
    requires dist(e) == q(x) && pivot(e) == x && x !in done
    ensures Selected(dist, pivot, q, kept', Pushed(s, e, x), done + {x}, k)
    ensures multiset(Pushed(s, e, x).tuples) == multiset(s.tuples) + multiset{e}
  {
    hide DistanceFirst, BestOf, Dropped, Tuples;
    DroppedStays(compare, dist, kept, kept', multiset(s.tuples), e, q, s.out, k);
    SeenGrows(s.seen, x, done);
    TuplesGrow(dist, pivot, q, s.tuples, s.seen, e, x);
    SetOfAppend(s.seen, x);
  }

  lemma TuplesGrow<E>(dist: E -> real, pivot: E -> nat, q: nat -> real, tuples: seq<E>, seen: seq<nat>, e: E, x: nat)
    requires Tuples(dist, pivot, q, tuples, seen) && dist(e) == q(x) && pivot(e) == x
    ensures Tuples(dist, pivot, q, tuples + [e], seen + [x])
  {
  }

  lemma SeenGrows(seen: seq<nat>, x: nat, done: set<nat>)
    requires SetOf(seen) <= done && x !in done
    ensures Distinct(seen) ==> Distinct(seen + [x])
  {
    forall i | 0 <= i < |seen|
      ensures seen[i] in SetOf(seen)
    {
    }
  }

  lemma SetOfAppend(s: seq<nat>, x: nat)
    ensures SetOf(s + [x]) == SetOf(s) + {x}
  {
  }

  /** Points may be skipped once k are kept and the worst of those is no farther. */
  lemma SelectSkip<E(!new)>(compare: (E, E) -> int, dist: E -> real, pivot: E -> nat, q: nat -> real,
                            kept: multiset<E>, s: Search<E>, done: set<nat>, k: nat, worst: E, far: set<nat>)
    requires DistanceFirst(compare, dist) && Selected(dist, pivot, q, kept, s, done, k)
    requires |kept| == k && forall e :: e in kept ==> compare(e, worst) <= 0
    requires forall x :: x in far ==> dist(worst) <= q(x)
    ensures Selected(dist, pivot, q, kept, s.(out := s.out + far), done + far, k)
  {
  }

  lemma NothingSelected<E(!new)>(dist: E -> real, pivot: E -> nat, q: nat -> real, kept: multiset<E>, k: nat)
    ensures Selected(dist, pivot, q, kept, Search([], [], {}), {}, k)
  {
  }

  /** Once every point is dealt with, the kept tuples in order carry the k nearest points. */
  lemma SelectedAll<E(!new)>(compare: (E, E) -> int, dist: E -> real, pivot: E -> nat, q: nat -> real,
                             s: Search<E>, best: seq<E>, n: nat, k: nat)
    requires DistanceFirst(compare, dist) && k <= n
    requires Selected(dist, pivot, q, multiset(best), s, All(n), k)
    requires SortedBy(compare, best) && BestOf(compare, multiset(best), multiset(s.tuples), k)
    ensures KNearest(q, Map(pivot, best), n, k)
  {
    BestAreNearest(compare, dist, pivot, q, s.tuples, s.seen, s.out, best, n, k);
  }

  // ----- The two kinds of tuples -----

  datatype Visit = Visit(dist: real, order: nat, pivot: nat)

  datatype Entry = Entry(dist: real, index: nat)

  /** Lexicographic order on three components. */
  function CompareVisits(a: Visit, b: Visit): int {
    if a.dist < b.dist then -1
    else if a.dist > b.dist then 1
    else if a.order < b.order then -1
    else if a.order > b.order then 1
    else if a.pivot < b.pivot then -1
    else if a.pivot > b.pivot then 1
    else 0
  }

  function CompareEntries(a: Entry, b: Entry): int {
    if a.dist < b.dist then -1
    else if a.dist > b.dist then 1
    else if a.index < b.index then -1
    else if a.index > b.index then 1
    else 0
  }

  function VisitDistance(): Visit -> real {
    (v: Visit) => v.dist
  }

  function VisitPivot(): Visit -> nat {
    (v: Visit) => v.pivot
  }

  function EntryDistance(): Entry -> real {
    (e: Entry) => e.dist
  }

  function EntryPivot(pivots: seq<nat>): Entry -> nat {
    (e: Entry) => if e.index < |pivots| then pivots[e.index] else |pivots|
  }

  lemma VisitsAreDistanceFirst()
    ensures DistanceFirst(CompareVisits, VisitDistance())
  {
    assert TotalPreorder(CompareVisits);
  }

  lemma EntriesAreDistanceFirst()
    ensures DistanceFirst(CompareEntries, EntryDistance())
  {
    assert TotalPreorder(CompareEntries);
  }
}
