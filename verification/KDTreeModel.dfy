/** The flat k-d tree: what its arrays mean, and why its build loop produces it. Points are
    known by their index; axes[d][x] is coordinate d of point x. */
module KDTreeModel {
  import opened Permutations
  import opened QuickSort
  import opened IndexSets

  /** Snapshot of the tree's arrays. Children are stored plus one, 0 standing for none. */
  datatype Flat = Flat(pivots: seq<nat>, lefts: seq<nat>, rights: seq<nat>)

  /** What the arrays stand for: the points below each node, below its two sides, and the axis
      it splits. */
  datatype Shape = Shape(content: seq<set<nat>>, lefts: seq<set<nat>>, rights: seq<set<nat>>, dims: seq<nat>)

  /** The axis split one level further down. */
  function NextAxis(d: nat, dimensions: nat): (next: nat)
    requires dimensions > 0
    ensures next < dimensions
  {
    (d + 1) % dimensions
  }

  ghost predicate Sized(t: Flat, g: Shape, n: nat) {
    && |t.pivots| == |t.lefts| == |t.rights| == n
    && |g.content| == |g.lefts| == |g.rights| == |g.dims| <= n
  }

  /** Points left of a pivot have no larger coordinate on its axis, points right of it no smaller. */
  ghost predicate Split(axes: seq<seq<real>>, t: Flat, g: Shape, v: nat)
    requires v < |g.content| == |g.lefts| == |g.rights| == |g.dims| <= |t.pivots|
  {
    var p, L, R, d := t.pivots[v], g.lefts[v], g.rights[v], g.dims[v];
    && d < |axes| && p < |axes[d]|
    && g.content[v] == {p} + L + R && p !in L && p !in R && L !! R
    && (forall x :: x in L ==> x < |axes[d]| && axes[d][x] <= axes[d][p])
    && (forall x :: x in R ==> x < |axes[d]| && axes[d][x] >= axes[d][p])
  }

  /** Child link c of node v leads to a later node holding the points of that side. */
  ghost predicate Link(g: Shape, dimensions: nat, v: nat, c: nat, side: set<nat>)
    requires v < |g.content| == |g.dims|
  {
    c > 0 ==> v < c - 1 < |g.content| && g.content[c - 1] == side
              && dimensions > 0 && g.dims[c - 1] == NextAxis(g.dims[v], dimensions)
  }

  /** The finished tree over n points. */
  ghost predicate KdTree(axes: seq<seq<real>>, t: Flat, g: Shape, n: nat) {
    && Sized(t, g, n) && |g.content| == n > 0
    && g.content[0] == All(n) && g.dims[0] == 0
    && (forall v :: 0 <= v < n ==>
          && Split(axes, t, g, v)
          && Link(g, |axes|, v, t.lefts[v], g.lefts[v]) && Link(g, |axes|, v, t.rights[v], g.rights[v])
          && (t.lefts[v] == 0 ==> g.lefts[v] == {}) && (t.rights[v] == 0 ==> g.rights[v] == {}))
    && Distinct(t.pivots) && SetOf(t.pivots) == All(n)
  }

  // ----- The build loop -----

  /** A side still to be built: the points at positions lo to hi of the ids, to be split on axis
      d and linked to `parent` on the left (0) or right (1). */
  datatype Step = Step(d: nat, lo: nat, hi: nat, parent: int, direction: nat)

  function Load(stack: seq<Step>): int {
    if stack == [] then 0
    else Load(stack[..|stack| - 1]) + stack[|stack| - 1].hi - stack[|stack| - 1].lo
  }

  lemma LoadAppend(stack: seq<Step>, s: Step)
    ensures Load(stack + [s]) == Load(stack) + s.hi - s.lo
  {
    assert (stack + [s])[..|stack|] == stack;
  }

  /** Steps own disjoint stretches of the ids, which hold the points of their sides. */
  ghost predicate Steps(g: Shape, dimensions: nat, ids: seq<nat>, stack: seq<Step>)
    requires |g.content| == |g.lefts| == |g.rights| == |g.dims|
  {
    && (forall j :: 0 <= j < |stack| ==> stack[j].lo < stack[j].hi <= |ids| && Owns(g, dimensions, ids, stack[j]))
    && (forall j, m :: 0 <= j < m < |stack| ==> stack[j].hi <= stack[m].lo || stack[m].hi <= stack[j].lo)
  }

  ghost predicate Owns(g: Shape, dimensions: nat, ids: seq<nat>, s: Step)
    requires |g.content| == |g.lefts| == |g.rights| == |g.dims| && s.lo <= s.hi <= |ids|
  {
    && s.d < dimensions
    && if s.parent < 0 then |g.content| == 0 && s.d == 0 && s.lo == 0 && s.hi == |ids|
       else
         && s.parent < |g.content|
         && s.d == NextAxis(g.dims[s.parent], dimensions)
         && SetOf(ids[s.lo..s.hi]) == (if s.direction == 0 then g.lefts else g.rights)[s.parent]
  }

  ghost predicate Pending(stack: seq<Step>, v: nat, direction: nat) {
    exists j :: 0 <= j < |stack| && stack[j].parent == v && (stack[j].direction == 0 <==> direction == 0)
  }

  /** Every side of a built node is linked, empty or still to be built. */
  ghost predicate Linked(t: Flat, g: Shape, dimensions: nat, stack: seq<Step>, n: nat)
    requires Sized(t, g, n)
  {
    forall v :: 0 <= v < |g.content| ==>
      && Link(g, dimensions, v, t.lefts[v], g.lefts[v]) && Link(g, dimensions, v, t.rights[v], g.rights[v])
      && (t.lefts[v] == 0 ==> g.lefts[v] == {} || Pending(stack, v, 0))
      && (t.rights[v] == 0 ==> g.rights[v] == {} || Pending(stack, v, 1))
  }

  /** Built nodes hold distinct points, none of which is still to be placed. */
  ghost predicate Once(t: Flat, g: Shape, ids: seq<nat>, stack: seq<Step>, n: nat)
    requires Sized(t, g, n)
  {
    && (forall v, w :: 0 <= v < w < |g.content| ==> t.pivots[v] != t.pivots[w])
    && (forall v, j :: 0 <= v < |g.content| && 0 <= j < |stack| && stack[j].lo <= stack[j].hi <= |ids| ==>
          t.pivots[v] !in SetOf(ids[stack[j].lo..stack[j].hi]))
  }

  ghost predicate Nodes(axes: seq<seq<real>>, t: Flat, g: Shape, n: nat)
    requires Sized(t, g, n)
  {
    forall v :: 0 <= v < |g.content| ==> t.pivots[v] < n && Split(axes, t, g, v)
  }

  ghost predicate Rooted(g: Shape, n: nat)
    requires |g.content| == |g.dims|
  {
    |g.content| > 0 ==> g.content[0] == All(n) && g.dims[0] == 0
  }

  ghost predicate Building(axes: seq<seq<real>>, t: Flat, g: Shape, ids: seq<nat>, stack: seq<Step>, n: nat) {
    && Sized(t, g, n) && Permutation(ids, n)
    && Steps(g, |axes|, ids, stack)
    && Linked(t, g, |axes|, stack, n)
    && Once(t, g, ids, stack, n)
    && Nodes(axes, t, g, n)
    && Rooted(g, n)
    && (forall v :: |g.content| <= v < n ==> t.lefts[v] == 0 == t.rights[v])
  }

  lemma StartBuilding(axes: seq<seq<real>>, t: Flat, ids: seq<nat>, n: nat)
    requires n > 0 && |axes| > 0 && Permutation(ids, n)
    requires |t.pivots| == |t.lefts| == |t.rights| == n
    requires forall v :: 0 <= v < n ==> t.lefts[v] == 0 == t.rights[v]
    ensures Building(axes, t, Shape([], [], [], []), ids, [Step(0, 0, n, -1, 0)], n)
  {
    assert ids[0..n] == ids;
  }

  lemma EndBuilding(axes: seq<seq<real>>, t: Flat, g: Shape, ids: seq<nat>, n: nat)
    requires Building(axes, t, g, ids, [], n) && |g.content| == n > 0
    ensures KdTree(axes, t, g, n)
  {
    DistinctCovers(t.pivots, n);
  }

  // ----- One turn of the build loop -----

  lemma TopStep(axes: seq<seq<real>>, t: Flat, g: Shape, ids: seq<nat>, rest: seq<Step>, s: Step, n: nat)
    requires Building(axes, t, g, ids, rest + [s], n)
    ensures Sized(t, g, n) && |ids| == n && s.lo < s.hi <= n && s.d < |axes|
    ensures s.parent < |g.content|
    ensures Load(rest) >= 0 && Load(rest + [s]) == Load(rest) + s.hi - s.lo
    ensures forall x :: 0 <= x < n ==> ids[x] < n
  {
    var stack := rest + [s];
    assert stack[|rest|] == s;
    IndexInRange(ids, n);
    LoadAppend(rest, s);
    forall j | 0 <= j < |rest|
      ensures rest[j].lo <= rest[j].hi
    {
      assert stack[j] == rest[j];
    }
    LoadIsNatural(rest);
  }

  lemma {:induction false} LoadIsNatural(stack: seq<Step>)
    requires forall j :: 0 <= j < |stack| ==> stack[j].lo <= stack[j].hi
    ensures Load(stack) >= 0
  {
    if stack != [] {
      LoadIsNatural(stack[..|stack| - 1]);
    }
  }

  /** Sorting the stretch of the top step changes no side. */
  lemma SortTop(axes: seq<seq<real>>, t: Flat, g: Shape, ids: seq<nat>, ids': seq<nat>, rest: seq<Step>, s: Step, n: nat)
    requires Building(axes, t, g, ids, rest + [s], n) && Rearranged(ids, ids', s.lo, s.hi)
    ensures Building(axes, t, g, ids', rest + [s], n)
  {
    var stack := rest + [s];
    assert stack[|rest|] == s;
    IndicesStay(ids, ids', s.lo, s.hi, n);
    forall j | 0 <= j < |stack|
      ensures SetOf(ids'[stack[j].lo..stack[j].hi]) == SetOf(ids[stack[j].lo..stack[j].hi])
    {
      SetKept(ids, ids', s.lo, s.hi, stack[j].lo, stack[j].hi);
    }
  }

  /** Node i of the tree: pivot and link to it, and the sides that wait for it. */
  function Linking(t: Flat, s: Step, i: nat, pivot: nat): Flat
    requires i < |t.pivots| == |t.lefts| == |t.rights| && s.parent < |t.pivots|
  {
    Flat(t.pivots[i := pivot],
         if s.parent >= 0 && s.direction == 0 then t.lefts[s.parent := i + 1] else t.lefts,
         if s.parent >= 0 && s.direction != 0 then t.rights[s.parent := i + 1] else t.rights)
  }

  function Grown(g: Shape, ids: seq<nat>, s: Step, median: nat): Shape
    requires s.lo <= median < s.hi <= |ids|
  {
    Shape(g.content + [SetOf(ids[s.lo..s.hi])], g.lefts + [SetOf(ids[s.lo..median])],
          g.rights + [SetOf(ids[median + 1..s.hi])], g.dims + [s.d])
  }

  function Sides(rest: seq<Step>, s: Step, median: nat, i: nat, dimensions: nat): seq<Step>
    requires dimensions > 0
  {
    var d := NextAxis(s.d, dimensions);
    rest + (if median + 1 < s.hi then [Step(d, median + 1, s.hi, i, 1)] else [])
         + (if s.lo < median then [Step(d, s.lo, median, i, 0)] else [])
  }

  ghost predicate AscendsOn(axis: seq<real>, ids: seq<nat>, lo: nat, hi: nat)
    requires hi <= |ids|
  {
    && (forall x :: lo <= x < hi ==> ids[x] < |axis|)
    && (forall x, y :: lo <= x < y < hi ==> axis[ids[x]] <= axis[ids[y]])
  }

  /** The points of a stretch are its median and the points on either side. */
  lemma StretchSplits(ids: seq<nat>, lo: nat, median: nat, hi: nat)
    requires Distinct(ids) && lo <= median < hi <= |ids|
    ensures SetOf(ids[lo..hi]) == {ids[median]} + SetOf(ids[lo..median]) + SetOf(ids[median + 1..hi])
    ensures ids[median] !in SetOf(ids[lo..median]) && ids[median] !in SetOf(ids[median + 1..hi])
    ensures SetOf(ids[lo..median]) !! SetOf(ids[median + 1..hi])
  {
    assert ids[lo..hi] == ids[lo..median] + [ids[median]] + ids[median + 1..hi];
    assert ids[median..median + 1] == [ids[median]];
    assert ids[median] in SetOf(ids[median..median + 1]);
    StretchesApart(ids, median, median + 1, lo, median);
    StretchesApart(ids, median, median + 1, median + 1, hi);
    StretchesApart(ids, lo, median, median + 1, hi);
  }

  lemma MedianSplits(axes: seq<seq<real>>, t: Flat, g: Shape, ids: seq<nat>, s: Step, median: nat, n: nat)
    requires Sized(t, g, n) && |g.content| < n && Distinct(ids)
    requires s.lo <= median < s.hi <= |ids| && s.d < |axes| && s.parent < |g.content|
    requires AscendsOn(axes[s.d], ids, s.lo, s.hi)
    ensures Split(axes, Linking(t, s, |g.content|, ids[median]), Grown(g, ids, s, median), |g.content|)
  {
    StretchSplits(ids, s.lo, median, s.hi);
    forall x | x in SetOf(ids[s.lo..median])
      ensures x < |axes[s.d]| && axes[s.d][x] <= axes[s.d][ids[median]]
    {
      var p :| 0 <= p < median - s.lo && ids[s.lo..median][p] == x;
      assert ids[s.lo + p] == x;
    }
    forall x | x in SetOf(ids[median + 1..s.hi])
      ensures x < |axes[s.d]| && axes[s.d][x] >= axes[s.d][ids[median]]
    {
      var p :| 0 <= p < s.hi - median - 1 && ids[median + 1..s.hi][p] == x;
      assert ids[median + 1 + p] == x;
    }
  }

  lemma NodesGrow(axes: seq<seq<real>>, t: Flat, g: Shape, ids: seq<nat>, s: Step, median: nat, n: nat)
    requires Sized(t, g, n) && |g.content| < n && Permutation(ids, n) && Nodes(axes, t, g, n)
    requires s.lo <= median < s.hi <= n && s.d < |axes| && s.parent < |g.content|
    requires AscendsOn(axes[s.d], ids, s.lo, s.hi)
    ensures Nodes(axes, Linking(t, s, |g.content|, ids[median]), Grown(g, ids, s, median), n)
  {
    var i, t', g' := |g.content|, Linking(t, s, |g.content|, ids[median]), Grown(g, ids, s, median);
    MedianSplits(axes, t, g, ids, s, median, n);
    IndexInRange(ids, n);
    forall v | 0 <= v <= i
      ensures t'.pivots[v] < n && Split(axes, t', g', v)
    {
      if v < i {
        assert Split(axes, t, g, v);
      }
    }
  }

  lemma RestApart(g: Shape, dimensions: nat, ids: seq<nat>, rest: seq<Step>, s: Step)
    requires |g.content| == |g.lefts| == |g.rights| == |g.dims| && Steps(g, dimensions, ids, rest + [s])
    ensures s.lo < s.hi <= |ids| && Owns(g, dimensions, ids, s)
    ensures forall j :: 0 <= j < |rest| ==>
              && rest[j].lo < rest[j].hi <= |ids| && Owns(g, dimensions, ids, rest[j])
              && (rest[j].hi <= s.lo || s.hi <= rest[j].lo)
    ensures forall j, m :: 0 <= j < m < |rest| ==> rest[j].hi <= rest[m].lo || rest[m].hi <= rest[j].lo
  {
    var stack := rest + [s];
    assert stack[|rest|] == s;
    forall j | 0 <= j < |rest|
      ensures stack[j] == rest[j]
    {
    }
  }

  /** A root step is alone on the stack. */
  lemma RootIsAlone(g: Shape, dimensions: nat, ids: seq<nat>, rest: seq<Step>, s: Step)
    requires |g.content| == |g.lefts| == |g.rights| == |g.dims| && Steps(g, dimensions, ids, rest + [s])
    ensures forall j :: 0 <= j < |rest| ==> rest[j].parent >= 0
  {
    RestApart(g, dimensions, ids, rest, s);
  }

  lemma OwnsGrows(g: Shape, dimensions: nat, ids: seq<nat>, s: Step, median: nat, other: Step)
    requires |g.content| == |g.lefts| == |g.rights| == |g.dims|
    requires s.lo <= median < s.hi <= |ids| && other.lo <= other.hi <= |ids|
    requires Owns(g, dimensions, ids, other) && other.parent >= 0
    ensures Owns(Grown(g, ids, s, median), dimensions, ids, other)
  {
  }

  lemma StepsPush(g: Shape, dimensions: nat, ids: seq<nat>, stack: seq<Step>, s: Step)
    requires |g.content| == |g.lefts| == |g.rights| == |g.dims| && Steps(g, dimensions, ids, stack)
    requires s.lo < s.hi <= |ids| && Owns(g, dimensions, ids, s)
    requires forall j :: 0 <= j < |stack| ==> stack[j].hi <= s.lo || s.hi <= stack[j].lo
    ensures Steps(g, dimensions, ids, stack + [s])
  {
  }

  lemma StepsGrow(g: Shape, dimensions: nat, ids: seq<nat>, rest: seq<Step>, s: Step, median: nat)
    requires |g.content| == |g.lefts| == |g.rights| == |g.dims| && dimensions > 0
    requires Steps(g, dimensions, ids, rest + [s]) && s.lo <= median < s.hi
    ensures s.hi <= |ids|
    ensures Steps(Grown(g, ids, s, median), dimensions, ids, Sides(rest, s, median, |g.content|, dimensions))
  {
    RestApart(g, dimensions, ids, rest, s);
    RootIsAlone(g, dimensions, ids, rest, s);
    var g', d, i := Grown(g, ids, s, median), NextAxis(s.d, dimensions), |g.content|;
    forall j | 0 <= j < |rest|
      ensures Owns(g', dimensions, ids, rest[j])
    {
      OwnsGrows(g, dimensions, ids, s, median, rest[j]);
    }
    assert Steps(g', dimensions, ids, rest);
    var stack := rest;
    if median + 1 < s.hi {
      StepsPush(g', dimensions, ids, rest, Step(d, median + 1, s.hi, i, 1));
      stack := rest + [Step(d, median + 1, s.hi, i, 1)];
    } else {
      assert rest + [] == rest;
    }
    if s.lo < median {
      StepsPush(g', dimensions, ids, stack, Step(d, s.lo, median, i, 0));
    } else {
      assert stack + [] == stack;
    }
  }

  lemma OnceGrows(axes: seq<seq<real>>, t: Flat, g: Shape, ids: seq<nat>, rest: seq<Step>, s: Step, median: nat, n: nat)
    requires Sized(t, g, n) && |g.content| < n && Permutation(ids, n) && |axes| > 0
    requires Steps(g, |axes|, ids, rest + [s]) && Once(t, g, ids, rest + [s], n)
    requires s.lo <= median < s.hi <= n && s.parent < |g.content|
    ensures Once(Linking(t, s, |g.content|, ids[median]), Grown(g, ids, s, median), ids,
                 Sides(rest, s, median, |g.content|, |axes|), n)
  {
    var stack := rest + [s];
    assert stack[|rest|] == s;
    StretchSplits(ids, s.lo, median, s.hi);
    RestApart(g, |axes|, ids, rest, s);
    var stack', t', i := Sides(rest, s, median, |g.content|, |axes|), Linking(t, s, |g.content|, ids[median]), |g.content|;
    forall v, j | 0 <= v <= i && 0 <= j < |stack'| && stack'[j].lo <= stack'[j].hi <= n
      ensures t'.pivots[v] !in SetOf(ids[stack'[j].lo..stack'[j].hi])
    {
      if j < |rest| {
        assert stack'[j] == rest[j] == stack[j];
        StretchesApart(ids, rest[j].lo, rest[j].hi, s.lo, s.hi);
      } else {
        assert SetOf(ids[stack'[j].lo..stack'[j].hi]) <= SetOf(ids[s.lo..s.hi]);
      }
    }
  }

  lemma LinkedGrows(t: Flat, g: Shape, dimensions: nat, ids: seq<nat>, rest: seq<Step>, s: Step, median: nat, n: nat)
    requires Sized(t, g, n) && |g.content| < n && dimensions > 0
    requires Steps(g, dimensions, ids, rest + [s]) && Linked(t, g, dimensions, rest + [s], n)
    requires s.lo <= median < s.hi <= |ids| && s.parent < |g.content|
    requires t.lefts[|g.content|] == 0 == t.rights[|g.content|]
    ensures Linked(Linking(t, s, |g.content|, ids[median]), Grown(g, ids, s, median), dimensions,
                   Sides(rest, s, median, |g.content|, dimensions), n)
  {
    RestApart(g, dimensions, ids, rest, s);
    var i := |g.content|;
    var stack', t', g' := Sides(rest, s, median, i, dimensions), Linking(t, s, i, ids[median]), Grown(g, ids, s, median);
    forall v | 0 <= v <= i
      ensures && Link(g', dimensions, v, t'.lefts[v], g'.lefts[v]) && Link(g', dimensions, v, t'.rights[v], g'.rights[v])
              && (t'.lefts[v] == 0 ==> g'.lefts[v] == {} || Pending(stack', v, 0))
              && (t'.rights[v] == 0 ==> g'.rights[v] == {} || Pending(stack', v, 1))
    {
      if v < i {
        PendingStays(rest, s, median, i, dimensions, v, 0);
        PendingStays(rest, s, median, i, dimensions, v, 1);
      } else {
        NewSidesPending(rest, s, median, i, dimensions);
      }
    }
  }

  lemma PendingStays(rest: seq<Step>, s: Step, median: nat, i: nat, dimensions: nat, v: nat, direction: nat)
    requires dimensions > 0
    ensures !Pending(rest + [s], v, direction) || (s.parent == v && (s.direction == 0 <==> direction == 0)) || Pending(Sides(rest, s, median, i, dimensions), v, direction)
  {
    if !Pending(rest + [s], v, direction) {
      return;
    }
    var j :| 0 <= j < |rest + [s]| && (rest + [s])[j].parent == v && ((rest + [s])[j].direction == 0 <==> direction == 0);
    if j < |rest| {
      assert Sides(rest, s, median, i, dimensions)[j] == rest[j];
    }
  }

  lemma NewSidesPending(rest: seq<Step>, s: Step, median: nat, i: nat, dimensions: nat)
    requires dimensions > 0
    ensures s.lo < median ==> Pending(Sides(rest, s, median, i, dimensions), i, 0)
    ensures median + 1 < s.hi ==> Pending(Sides(rest, s, median, i, dimensions), i, 1)
  {
    var stack' := Sides(rest, s, median, i, dimensions);
    if s.lo < median {
      assert stack'[|stack'| - 1] == Step(NextAxis(s.d, dimensions), s.lo, median, i, 0);
    }
    if median + 1 < s.hi {
      assert stack'[|rest|] == Step(NextAxis(s.d, dimensions), median + 1, s.hi, i, 1);
    }
  }

  lemma LoadSides(rest: seq<Step>, s: Step, median: nat, i: nat, dimensions: nat)
    requires dimensions > 0 && s.lo <= median < s.hi
    ensures Load(Sides(rest, s, median, i, dimensions)) == Load(rest + [s]) - 1
  {
    var d := NextAxis(s.d, dimensions);
    LoadAppend(rest, s);
    assert rest + [] == rest;
    var stack := rest + (if median + 1 < s.hi then [Step(d, median + 1, s.hi, i, 1)] else []);
    if median + 1 < s.hi {
      LoadAppend(rest, Step(d, median + 1, s.hi, i, 1));
    }
    assert stack + [] == stack;
    if s.lo < median {
      LoadAppend(stack, Step(d, s.lo, median, i, 0));
    }
  }

  /** One turn: the median of the sorted stretch becomes the next node. */
  lemma Turn(axes: seq<seq<real>>, t: Flat, g: Shape, ids: seq<nat>, rest: seq<Step>, s: Step, median: nat, n: nat)
    requires Building(axes, t, g, ids, rest + [s], n) && |g.content| < n
    requires s.d < |axes| && s.parent < |g.content| && s.lo <= median < s.hi <= |ids| == n
    requires Sized(t, g, n) && AscendsOn(axes[s.d], ids, s.lo, s.hi)
    ensures Building(axes, Linking(t, s, |g.content|, ids[median]), Grown(g, ids, s, median), ids,
                     Sides(rest, s, median, |g.content|, |axes|), n)
  {
    hide Steps, Linked, Once, Nodes, AscendsOn, Permutation, Sides;
    StepsGrow(g, |axes|, ids, rest, s, median);
    LinkedGrows(t, g, |axes|, ids, rest, s, median, n);
    OnceGrows(axes, t, g, ids, rest, s, median, n);
    NodesGrow(axes, t, g, ids, s, median, n);
    RootedGrows(axes, g, ids, rest, s, median, n);
  }

  lemma RootedGrows(axes: seq<seq<real>>, g: Shape, ids: seq<nat>, rest: seq<Step>, s: Step, median: nat, n: nat)
    requires |g.content| == |g.lefts| == |g.rights| == |g.dims| && Permutation(ids, n)
    requires Steps(g, |axes|, ids, rest + [s]) && Rooted(g, n)
    requires s.lo <= median < s.hi <= n && s.parent < |g.content|
    ensures Rooted(Grown(g, ids, s, median), n)
  {
    RestApart(g, |axes|, ids, rest, s);
    if |g.content| == 0 {
      assert ids[0..n] == ids;
    }
  }
}
