/** The static disjoint set: union-find with path compression over an array of parents. */
module StaticDisjointSets {
  import opened Permutations
  import opened IndexSets

  // ----- What the calls of Union connect -----

  type Relation = (nat, nat) -> bool

  ghost predicate Equivalence(r: Relation) {
    && (forall x :: r(x, x))
    && (forall x, y :: r(x, y) ==> r(y, x))
    && (forall x, y, z :: r(x, y) && r(y, z) ==> r(x, z))
  }

  /** An equivalence in which every union's items are related. */
  ghost predicate Respects(r: Relation, unions: seq<(nat, nat)>) {
    Equivalence(r) && forall u :: u in unions ==> r(u.0, u.1)
  }

  /** The equivalence closure of the unions: related in every equivalence that respects them. */
  ghost predicate Connected(unions: seq<(nat, nat)>, x: nat, y: nat) {
    forall r: Relation :: Respects(r, unions) ==> r(x, y)
  }

  // ----- The forest of parents -----

  /** What the arrays say: the root of every item, and levels that rise towards the roots. */
  ghost predicate Rooted(parents: seq<nat>, rep: seq<nat>, level: seq<nat>, top: nat) {
    && |parents| == |rep| == |level|
    && (forall x :: 0 <= x < |rep| ==> parents[x] < |rep| && rep[x] < |rep| && level[x] <= top)
    && (forall x :: 0 <= x < |rep| ==> (parents[x] == x <==> rep[x] == x))
    && (forall x :: 0 <= x < |rep| ==> rep[parents[x]] == rep[x] && rep[rep[x]] == rep[x])
    && (forall x :: 0 <= x < |rep| && parents[x] != x ==> level[x] < level[parents[x]] && level[x] < level[rep[x]])
  }

  /** The roots are as connected as the unions say. */
  ghost predicate Faithful(rep: seq<nat>, unions: seq<(nat, nat)>) {
    && (forall x :: 0 <= x < |rep| ==> rep[x] < |rep|)
    && (forall u :: u in unions ==> u.0 < |rep| && u.1 < |rep| && rep[u.0] == rep[u.1])
    && (forall x :: 0 <= x < |rep| ==> Connected(unions, x, rep[x]))
  }

  function SameRoot(rep: seq<nat>): Relation {
    (x: nat, y: nat) => x == y || (x < |rep| && y < |rep| && rep[x] == rep[y])
  }

  /** Two items have the same root exactly if they are in the equivalence closure of the unions. */
  lemma SameRootIffConnected(rep: seq<nat>, unions: seq<(nat, nat)>, x: nat, y: nat)
    requires Faithful(rep, unions) && x < |rep| && y < |rep|
    ensures rep[x] == rep[y] <==> Connected(unions, x, y)
  {
    assert Respects(SameRoot(rep), unions);
    if rep[x] == rep[y] {
      forall r: Relation | Respects(r, unions)
        ensures r(x, y)
      {
        assert r(x, rep[x]) && r(y, rep[y]) && r(rep[y], y);
      }
    }
  }

  /** The roots after those of x and y were joined. */
  ghost function Merged(rep: seq<nat>, from: nat, to: nat): (r: seq<nat>)
    ensures |r| == |rep|
    ensures forall i :: 0 <= i < |rep| ==> r[i] == if rep[i] == from then to else rep[i]
  {
    seq(|rep|, i requires 0 <= i < |rep| => if rep[i] == from then to else rep[i])
  }

  lemma MergedIsFaithful(rep: seq<nat>, unions: seq<(nat, nat)>, x: nat, y: nat, from: nat, to: nat)
    requires Faithful(rep, unions) && x < |rep| && y < |rep|
    requires (from == rep[x] && to == rep[y]) || (from == rep[y] && to == rep[x])
    ensures Faithful(Merged(rep, from, to), unions + [(x, y)])
  {
    var rep', unions' := Merged(rep, from, to), unions + [(x, y)];
    forall u | u in unions'
      ensures u.0 < |rep| && u.1 < |rep| && rep'[u.0] == rep'[u.1]
    {
      assert u in unions || u == (x, y);
    }
    forall z | 0 <= z < |rep|
      ensures Connected(unions', z, rep'[z])
    {
      forall r: Relation | Respects(r, unions')
        ensures r(z, rep'[z])
      {
        RespectsFewer(r, unions, (x, y));
        assert Connected(unions, x, rep[x]) && Connected(unions, y, rep[y]) && Connected(unions, z, rep[z]);
        Chained(r, x, y, rep[x], rep[y]);
        assert r(from, to);
      }
    }
  }

  lemma RespectsFewer(r: Relation, unions: seq<(nat, nat)>, u: (nat, nat))
    requires Respects(r, unions + [u])
    ensures Respects(r, unions) && r(u.0, u.1)
  {
    assert u in unions + [u] && forall v :: v in unions ==> v in unions + [u];
  }

  lemma Chained(r: Relation, x: nat, y: nat, a: nat, b: nat)
    requires Equivalence(r) && r(x, y) && r(x, a) && r(y, b)
    ensures r(a, b) && r(b, a)
  {
    assert r(a, x) && r(a, y) && r(a, b);
  }

  lemma MergedIsRooted(parents: seq<nat>, rep: seq<nat>, level: seq<nat>, top: nat, from: nat, to: nat)
    requires Rooted(parents, rep, level, top) && from < |rep| && to < |rep| && from != to
    requires rep[from] == from && rep[to] == to
    ensures Rooted(parents[from := to], Merged(rep, from, to), level[to := level[from] + level[to] + 1], 2 * top + 1)
  {
  }

  // ----- What the operations do to the arrays -----

  ghost predicate StepsUp(parents: seq<nat>, path: seq<nat>, i: nat)
    requires i + 1 < |path| && path[i] < |parents|
  {
    parents[path[i]] == path[i + 1] != path[i]
  }

  /** A way up from an item. */
  ghost predicate Climbs(parents: seq<nat>, path: seq<nat>) {
    && path != []
    && (forall i :: 0 <= i < |path| ==> path[i] < |parents|)
    && (forall i :: 0 <= i < |path| - 1 ==> StepsUp(parents, path, i))
  }

  ghost predicate ClimbsToRoot(parents: seq<nat>, path: seq<nat>) {
    Climbs(parents, path) && parents[path[|path| - 1]] == path[|path| - 1]
  }

  lemma ClimbsOn(parents: seq<nat>, path: seq<nat>, p: nat)
    requires Climbs(parents, path) && parents[path[|path| - 1]] == p < |parents| && path[|path| - 1] != p
    ensures Climbs(parents, path + [p])
  {
    forall i | 0 <= i < |path|
      ensures StepsUp(parents, path + [p], i)
    {
      if i < |path| - 1 {
        assert StepsUp(parents, path, i);
      }
    }
  }

  ghost function Flattened(parents: seq<nat>, path: seq<nat>, root: nat): (r: seq<nat>)
    ensures |r| == |parents|
    ensures forall i :: 0 <= i < |parents| ==> r[i] == if i in path then root else parents[i]
  {
    seq(|parents|, i requires 0 <= i < |parents| => if i in path then root else parents[i])
  }

  /** Exactly the items on the way up from an item were attached to its root. */
  ghost predicate Compression(parents: seq<nat>, parents': seq<nat>, item: nat, root: nat) {
    exists path :: ClimbsToRoot(parents, path) && path[0] == item && path[|path| - 1] == root && parents' == Flattened(parents, path, root)
  }

  /** Every item on any way up from the item is a child of the root afterwards, and no other parent has changed. */
  lemma WholeWayCompressed(parents: seq<nat>, parents': seq<nat>, item: nat, root: nat)
    requires Compression(parents, parents', item, root)
    ensures |parents'| == |parents|
    ensures forall way, n :: Climbs(parents, way) && way[0] == item && 0 <= n < |way| ==> parents'[way[n]] == root
    ensures forall i :: 0 <= i < |parents| && parents'[i] != parents[i] ==>
              exists way :: Climbs(parents, way) && way[0] == item && i in way
  {
    var path :| ClimbsToRoot(parents, path) && path[0] == item && path[|path| - 1] == root && parents' == Flattened(parents, path, root);
    forall way, n | Climbs(parents, way) && way[0] == item && 0 <= n < |way|
      ensures parents'[way[n]] == root
    {
      OneWayUp(parents, path, way, n);
    }
  }

  lemma {:induction false} OneWayUp(parents: seq<nat>, path: seq<nat>, way: seq<nat>, n: nat)
    requires ClimbsToRoot(parents, path) && Climbs(parents, way) && path[0] == way[0] && n < |way|
    ensures n < |path| && path[n] == way[n]
  {
    if n > 0 {
      OneWayUp(parents, path, way, n - 1);
      assert StepsUp(parents, way, n - 1);
      assert n < |path| ==> StepsUp(parents, path, n - 1);
    }
  }

  /** The roots after a union: the class of the item of lower rank joins the other, the second joins the first among equals. */
  ghost function Joined(rep: seq<nat>, ranks: seq<nat>, x: nat, y: nat): seq<nat>
    requires x < |rep| == |ranks| && y < |rep|
  {
    if rep[x] == rep[y] then rep
    else if ranks[x] < ranks[y] then Merged(rep, rep[x], rep[y])
    else Merged(rep, rep[y], rep[x])
  }

  /** What a union of x and y with the given roots does to both arrays. */
  ghost predicate United(parents: seq<nat>, ranks: seq<nat>, parents': seq<nat>, ranks': seq<nat>, x: nat, y: nat, xRoot: nat, yRoot: nat)
    requires x < |ranks| && y < |ranks| && xRoot < |ranks| && yRoot < |ranks| == |parents|
  {
    exists a: seq<nat>, b: seq<nat> ::
      && Compression(parents, a, x, xRoot) && Compression(a, b, y, yRoot) && |b| == |ranks|
      && Attached(b, ranks, parents', ranks', x, y, xRoot, yRoot)
  }

  ghost predicate Attached(parents: seq<nat>, ranks: seq<nat>, parents': seq<nat>, ranks': seq<nat>, x: nat, y: nat, xRoot: nat, yRoot: nat)
    requires x < |ranks| && y < |ranks| && xRoot < |ranks| && yRoot < |ranks| == |parents|
  {
    if xRoot == yRoot then parents' == parents && ranks' == ranks
    else if ranks[x] < ranks[y] then parents' == parents[xRoot := yRoot] && ranks' == ranks
    else if ranks[x] > ranks[y] then parents' == parents[yRoot := xRoot] && ranks' == ranks
    else parents' == parents[yRoot := xRoot] && ranks' == ranks[xRoot := (ranks[xRoot] + 1) % 256]
  }

  // ----- Roots and classes -----

  ghost function Roots(rep: seq<nat>): set<nat> {
    set x | x in rep
  }

  lemma FewerRoots(rep: seq<nat>, from: nat, to: nat)
    requires from in rep && to in rep && from != to
    ensures |Roots(Merged(rep, from, to))| == |Roots(rep)| - 1
  {
    var rep' := Merged(rep, from, to);
    forall x
      ensures x in rep' <==> x in rep && x != from
    {
      if x in rep && x != from {
        var i :| 0 <= i < |rep| && rep[i] == x;
        assert rep'[i] == x;
      }
      if x in rep' {
        var i :| 0 <= i < |rep'| && rep'[i] == x;
      }
    }
    assert Roots(rep') == Roots(rep) - {from};
  }

  /** The first item of x's class. */
  predicate IsFirst(rep: seq<nat>, x: nat)
    requires x < |rep|
  {
    forall j :: 0 <= j < x ==> rep[j] != rep[x]
  }

  /** How many classes the items before x belong to. */
  function ClassesBefore(rep: seq<nat>, x: nat): nat
    requires x <= |rep|
  {
    if x == 0 then 0 else ClassesBefore(rep, x - 1) + if IsFirst(rep, x - 1) then 1 else 0
  }

  lemma {:induction false} ClassesAreRoots(rep: seq<nat>, x: nat)
    requires x <= |rep|
    ensures ClassesBefore(rep, x) == |Roots(rep[..x])|
  {
    if x > 0 {
      ClassesAreRoots(rep, x - 1);
      RootsNext(rep, x - 1);
      hide Roots, IsFirst;
    }
  }

  /** An item brings a new root exactly if it is the first of its class. */
  lemma RootsNext(rep: seq<nat>, x: nat)
    requires x < |rep|
    ensures |Roots(rep[..x + 1])| == |Roots(rep[..x])| + if IsFirst(rep, x) then 1 else 0
  {
    assert rep[..x + 1] == rep[..x] + [rep[x]];
    assert Roots(rep[..x + 1]) == Roots(rep[..x]) + {rep[x]};
    if !IsFirst(rep, x) {
      var j :| 0 <= j < x && rep[j] == rep[x];
      assert rep[..x][j] == rep[x];
      assert Roots(rep[..x]) + {rep[x]} == Roots(rep[..x]);
    } else {
      assert forall j :: 0 <= j < x ==> rep[..x][j] == rep[j];
      assert rep[x] !in Roots(rep[..x]);
    }
  }

  lemma {:induction false} ClassesGrow(rep: seq<nat>, x: nat, y: nat)
    requires x <= y <= |rep|
    ensures ClassesBefore(rep, x) <= ClassesBefore(rep, y)
    ensures x < y && IsFirst(rep, x) ==> ClassesBefore(rep, x) < ClassesBefore(rep, y)
  {
    if x < y {
      ClassesGrow(rep, x, y - 1);
    }
  }

  /** The first item of x's class, looking from k on. */
  function FirstOf(rep: seq<nat>, x: nat, k: nat): (f: nat)
    requires k <= x < |rep| && forall j :: 0 <= j < k ==> rep[j] != rep[x]
    ensures f <= x && rep[f] == rep[x] && IsFirst(rep, f)
    decreases x - k
  {
    if rep[k] == rep[x] then k else FirstOf(rep, x, k + 1)
  }

  /** The number of x's class, in order of first occurrence. */
  function ClassOf(rep: seq<nat>, x: nat): nat
    requires x < |rep|
  {
    ClassesBefore(rep, FirstOf(rep, x, 0))
  }

  /** Items have the same class number exactly if they have the same root. */
  lemma SameClass(rep: seq<nat>, x: nat, y: nat)
    requires x < |rep| && y < |rep|
    ensures ClassOf(rep, x) == ClassOf(rep, y) <==> rep[x] == rep[y]
    ensures ClassOf(rep, x) < ClassesBefore(rep, |rep|)
  {
    var a, b := FirstOf(rep, x, 0), FirstOf(rep, y, 0);
    ClassesGrow(rep, a, |rep|);
    if a < b {
      ClassesGrow(rep, a, b);
    } else if b < a {
      ClassesGrow(rep, b, a);
    }
  }

  /** A first item's class is the next number; another item has that of its class's first. */
  lemma ClassAt(rep: seq<nat>, x: nat)
    requires x < |rep|
    ensures IsFirst(rep, x) ==> ClassOf(rep, x) == ClassesBefore(rep, x)
    ensures !IsFirst(rep, x) ==> ClassOf(rep, x) < ClassesBefore(rep, x)
    ensures ClassesBefore(rep, x + 1) == ClassesBefore(rep, x) + if IsFirst(rep, x) then 1 else 0
  {
    var f := FirstOf(rep, x, 0);
    if IsFirst(rep, x) {
      assert f == x;
    } else {
      ClassesGrow(rep, f, x);
    }
  }

  /** The first item of class c. */
  lemma {:induction false} FirstWith(rep: seq<nat>, n: nat, c: nat) returns (y: nat)
    requires n <= |rep| && c < ClassesBefore(rep, n)
    ensures y < n && IsFirst(rep, y) && ClassesBefore(rep, y) == c == ClassOf(rep, y)
  {
    if c < ClassesBefore(rep, n - 1) {
      y := FirstWith(rep, n - 1, c);
    } else {
      y := n - 1;
      ClassAt(rep, y);
    }
  }

  /** The class numbered before occurs before. */
  lemma PreviousClass(rep: seq<nat>, x: nat) returns (y: nat)
    requires x < |rep| && ClassOf(rep, x) > 0
    ensures y < x && ClassOf(rep, y) == ClassOf(rep, x) - 1
  {
    var f := FirstOf(rep, x, 0);
    y := FirstWith(rep, f, ClassesBefore(rep, f) - 1);
  }

  /** Class numbers by root, for the roots of the items before x. */
  ghost predicate Numbered(rep: seq<nat>, ids: map<nat, nat>, x: nat)
    requires x <= |rep|
  {
    && (forall j :: 0 <= j < x ==> rep[j] in ids && ids[rep[j]] == ClassOf(rep, j))
    && (forall r :: r in ids ==> exists j :: 0 <= j < x && rep[j] == r)
  }

  lemma NumberedNext(rep: seq<nat>, ids: map<nat, nat>, x: nat)
    requires x < |rep| && Numbered(rep, ids, x)
    ensures rep[x] in ids ==> ids[rep[x]] == ClassOf(rep, x) && Numbered(rep, ids, x + 1)
                              && ClassesBefore(rep, x + 1) == ClassesBefore(rep, x) && ClassOf(rep, x) < ClassesBefore(rep, x)
    ensures rep[x] !in ids ==> ClassOf(rep, x) == ClassesBefore(rep, x) && Numbered(rep, ids[rep[x] := ClassesBefore(rep, x)], x + 1)
                               && ClassesBefore(rep, x + 1) == ClassesBefore(rep, x) + 1
  {
    hide ClassesBefore, ClassOf, IsFirst;
    ClassAt(rep, x);
    if rep[x] in ids {
      var j :| 0 <= j < x && rep[j] == rep[x];
      SameClass(rep, j, x);
      NotFirst(rep, j, x);
    } else {
      OnlyFirst(rep, x);
      forall j | 0 <= j < x
        ensures rep[j] != rep[x]
      {
      }
    }
  }

  lemma NotFirst(rep: seq<nat>, j: nat, x: nat)
    requires j < x < |rep| && rep[j] == rep[x]
    ensures !IsFirst(rep, x)
  {
  }

  lemma OnlyFirst(rep: seq<nat>, x: nat)
    requires x < |rep|
    ensures (forall j :: 0 <= j < x ==> rep[j] != rep[x]) ==> IsFirst(rep, x)
  {
  }

  // ----- The disjoint set -----

  class StaticDisjointSet {
    const size: nat
    const parents: array<nat>
    const ranks: array<nat>
    var dimension: nat
    ghost var rep: seq<nat>
    ghost var level: seq<nat>
    ghost var top: nat
    ghost var unions: seq<(nat, nat)>

    ghost predicate Valid()
      reads this, parents, ranks
    {
      && parents != ranks && parents.Length == ranks.Length == size == |rep|
      && Rooted(parents[..], rep, level, top)
      && Faithful(rep, unions)
      && dimension == |Roots(rep)|
    }

    constructor (size: nat)
      ensures Valid() && this.size == size && unions == []
      ensures parents[..] == rep == Upto(size) && ranks[..] == seq(size, _ => 0)
      ensures fresh(parents) && fresh(ranks)
    {
      hide Rooted, Faithful, Roots;
      this.size := size;
      dimension := size;
      parents := new nat[size](i requires 0 <= i => i);
      ranks := new nat[size](_ => 0);
      rep := Upto(size);
      level := seq(size, _ => 0);
      top := 0;
      unions := [];
      new;
      assert parents[..] == Upto(size);
      EachAlone(size);
    }

    static lemma EachAlone(n: nat)
      ensures Rooted(Upto(n), Upto(n), seq(n, _ => 0), 0) && Faithful(Upto(n), []) && |Roots(Upto(n))| == n
    {
      DistinctSize(Upto(n));
      assert Roots(Upto(n)) == SetOf(Upto(n));
    }

    /** The root of an item; the items on the way are attached to it directly. */
    method Find(item: nat) returns (y: nat)
      requires Valid() && item < size
      modifies parents
      ensures Valid() && y == rep[item] && Compression(old(parents[..]), parents[..], item, y)
    {
      hide Rooted, Faithful, Roots;
      y := item;
      InRange();
      while true
        invariant Valid() && 0 <= y < size == |level| && rep[y] == rep[item] && level[y] <= top
        invariant parents[..] == old(parents[..])
        decreases top - level[y]
      {
        var c := parents[y];
        StepUp(parents[..], rep, level, top, y);
        if y == c {
          break;
        }
        y := c;
      }
      Compress(item, y);
    }

    /** Attaches the items on the way to the root. */
    method Compress(item: nat, y: nat)
      requires Rooted(parents[..], rep, level, top) && item < |rep| && y == rep[item]
      modifies parents
      ensures Rooted(parents[..], rep, level, top) && Compression(old(parents[..]), parents[..], item, y)
    {
      hide *;
      ghost var was := parents[..];
      ghost var path := [item];
      var x := item;
      CompressingStarts(was, rep, level, top, item);
      while true
        invariant 0 <= x < parents.Length && Compressing(was, parents[..], rep, level, top, path, item, x, y)
        decreases top - level[x]
      {
        var p := parents[x];
        CompressStep(was, parents[..], rep, level, top, path, item, x, y, p);
        if p == y {
          break;
        }
        ghost var before := parents[..];
        parents[x] := y;
        assert parents[..] == before[x := y];
        path := path + [p];
        x := p;
      }
    }

    static lemma StepUp(parents: seq<nat>, rep: seq<nat>, level: seq<nat>, top: nat, x: nat)
      requires Rooted(parents, rep, level, top) && x < |rep|
      ensures parents[x] < |rep| && rep[parents[x]] == rep[x] && level[parents[x]] <= top
      ensures parents[x] == x ==> rep[x] == x
      ensures parents[x] != x ==> level[x] < level[parents[x]]
    {
    }

    static lemma Compressed(parents: seq<nat>, rep: seq<nat>, level: seq<nat>, top: nat, x: nat)
      requires Rooted(parents, rep, level, top) && x < |rep| && parents[x] != rep[x]
      ensures rep[x] < |rep| && Rooted(parents[x := rep[x]], rep, level, top)
    {
    }

    /** Compression under way: the items of the path before x are attached to the root. */
    static ghost predicate OnTheWay(was: seq<nat>, parents: seq<nat>, level: seq<nat>, path: seq<nat>, item: nat, x: nat, y: nat) {
      && Climbs(was, path) && path[0] == item && path[|path| - 1] == x && |was| == |level|
      && (forall i :: 0 <= i < |path| - 1 ==> level[path[i]] < level[x])
      && parents == Flattened(was, path[..|path| - 1], y)
    }

    static ghost predicate Compressing(was: seq<nat>, parents: seq<nat>, rep: seq<nat>, level: seq<nat>, top: nat, path: seq<nat>,
                                       item: nat, x: nat, y: nat) {
      Rooted(parents, rep, level, top) && x < |rep| && rep[x] == y && OnTheWay(was, parents, level, path, item, x, y)
    }

    static lemma CompressingStarts(was: seq<nat>, rep: seq<nat>, level: seq<nat>, top: nat, item: nat)
      requires Rooted(was, rep, level, top) && item < |rep|
      ensures |level| == |rep| == |was| && Compressing(was, was, rep, level, top, [item], item, item, rep[item])
    {
      assert |was| == |rep|;
      hide Rooted, OnTheWay;
      OnTheWayStarts(was, rep, level, top, item);
    }

    static lemma CompressStep(was: seq<nat>, parents: seq<nat>, rep: seq<nat>, level: seq<nat>, top: nat, path: seq<nat>,
                              item: nat, x: nat, y: nat, p: nat)
      requires Compressing(was, parents, rep, level, top, path, item, x, y) && x < |parents| && p == parents[x]
      ensures Rooted(parents, rep, level, top) && |level| == |parents|
      ensures p == y ==> Compression(was, parents, item, y)
      ensures p != y ==> y < |parents| && p < |parents| && level[x] < level[p] <= top
                         && Compressing(was, parents[x := y], rep, level, top, path + [p], item, p, y)
    {
      StepUp(parents, rep, level, top, x);
      assert |level| == |parents| == |rep|;
      hide Rooted, OnTheWay, Compression;
      if p == y {
        WayEnds(was, parents, rep, level, top, path, item, x);
      } else {
        Compressed(parents, rep, level, top, x);
        WayGoesOn(was, parents, rep, level, top, path, item, x, p);
      }
    }

    static lemma OnTheWayStarts(was: seq<nat>, rep: seq<nat>, level: seq<nat>, top: nat, item: nat)
      requires Rooted(was, rep, level, top) && item < |was|
      ensures OnTheWay(was, was, level, [item], item, item, rep[item])
    {
      var y := rep[item];
      assert |was| == |level|;
      hide Rooted;
      assert [item][..0] == [];
      assert Flattened(was, [], y) == was;
    }

    static lemma NotYetOnTheWay(was: seq<nat>, parents: seq<nat>, level: seq<nat>, path: seq<nat>, item: nat, x: nat, y: nat)
      requires OnTheWay(was, parents, level, path, item, x, y)
      ensures x < |was| == |parents| && parents[x] == was[x]
    {
    }

    static lemma WayGoesOn(was: seq<nat>, parents: seq<nat>, rep: seq<nat>, level: seq<nat>, top: nat, path: seq<nat>, item: nat, x: nat, p: nat)
      requires Rooted(parents, rep, level, top) && x < |rep| && p == parents[x]
      requires OnTheWay(was, parents, level, path, item, x, rep[x]) && p != rep[x]
      ensures OnTheWay(was, parents[x := rep[x]], level, path + [p], item, p, rep[x])
    {
      StepUp(parents, rep, level, top, x);
      assert |rep| == |parents| && p != x && level[x] < level[p];
      hide Rooted;
      NotYetOnTheWay(was, parents, level, path, item, x, rep[x]);
      ClimbsOn(was, path, p);
      hide Climbs;
      OneMoreFlattened(was, parents, path, x, rep[x]);
      hide Flattened;
      assert (path + [p])[..|path|] == path;
    }

    static lemma OneMoreFlattened(was: seq<nat>, parents: seq<nat>, path: seq<nat>, x: nat, y: nat)
      requires path != [] && path[|path| - 1] == x < |was| && parents == Flattened(was, path[..|path| - 1], y)
      ensures parents[x := y] == Flattened(was, path, y)
    {
      assert path == path[..|path| - 1] + [x];
    }

    static lemma WayEnds(was: seq<nat>, parents: seq<nat>, rep: seq<nat>, level: seq<nat>, top: nat, path: seq<nat>, item: nat, x: nat)
      requires Rooted(parents, rep, level, top) && x < |rep|
      requires OnTheWay(was, parents, level, path, item, x, rep[x]) && parents[x] == rep[x]
      ensures Compression(was, parents, item, rep[x])
    {
      hide Rooted;
      var y, n := rep[x], |path| - 1;
      RootOfWay(was, parents, rep, level, top, path, item, x);
      if x == y {
        assert path == path[..n] + [x];
        assert parents == Flattened(was, path, y);
        assert ClimbsToRoot(was, path);
      } else {
        ToRootAtLast(was, parents, path, x, y);
      }
    }

    /** The last step of a way up, which compression leaves as it is. */
    static lemma ToRootAtLast(was: seq<nat>, parents: seq<nat>, path: seq<nat>, x: nat, y: nat)
      requires Climbs(was, path) && path[|path| - 1] == x != y && was[x] == y < |was| && was[y] == y
      requires parents == Flattened(was, path[..|path| - 1], y)
      ensures Compression(was, parents, path[0], y)
    {
      var path' := path + [y];
      ClimbsOn(was, path, y);
      hide Climbs;
      assert path' == path[..|path| - 1] + [x] + [y];
      assert parents == Flattened(was, path', y);
      assert ClimbsToRoot(was, path');
    }

    static lemma RootOfWay(was: seq<nat>, parents: seq<nat>, rep: seq<nat>, level: seq<nat>, top: nat, path: seq<nat>, item: nat, x: nat)
      requires Rooted(parents, rep, level, top) && x < |rep|
      requires OnTheWay(was, parents, level, path, item, x, rep[x]) && parents[x] == rep[x]
      ensures was[x] == rep[x] < |was| && was[rep[x]] == rep[x]
    {
      hide Climbs;
    }

    /** Merges the classes of two items. */
    method Union(x: nat, y: nat)
      requires Valid() && x < size && y < size
      modifies this, parents, ranks
      ensures Valid() && unions == old(unions) + [(x, y)]
      ensures dimension == if old(rep[x] == rep[y]) then old(dimension) else old(dimension) - 1
      ensures rep == Joined(old(rep), old(ranks[..]), x, y)
      ensures United(old(parents[..]), old(ranks[..]), parents[..], ranks[..], x, y, old(rep[x]), old(rep[y]))
    {
      hide Faithful, Rooted, Roots, Compression, Merged;
      InRange();
      var xRoot := Find(x);
      ghost var a := parents[..];
      var yRoot := Find(y);
      ghost var b := parents[..];
      // x and y are already in the same set
      if xRoot == yRoot {
        Already(x, y);
        assert Attached(b, old(ranks[..]), parents[..], ranks[..], x, y, xRoot, yRoot);
        return;
      }
      FewerRoots(rep, xRoot, yRoot);
      dimension := dimension - 1;
      // x and y are not in the same set, we merge them
      var xRank, yRank := ranks[x], ranks[y];
      if xRank < yRank {
        Attach(x, y, xRoot, yRoot);
      } else if xRank > yRank {
        Attach(x, y, yRoot, xRoot);
      } else {
        Attach(x, y, yRoot, xRoot);
        ranks[xRoot] := (ranks[xRoot] + 1) % 256;
      }
      assert Attached(b, old(ranks[..]), parents[..], ranks[..], x, y, xRoot, yRoot);
    }

    lemma InRange()
      requires Valid()
      ensures |level| == |rep| == size && forall i :: 0 <= i < size ==> rep[i] < size && rep[rep[i]] == rep[i] && level[i] <= top
    {
    }

    /** A union of items that are in the same class already. */
    ghost method Already(x: nat, y: nat)
      requires Valid() && x < size && y < size && rep[x] == rep[y]
      modifies this`unions
      ensures Valid() && unions == old(unions) + [(x, y)]
    {
      hide Rooted, Roots;
      MergedIsFaithful(rep, unions, x, y, rep[x], rep[x]);
      assert Merged(rep, rep[x], rep[x]) == rep;
      unions := unions + [(x, y)];
    }

    /** Makes one root the parent of the other. */
    method Attach(ghost x: nat, ghost y: nat, from: nat, to: nat)
      requires parents != ranks && parents.Length == ranks.Length == size == |rep| && x < size && y < size
      requires Rooted(parents[..], rep, level, top) && Faithful(rep, unions) && dimension + 1 == |Roots(rep)|
      requires from < size && to < size == |level| && rep[from] == from && rep[to] == to
      requires from != to && ((from == rep[x] && to == rep[y]) || (from == rep[y] && to == rep[x]))
      modifies parents, this`rep, this`level, this`top, this`unions
      ensures Valid() && unions == old(unions) + [(x, y)]
      ensures rep == Merged(old(rep), from, to) && parents[..] == old(parents[..])[from := to]
    {
      hide Faithful, Roots, Rooted;
      ghost var rep', level', was := Merged(rep, from, to), level[to := level[from] + level[to] + 1], parents[..];
      MergedIsFaithful(rep, unions, x, y, from, to);
      MergedIsRooted(was, rep, level, top, from, to);
      FewerRoots(rep, from, to);
      parents[from] := to;
      assert parents[..] == was[from := to];
      Become(rep', level', 2 * top + 1, unions + [(x, y)]);
    }

    ghost method Become(rep': seq<nat>, level': seq<nat>, top': nat, unions': seq<(nat, nat)>)
      requires parents != ranks && parents.Length == ranks.Length == size == |rep'|
      requires Rooted(parents[..], rep', level', top') && Faithful(rep', unions') && dimension == |Roots(rep')|
      modifies this`rep, this`level, this`top, this`unions
      ensures Valid() && unions == unions' && rep == rep'
    {
      hide Faithful, Roots, Rooted;
      rep, level, top, unions := rep', level', top', unions';
    }

    /** Whether the unions connect two items. */
    method AreConnected(x: nat, y: nat) returns (connected: bool)
      requires Valid() && x < size && y < size
      modifies parents
      ensures Valid() && connected == Connected(unions, x, y)
    {
      hide Rooted, Roots, Compression;
      SameRootIffConnected(rep, unions, x, y);
      var xRoot := Find(x);
      var yRoot := Find(y);
      connected := xRoot == yRoot;
    }

    /** The class number of every item, numbering the classes in order of first occurrence. */
    method Mapping() returns (mapping: array<nat>)
      requires Valid()
      modifies parents
      ensures Valid() && mapping.Length == size && fresh(mapping)
      ensures forall x :: 0 <= x < size ==> mapping[x] == ClassOf(rep, x) < dimension
      ensures forall x, y :: 0 <= x < size && 0 <= y < size ==> (mapping[x] == mapping[y] <==> Connected(unions, x, y))
      ensures forall x :: 0 <= x < size && mapping[x] > 0 ==> exists y :: 0 <= y < x && mapping[y] == mapping[x] - 1
      ensures size > 0 ==> exists x :: 0 <= x < size && mapping[x] == dimension - 1
    {
      hide Faithful, Rooted, Roots, Compression, ClassesBefore, ClassOf, IsFirst;
      var ids: map<nat, nat>, c, i := map[], 0, 0;
      mapping := new nat[size](_ => 0);
      NothingBefore(rep);
      while i < size
        invariant 0 <= i <= size && Valid() && Numbered(rep, ids, i) && c == ClassesBefore(rep, i)
        invariant forall x :: 0 <= x < i ==> mapping[x] == ClassOf(rep, x)
      {
        var r := Find(i);
        NumberedNext(rep, ids, i);
        if r !in ids {
          mapping[i] := c;
          ids := ids[r := c];
          c := c + 1;
        } else {
          mapping[i] := ids[r];
        }
        i := i + 1;
      }
      AllClasses();
      NumbersClasses(mapping[..]);
    }

    /** Numbers are shared exactly by connected items, and each first occurs after the number before it. */
    lemma NumbersClasses(mapping: seq<nat>)
      requires Valid() && |mapping| == size && forall x :: 0 <= x < size ==> mapping[x] == ClassOf(rep, x)
      ensures forall x, y :: 0 <= x < size && 0 <= y < size ==> (mapping[x] == mapping[y] <==> Connected(unions, x, y))
      ensures forall x :: 0 <= x < size && mapping[x] > 0 ==> exists y :: 0 <= y < x && mapping[y] == mapping[x] - 1
      ensures size > 0 ==> exists x :: 0 <= x < size && mapping[x] == dimension - 1
    {
      hide ClassOf, Connected, Faithful, Rooted, Roots, ClassesBefore, IsFirst;
      forall x, y | 0 <= x < size && 0 <= y < size
        ensures mapping[x] == mapping[y] <==> Connected(unions, x, y)
      {
        ClassesAreConnected(rep, unions, x, y);
      }
      forall x | 0 <= x < size && mapping[x] > 0
        ensures exists y :: 0 <= y < x && mapping[y] == mapping[x] - 1
      {
        var y := PreviousClass(rep, x);
      }
      if size > 0 {
        AllClasses();
        assert ClassOf(rep, 0) < dimension;
        var x := FirstWith(rep, size, dimension - 1);
      }
    }

    static lemma NothingBefore(rep: seq<nat>)
      ensures ClassesBefore(rep, 0) == 0
    {
    }

    lemma AllClasses()
      requires Valid()
      ensures ClassesBefore(rep, size) == dimension
      ensures forall x :: 0 <= x < size ==> ClassOf(rep, x) < dimension
    {
      ClassesAreRoots(rep, size);
      assert rep[..size] == rep;
      forall x | 0 <= x < size
        ensures ClassOf(rep, x) < dimension
      {
        SameClass(rep, x, x);
      }
    }

    /** The classes in order of first occurrence, the items of each in ascending order. */
    method Compile() returns (result: seq<seq<nat>>)
      requires Valid()
      modifies parents
      ensures Valid() && |result| == dimension && IsPartition(result, rep, size)
      ensures forall k :: 0 <= k < |result| ==> result[k] != [] && forall i, j :: 0 <= i < j < |result[k]| ==> result[k][i] < result[k][j]
      ensures forall k, m :: 0 <= k < m < |result| ==> result[k][0] < result[m][0]
      ensures forall k, x, y: nat :: 0 <= k < |result| && x in result[k] ==>
                x < size && (y in result[k] <==> y < size && Connected(unions, x, y))
      ensures forall x :: x in All(size) <==> exists k :: 0 <= k < |result| && x in result[k]
    {
      hide Faithful, Rooted, Roots, Compression, ClassesBefore, ClassOf, IsFirst;
      var ids: map<nat, nat>, c, i := map[], 0, 0;
      result := [];
      NothingBefore(rep);
      while i < size
        invariant 0 <= i <= size && Valid() && Numbered(rep, ids, i) && |result| == c == ClassesBefore(rep, i)
        invariant IsPartition(result, rep, i)
      {
        var r := Find(i);
        NumberedNext(rep, ids, i);
        PartitionGrows(result, rep, i);
        if r !in ids {
          result := result + [[i]];
          ids := ids[r := c];
          c := c + 1;
        } else {
          result := result[ids[r] := result[ids[r]] + [i]];
        }
        i := i + 1;
      }
      AllClasses();
      ListsClasses(result);
    }

    /** The lists are the classes, in order of their first items. */
    lemma ListsClasses(result: seq<seq<nat>>)
      requires Valid() && |result| == dimension && IsPartition(result, rep, size)
      ensures forall k :: 0 <= k < |result| ==> result[k] != [] && forall i, j :: 0 <= i < j < |result[k]| ==> result[k][i] < result[k][j]
      ensures forall k, m :: 0 <= k < m < |result| ==> result[k][0] < result[m][0]
      ensures forall k, x, y: nat :: 0 <= k < |result| && x in result[k] ==>
                x < size && (y in result[k] <==> y < size && Connected(unions, x, y))
      ensures forall x :: x in All(size) <==> exists k :: 0 <= k < |result| && x in result[k]
    {
      hide ClassOf, Connected, Faithful, Rooted, Roots, ClassesBefore, IsFirst;
      AllClasses();
      forall k | 0 <= k < |result|
        ensures result[k] != [] && result[k][0] < |rep| && ClassesBefore(rep, result[k][0]) == k
      {
        FirstOfList(result[k], rep, k);
      }
      forall k, m | 0 <= k < m < |result|
        ensures result[k][0] < result[m][0]
      {
        if result[m][0] <= result[k][0] {
          ClassesGrow(rep, result[m][0], result[k][0]);
        }
      }
      forall k, x, y: nat | 0 <= k < |result| && x in result[k]
        ensures x < size && (y in result[k] <==> y < size && Connected(unions, x, y))
      {
        assert ListsClass(result[k], rep, size, k);
        if y < size {
          ClassesAreConnected(rep, unions, x, y);
        }
      }
      forall x | x in All(size)
        ensures exists k :: 0 <= k < |result| && x in result[k]
      {
        assert ListsClass(result[ClassOf(rep, x)], rep, size, ClassOf(rep, x));
        assert x in result[ClassOf(rep, x)];
      }
    }
  }

  lemma FirstOfList(members: seq<nat>, rep: seq<nat>, k: nat)
    requires ListsClass(members, rep, |rep|, k) && k < ClassesBefore(rep, |rep|)
    ensures members != [] && members[0] < |rep| && ClassesBefore(rep, members[0]) == k
  {
    var y := FirstWith(rep, |rep|, k);
    hide ClassesBefore, ClassOf;
    assert y in members;
    var i :| 0 <= i < |members| && members[i] == y;
    assert members[0] in members;
    SameClass(rep, members[0], y);
  }

  /** Class k lists the items before x that have class number k, in ascending order. */
  ghost predicate IsPartition(result: seq<seq<nat>>, rep: seq<nat>, x: nat)
    requires x <= |rep|
  {
    && (forall j :: 0 <= j < x ==> ClassOf(rep, j) < |result|)
    && forall k :: 0 <= k < |result| ==> ListsClass(result[k], rep, x, k)
  }

  ghost predicate ListsClass(members: seq<nat>, rep: seq<nat>, x: nat, k: nat)
    requires x <= |rep|
  {
    && (forall p, q :: 0 <= p < q < |members| ==> members[p] < members[q])
    && (forall j: nat :: j in members <==> j < x && ClassOf(rep, j) == k)
  }

  lemma PartitionGrows(result: seq<seq<nat>>, rep: seq<nat>, x: nat)
    requires x < |rep| && IsPartition(result, rep, x)
    ensures ClassOf(rep, x) == |result| ==> IsPartition(result + [[x]], rep, x + 1)
    ensures ClassOf(rep, x) < |result| ==>
              IsPartition(result[ClassOf(rep, x) := result[ClassOf(rep, x)] + [x]], rep, x + 1)
  {
    hide ClassOf;
    var c := ClassOf(rep, x);
    if c == |result| {
      forall k | 0 <= k <= c
        ensures ListsClass((result + [[x]])[k], rep, x + 1, k)
      {
      }
    } else if c < |result| {
      forall k {:trigger result[k]} | 0 <= k < |result|
        ensures ListsClass(result[c := result[c] + [x]][k], rep, x + 1, k)
      {
        assert ListsClass(result[k], rep, x, k);
        if k == c {
          MemberLast(result[c], rep, x, c);
        }
      }
    }
  }

  lemma MemberLast(members: seq<nat>, rep: seq<nat>, x: nat, c: nat)
    requires x < |rep| && ListsClass(members, rep, x, c) && ClassOf(rep, x) == c
    ensures ListsClass(members + [x], rep, x + 1, c)
  {
    hide ClassOf;
    forall p | 0 <= p < |members|
      ensures members[p] < x
    {
      assert members[p] in members;
    }
  }

  /** Items have the same class number exactly if the unions connect them. */
  lemma ClassesAreConnected(rep: seq<nat>, unions: seq<(nat, nat)>, x: nat, y: nat)
    requires Faithful(rep, unions) && x < |rep| && y < |rep|
    ensures ClassOf(rep, x) == ClassOf(rep, y) <==> Connected(unions, x, y)
  {
    SameClass(rep, x, y);
    SameRootIffConnected(rep, unions, x, y);
  }
}
