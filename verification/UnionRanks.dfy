/**
 * What the ranks of the disjoint set are worth. Union reads them at its items and not at their roots: called at
 * roots it keeps every way up logarithmic, called at other items it may build ways of any length with ranks below 2.
 */
module UnionRanks {
  import opened QuickSort
  import opened IndexSets
  import opened StaticDisjointSets

  // ----- Ranks that rise towards the roots -----

  /** The parents lead an item to its root. */
  ghost predicate TreeAt(parents: seq<nat>, rep: seq<nat>, i: nat)
    requires |parents| == |rep| && i < |rep|
  {
    && parents[i] < |rep| && rep[i] < |rep|
    && (parents[i] == i <==> rep[i] == i)
    && rep[parents[i]] == rep[i] && rep[rep[i]] == rep[i]
  }

  ghost predicate RisesAt(parents: seq<nat>, ranks: seq<nat>, rep: seq<nat>, i: nat)
    requires |parents| == |rep| == |ranks| && i < |rep|
  {
    && TreeAt(parents, rep, i) && ranks[i] < 256
    && (parents[i] != i ==> ranks[i] < ranks[parents[i]] && ranks[i] < ranks[rep[i]])
  }

  /** Every item that is not a root has a lower rank than its parent and its root. */
  ghost predicate Rising(parents: seq<nat>, ranks: seq<nat>, rep: seq<nat>) {
    |parents| == |rep| == |ranks| && forall i :: 0 <= i < |rep| ==> RisesAt(parents, ranks, rep, i)
  }

  ghost function Members(rep: seq<nat>, root: nat): set<nat> {
    set i | 0 <= i < |rep| && rep[i] == root
  }

  /** The class of a root of rank r has at least 2^r items. */
  ghost predicate Weighted(ranks: seq<nat>, rep: seq<nat>) {
    |ranks| == |rep| && forall i :: 0 <= i < |rep| && rep[i] == i ==> Pow2(ranks[i]) <= |Members(rep, i)|
  }

  lemma StartsRanked(n: nat)
    ensures Rising(Upto(n), seq(n, _ => 0), Upto(n)) && Weighted(seq(n, _ => 0), Upto(n))
  {
    forall i | 0 <= i < n
      ensures Pow2(0) <= |Members(Upto(n), i)|
    {
      assert i in Members(Upto(n), i);
    }
  }

  /** Compression keeps ranks rising. */
  lemma CompressionKeepsRising(parents: seq<nat>, parents': seq<nat>, ranks: seq<nat>, rep: seq<nat>, item: nat)
    requires Rising(parents, ranks, rep) && item < |rep| && Compression(parents, parents', item, rep[item])
    ensures Rising(parents', ranks, rep)
  {
    var path :| ClimbsToRoot(parents, path) && path[0] == item && path[|path| - 1] == rep[item]
                && parents' == Flattened(parents, path, rep[item]);
    forall i | 0 <= i < |rep|
      ensures RisesAt(parents', ranks, rep, i)
    {
      assert RisesAt(parents, ranks, rep, i);
      if i in path {
        var k :| 0 <= k < |path| && path[k] == i;
        SameRootOnTheWay(parents, ranks, rep, path, k);
      }
    }
  }

  lemma {:induction false} SameRootOnTheWay(parents: seq<nat>, ranks: seq<nat>, rep: seq<nat>, path: seq<nat>, k: nat)
    requires Rising(parents, ranks, rep) && Climbs(parents, path) && k < |path|
    ensures rep[path[k]] == rep[path[0]]
  {
    if k > 0 {
      SameRootOnTheWay(parents, ranks, rep, path, k - 1);
      assert StepsUp(parents, path, k - 1);
      assert RisesAt(parents, ranks, rep, path[k - 1]);
    }
  }

  // ----- What rising ranks give -----

  lemma ClimbedBefore(parents: seq<nat>, path: seq<nat>)
    requires Climbs(parents, path) && |path| > 1
    ensures Climbs(parents, path[..|path| - 1]) && StepsUp(parents, path, |path| - 2)
  {
    var before := path[..|path| - 1];
    forall i | 0 <= i < |before| - 1
      ensures StepsUp(parents, before, i)
    {
      assert StepsUp(parents, path, i);
    }
  }

  lemma {:induction false} RisingBoundsWays(parents: seq<nat>, ranks: seq<nat>, rep: seq<nat>, path: seq<nat>)
    requires Rising(parents, ranks, rep) && Climbs(parents, path)
    ensures ranks[path[0]] + |path| - 1 <= ranks[path[|path| - 1]]
  {
    var n := |path| - 1;
    if n > 0 {
      assert path[..n][n - 1] == path[n - 1];
      ClimbedBefore(parents, path);
      RisingBoundsWays(parents, ranks, rep, path[..n]);
      assert RisesAt(parents, ranks, rep, path[n - 1]);
    }
  }

  /** With rising ranks and weighted classes the way up from any item is at most logarithmic in the number of items. */
  lemma WaysAreLogarithmic(parents: seq<nat>, ranks: seq<nat>, rep: seq<nat>, path: seq<nat>)
    requires Rising(parents, ranks, rep) && Weighted(ranks, rep) && ClimbsToRoot(parents, path)
    ensures Pow2(|path| - 1) <= |rep|
  {
    var root := path[|path| - 1];
    RisingBoundsWays(parents, ranks, rep, path);
    assert RisesAt(parents, ranks, rep, root);
    Pow2Grows(|path| - 1, ranks[root]);
    MembersFit(rep, root);
  }

  lemma MembersFit(rep: seq<nat>, root: nat)
    ensures |Members(rep, root)| <= |rep|
  {
    assert Members(rep, root) <= All(|rep|);
    AllSize(|rep|);
    SmallerSet(Members(rep, root), All(|rep|));
  }

  lemma SmallerSet(a: set<nat>, b: set<nat>)
    requires a <= b
    ensures |a| <= |b|
  {
    assert b == a + (b - a);
  }

  // ----- When a union keeps them rising -----

  /** The comparison that Union makes at the items comes out for their roots, too. */
  predicate RootsAgree(ranks: seq<nat>, x: nat, y: nat, xRoot: nat, yRoot: nat)
    requires x < |ranks| && y < |ranks| && xRoot < |ranks| && yRoot < |ranks|
  {
    if ranks[x] < ranks[y] then ranks[xRoot] < ranks[yRoot]
    else if ranks[x] > ranks[y] then ranks[yRoot] < ranks[xRoot]
    else ranks[yRoot] < (ranks[xRoot] + 1) % 256
  }

  /** A union keeps ranks rising exactly if its items are in one class already or their roots agree with them. */
  lemma UnionKeepsRisingIff(parents: seq<nat>, ranks: seq<nat>, rep: seq<nat>, parents': seq<nat>, ranks': seq<nat>, x: nat, y: nat)
    requires Rising(parents, ranks, rep) && x < |rep| && y < |rep| && rep[x] < |rep| && rep[y] < |rep|
    requires United(parents, ranks, parents', ranks', x, y, rep[x], rep[y])
    ensures Rising(parents', ranks', Joined(rep, ranks, x, y)) <==> rep[x] == rep[y] || RootsAgree(ranks, x, y, rep[x], rep[y])
  {
    var a, b :| Compression(parents, a, x, rep[x]) && Compression(a, b, y, rep[y]) && |b| == |ranks|
                && Attached(b, ranks, parents', ranks', x, y, rep[x], rep[y]);
    CompressionKeepsRising(parents, a, ranks, rep, x);
    CompressionKeepsRising(a, b, ranks, rep, y);
    hide Compression, Rising;
    if rep[x] != rep[y] {
      hide Joined;
      AttachedKeepsRisingIff(b, ranks, rep, parents', ranks', x, y);
    }
  }

  lemma AttachedKeepsRisingIff(parents: seq<nat>, ranks: seq<nat>, rep: seq<nat>, parents': seq<nat>, ranks': seq<nat>, x: nat, y: nat)
    requires Rising(parents, ranks, rep) && x < |rep| && y < |rep|
    requires rep[x] < |rep| && rep[y] < |rep| && rep[x] != rep[y]
    requires Attached(parents, ranks, parents', ranks', x, y, rep[x], rep[y])
    ensures Rising(parents', ranks', Joined(rep, ranks, x, y)) <==> RootsAgree(ranks, x, y, rep[x], rep[y])
  {
    var xRoot, yRoot := rep[x], rep[y];
    assert RisesAt(parents, ranks, rep, x) && RisesAt(parents, ranks, rep, y);
    hide Rising, Merged, RisesAt;
    if ranks[x] < ranks[y] {
      AttachKeepsRisingIff(parents, ranks, rep, xRoot, yRoot, ranks[yRoot]);
      assert ranks[yRoot := ranks[yRoot]] == ranks;
    } else if ranks[x] > ranks[y] {
      AttachKeepsRisingIff(parents, ranks, rep, yRoot, xRoot, ranks[xRoot]);
      assert ranks[xRoot := ranks[xRoot]] == ranks;
    } else {
      AttachKeepsRisingIff(parents, ranks, rep, yRoot, xRoot, (ranks[xRoot] + 1) % 256);
    }
  }

  lemma AttachKeepsRisingIff(parents: seq<nat>, ranks: seq<nat>, rep: seq<nat>, from: nat, to: nat, rank: nat)
    requires Rising(parents, ranks, rep)
    requires from < |rep| && to < |rep| && from != to && rep[from] == from && rep[to] == to
    requires rank == ranks[to] || rank == (ranks[to] + 1) % 256
    ensures Rising(parents[from := to], ranks[to := rank], Merged(rep, from, to)) <==> ranks[from] < rank
  {
    var parents', ranks', rep' := parents[from := to], ranks[to := rank], Merged(rep, from, to);
    assert RisesAt(parents, ranks, rep, to);
    if Rising(parents', ranks', rep') {
      assert RisesAt(parents', ranks', rep', from);
    }
    if ranks[from] < rank {
      forall i | 0 <= i < |rep|
        ensures RisesAt(parents', ranks', rep', i)
      {
        assert RisesAt(parents, ranks, rep, i);
      }
    }
  }

  // ----- Unions at roots -----

  /** A union of roots keeps ranks rising and classes weighted, as a byte is wide enough for the ranks. */
  lemma UnionOfRootsKeepsRanks(parents: seq<nat>, ranks: seq<nat>, rep: seq<nat>, parents': seq<nat>, ranks': seq<nat>, x: nat, y: nat)
    requires Rising(parents, ranks, rep) && Weighted(ranks, rep) && |rep| < Pow2(256)
    requires x < |rep| && y < |rep| && rep[x] == x && rep[y] == y
    requires United(parents, ranks, parents', ranks', x, y, x, y)
    ensures Rising(parents', ranks', Joined(rep, ranks, x, y)) && Weighted(ranks', Joined(rep, ranks, x, y))
  {
    UnionKeepsRisingIff(parents, ranks, rep, parents', ranks', x, y);
    assert RisesAt(parents, ranks, rep, x) && RisesAt(parents, ranks, rep, y);
    var a, b :| Compression(parents, a, x, x) && Compression(a, b, y, y) && |b| == |ranks|
                && Attached(b, ranks, parents', ranks', x, y, x, y);
    assert |b| == |rep| && ranks[x] < 256;
    hide *;
    AttachedKeepsWeighted(b, ranks, rep, parents', ranks', x, y);
    if x != y {
      if ranks[x] == ranks[y] {
        ByteSuffices(ranks, rep, x, y);
      }
      AgreeWithThemselves(ranks, x, y);
    }
  }

  lemma AgreeWithThemselves(ranks: seq<nat>, x: nat, y: nat)
    requires x < |ranks| && y < |ranks| && ranks[x] < 256 && (ranks[x] == ranks[y] ==> ranks[x] < 255)
    ensures RootsAgree(ranks, x, y, x, y)
  {
  }

  lemma AttachedKeepsWeighted(parents: seq<nat>, ranks: seq<nat>, rep: seq<nat>, parents': seq<nat>, ranks': seq<nat>, x: nat, y: nat)
    requires Weighted(ranks, rep) && |rep| < Pow2(256) && |parents| == |rep|
    requires x < |rep| == |ranks| && y < |rep| && rep[x] == x && rep[y] == y && Attached(parents, ranks, parents', ranks', x, y, x, y)
    ensures Weighted(ranks', Joined(rep, ranks, x, y))
  {
    hide Weighted, Merged, Pow2;
    if x != y {
      if ranks[x] < ranks[y] {
        MergedIsWeighted(ranks, rep, x, y, ranks[y]);
        assert ranks[y := ranks[y]] == ranks;
      } else if ranks[x] > ranks[y] {
        MergedIsWeighted(ranks, rep, y, x, ranks[x]);
        assert ranks[x := ranks[x]] == ranks;
      } else {
        ByteSuffices(ranks, rep, x, y);
        MergedIsWeighted(ranks, rep, y, x, ranks[x] + 1);
      }
    }
  }

  lemma MembersMerge(rep: seq<nat>, from: nat, to: nat)
    requires from != to
    ensures |Members(Merged(rep, from, to), to)| == |Members(rep, from)| + |Members(rep, to)|
    ensures forall i :: i != from && i != to ==> Members(Merged(rep, from, to), i) == Members(rep, i)
  {
    assert Members(Merged(rep, from, to), to) == Members(rep, from) + Members(rep, to);
    assert Members(rep, from) !! Members(rep, to);
  }

  lemma MergedIsWeighted(ranks: seq<nat>, rep: seq<nat>, from: nat, to: nat, rank: nat)
    requires Weighted(ranks, rep) && from < |rep| && to < |rep| && from != to && rep[from] == from && rep[to] == to
    requires rank == ranks[to] || (rank == ranks[to] + 1 && ranks[from] == ranks[to])
    ensures Weighted(ranks[to := rank], Merged(rep, from, to))
  {
    MembersMerge(rep, from, to);
    assert Pow2(ranks[to] + 1) == 2 * Pow2(ranks[to]);
    hide Members, Pow2;
  }

  lemma ByteSuffices(ranks: seq<nat>, rep: seq<nat>, x: nat, y: nat)
    requires Weighted(ranks, rep) && |rep| < Pow2(256)
    requires x < |rep| && y < |rep| && x != y && rep[x] == x && rep[y] == y && ranks[x] == ranks[y]
    ensures ranks[x] < 255
  {
    MembersMerge(rep, y, x);
    MembersFit(Merged(rep, y, x), x);
    assert Pow2(ranks[x] + 1) == 2 * Pow2(ranks[x]);
    assert Pow2(ranks[x] + 1) <= |rep|;
    hide Pow2;
    if ranks[x] >= 255 {
      Pow2Grows(256, ranks[x] + 1);
    }
  }

  /** Uniting the roots of pairs connects exactly what the pairs connect, and every way up stays logarithmic. */
  method UniteRoots(size: nat, pairs: seq<(nat, nat)>) returns (sets: StaticDisjointSet)
    requires size < Pow2(256) && forall p :: p in pairs ==> p.0 < size && p.1 < size
    ensures fresh(sets) && sets.Valid() && sets.size == size && Faithful(sets.rep, pairs)
    ensures Rising(sets.parents[..], sets.ranks[..], sets.rep) && Weighted(sets.ranks[..], sets.rep)
    ensures forall path :: ClimbsToRoot(sets.parents[..], path) ==> Pow2(|path| - 1) <= size
  {
    hide Rising, Weighted, Compression, United, Pow2, Joined, Rooted, Faithful, Roots;
    sets := new StaticDisjointSet(size);
    StartsRanked(size);
    assert pairs[..0] == [];
    for k := 0 to |pairs|
      invariant fresh(sets) && fresh(sets.parents) && fresh(sets.ranks) && sets.Valid() && sets.size == size
      invariant Rising(sets.parents[..], sets.ranks[..], sets.rep) && Weighted(sets.ranks[..], sets.rep)
      invariant Faithful(sets.rep, pairs[..k])
    {
      UniteRootsOf(sets, pairs[k].0, pairs[k].1, pairs[..k]);
      assert pairs[..k + 1] == pairs[..k] + [(pairs[k].0, pairs[k].1)];
    }
    assert pairs[..|pairs|] == pairs;
    forall path | ClimbsToRoot(sets.parents[..], path)
      ensures Pow2(|path| - 1) <= size
    {
      WaysAreLogarithmic(sets.parents[..], sets.ranks[..], sets.rep, path);
    }
  }

  method UniteRootsOf(sets: StaticDisjointSet, x: nat, y: nat, ghost pairs: seq<(nat, nat)>)
    requires sets.Valid() && x < sets.size && y < sets.size && sets.size < Pow2(256) && Faithful(sets.rep, pairs)
    requires Rising(sets.parents[..], sets.ranks[..], sets.rep) && Weighted(sets.ranks[..], sets.rep)
    modifies sets, sets.parents, sets.ranks
    ensures sets.Valid() && Faithful(sets.rep, pairs + [(x, y)])
    ensures Rising(sets.parents[..], sets.ranks[..], sets.rep) && Weighted(sets.ranks[..], sets.rep)
  {
    hide Rising, Weighted, Compression, United, Pow2, Joined, Rooted, Faithful, Roots;
    sets.InRange();
    var xRoot := FindRanked(sets, x);
    var yRoot := FindRanked(sets, y);
    ghost var parents, ranks, rep := sets.parents[..], sets.ranks[..], sets.rep;
    sets.Union(xRoot, yRoot);
    UnionOfRootsKeepsRanks(parents, ranks, rep, sets.parents[..], sets.ranks[..], xRoot, yRoot);
    JoinedRootsAreFaithful(rep, ranks, pairs, x, y);
  }

  lemma JoinedRootsAreFaithful(rep: seq<nat>, ranks: seq<nat>, pairs: seq<(nat, nat)>, x: nat, y: nat)
    requires Faithful(rep, pairs) && x < |rep| == |ranks| && y < |rep|
    requires rep[x] < |rep| && rep[y] < |rep| && rep[rep[x]] == rep[x] && rep[rep[y]] == rep[y]
    ensures Faithful(Joined(rep, ranks, rep[x], rep[y]), pairs + [(x, y)])
  {
    hide Faithful;
    if rep[x] == rep[y] {
      MergedIsFaithful(rep, pairs, x, y, rep[x], rep[x]);
      assert Merged(rep, rep[x], rep[x]) == rep;
    } else if ranks[rep[x]] < ranks[rep[y]] {
      MergedIsFaithful(rep, pairs, x, y, rep[x], rep[y]);
    } else {
      MergedIsFaithful(rep, pairs, x, y, rep[y], rep[x]);
    }
  }

  method FindRanked(sets: StaticDisjointSet, item: nat) returns (root: nat)
    requires sets.Valid() && item < sets.size && Rising(sets.parents[..], sets.ranks[..], sets.rep)
    modifies sets.parents
    ensures sets.Valid() && root == sets.rep[item] && Rising(sets.parents[..], sets.ranks[..], sets.rep)
  {
    hide Rising, Compression, Rooted, Faithful, Roots;
    ghost var parents, ranks := sets.parents[..], sets.ranks[..];
    root := sets.Find(item);
    CompressionKeepsRising(parents, sets.parents[..], ranks, sets.rep, item);
    assert sets.ranks[..] == ranks;
  }

  // ----- Unions at other items -----

  /** After k rounds the first 2k items are one tree, the path climbs through k of them, and no rank exceeds 1. */
  ghost predicate Deep(parents: seq<nat>, ranks: seq<nat>, rep: seq<nat>, path: seq<nat>, k: nat) {
    && |parents| == |ranks| == |rep| && 0 < 2 * k <= |rep| && |path| == k + 1
    && (forall i :: 2 * k <= i < |rep| ==> parents[i] == i && rep[i] == i && ranks[i] == 0)
    && (forall i :: 0 <= i < |ranks| ==> ranks[i] <= 1)
    && (forall i :: 0 <= i < |path| ==> path[i] < 2 * k)
    && Climbs(parents, path) && path[k] == parents[2 * k - 1] == 2 * k - 1 && rep[2 * k - 1] == 2 * k - 1 && ranks[2 * k - 1] == 1
  }

  /** The same with the next item attached to the root. */
  ghost predicate Halfway(parents: seq<nat>, ranks: seq<nat>, rep: seq<nat>, path: seq<nat>, k: nat) {
    && |parents| == |ranks| == |rep| && 0 < 2 * k < |rep| && |path| == k + 1
    && (forall i :: 2 * k < i < |rep| ==> parents[i] == i && rep[i] == i && ranks[i] == 0)
    && (forall i :: 0 <= i < |ranks| ==> ranks[i] <= 1)
    && (forall i :: 0 <= i < |path| ==> path[i] < 2 * k)
    && Climbs(parents, path) && path[k] == parents[2 * k - 1] == 2 * k - 1 && rep[2 * k - 1] == 2 * k - 1
    && parents[2 * k] == 2 * k - 1 && rep[2 * k] == 2 * k - 1 && ranks[2 * k] == 0
  }

  /** Compression does nothing for an item next to its root. */
  lemma NothingToCompress(parents: seq<nat>, parents': seq<nat>, item: nat, root: nat)
    requires Compression(parents, parents', item, root) && item < |parents| && parents[item] == root
    ensures parents' == parents
  {
    var path :| ClimbsToRoot(parents, path) && path[0] == item && path[|path| - 1] == root && parents' == Flattened(parents, path, root);
    if |path| > 1 {
      OneStepWay(parents, path);
    }
  }

  lemma OneStepWay(parents: seq<nat>, path: seq<nat>)
    requires ClimbsToRoot(parents, path) && |path| > 1 && parents[path[0]] == path[|path| - 1]
    ensures |path| == 2 && path == [path[0], path[1]]
  {
    assert StepsUp(parents, path, 0);
    assert |path| > 2 ==> StepsUp(parents, path, 1);
  }

  lemma UnitedPlainly(parents: seq<nat>, ranks: seq<nat>, parents': seq<nat>, ranks': seq<nat>, x: nat, y: nat, xRoot: nat, yRoot: nat)
    requires x < |ranks| && y < |ranks| && xRoot < |ranks| && yRoot < |ranks| == |parents|
    requires United(parents, ranks, parents', ranks', x, y, xRoot, yRoot) && parents[x] == xRoot && parents[y] == yRoot
    ensures Attached(parents, ranks, parents', ranks', x, y, xRoot, yRoot)
  {
    var a, b :| Compression(parents, a, x, xRoot) && Compression(a, b, y, yRoot) && |b| == |ranks|
                && Attached(b, ranks, parents', ranks', x, y, xRoot, yRoot);
    NothingToCompress(parents, a, x, xRoot);
    NothingToCompress(a, b, y, yRoot);
  }

  /** A union of items next to their roots, the first of which ranks no lower, puts the second root under the first. */
  lemma SecondJoins(parents: seq<nat>, ranks: seq<nat>, rep: seq<nat>, parents': seq<nat>, ranks': seq<nat>,
                    x: nat, y: nat, xRoot: nat, yRoot: nat)
    requires x < |ranks| && y < |ranks| && xRoot < |ranks| && yRoot < |ranks| == |parents| == |rep|
    requires rep[x] == parents[x] == xRoot && rep[y] == parents[y] == yRoot && xRoot != yRoot && ranks[x] >= ranks[y]
    requires United(parents, ranks, parents', ranks', x, y, xRoot, yRoot)
    ensures parents' == parents[yRoot := xRoot] && Joined(rep, ranks, x, y) == Merged(rep, yRoot, xRoot)
    ensures ranks' == if ranks[x] > ranks[y] then ranks else ranks[xRoot := (ranks[xRoot] + 1) % 256]
  {
    UnitedPlainly(parents, ranks, parents', ranks', x, y, xRoot, yRoot);
    hide United, Merged;
  }

  /** The rounds start with the union of 1 and 0. */
  lemma FirstRound(n: nat, parents': seq<nat>, ranks': seq<nat>)
    requires n >= 2 && United(Upto(n), seq(n, _ => 0), parents', ranks', 1, 0, 1, 0)
    ensures Deep(parents', ranks', Joined(Upto(n), seq(n, _ => 0), 1, 0), [0, 1], 1)
  {
    hide *;
    SecondJoins(Upto(n), seq(n, _ => 0), Upto(n), parents', ranks', 1, 0, 1, 0);
    TwoJoined(Upto(n), seq(n, _ => 0), n);
  }

  lemma TwoJoined(rep: seq<nat>, ranks: seq<nat>, n: nat)
    requires |rep| == |ranks| == n >= 2 && (forall i :: 0 <= i < n ==> rep[i] == i) && (forall i :: 0 <= i < n ==> ranks[i] == 0)
    ensures Deep(rep[0 := 1], ranks[1 := 1], Merged(rep, 0, 1), [0, 1], 1)
  {
    assert StepsUp(rep[0 := 1], [0, 1], 0);
  }

  /** The union of the root and a fresh item leaves the rank of that item at 0. */
  lemma FreshJoins(parents: seq<nat>, ranks: seq<nat>, rep: seq<nat>, parents': seq<nat>, ranks': seq<nat>, path: seq<nat>, k: nat)
    requires Deep(parents, ranks, rep, path, k) && 2 * k < |rep|
    requires United(parents, ranks, parents', ranks', 2 * k - 1, 2 * k, 2 * k - 1, 2 * k)
    ensures Halfway(parents', ranks', Joined(rep, ranks, 2 * k - 1, 2 * k), path, k)
  {
    hide *;
    var r, e := 2 * k - 1, 2 * k;
    DeepRoot(parents, ranks, rep, path, k);
    SecondJoins(parents, ranks, rep, parents', ranks', r, e, r, e);
    FreshAttached(parents, ranks, rep, path, k);
  }

  lemma DeepRoot(parents: seq<nat>, ranks: seq<nat>, rep: seq<nat>, path: seq<nat>, k: nat)
    requires Deep(parents, ranks, rep, path, k) && 2 * k < |rep|
    ensures |parents| == |ranks| == |rep| && k > 0
    ensures rep[2 * k - 1] == parents[2 * k - 1] == 2 * k - 1 && ranks[2 * k - 1] == 1
    ensures rep[2 * k] == parents[2 * k] == 2 * k && ranks[2 * k] == 0
  {
    hide Climbs;
  }

  lemma FreshAttached(parents: seq<nat>, ranks: seq<nat>, rep: seq<nat>, path: seq<nat>, k: nat)
    requires Deep(parents, ranks, rep, path, k) && 2 * k < |rep| == |parents|
    ensures Halfway(parents[2 * k := 2 * k - 1], ranks, Merged(rep, 2 * k, 2 * k - 1), path, k)
  {
    SameWay(parents, parents[2 * k := 2 * k - 1], path);
    hide Climbs;
  }

  lemma SameWay(parents: seq<nat>, parents': seq<nat>, path: seq<nat>)
    requires Climbs(parents, path) && |parents'| == |parents|
    requires forall i :: 0 <= i < |path| - 1 ==> parents'[path[i]] == parents[path[i]]
    ensures Climbs(parents', path)
  {
    forall i | 0 <= i < |path| - 1
      ensures StepsUp(parents', path, i)
    {
      assert StepsUp(parents, path, i);
    }
  }

  lemma RootIsLast(parents: seq<nat>, path: seq<nat>)
    requires Climbs(parents, path)
    ensures forall i :: 0 <= i < |path| - 1 ==> parents[path[i]] != path[i]
  {
    forall i | 0 <= i < |path| - 1
      ensures parents[path[i]] != path[i]
    {
      assert StepsUp(parents, path, i);
    }
  }

  /** So the union of another fresh item and that one ranks them equal, and puts the fresh item above the root. */
  lemma RootSinks(parents: seq<nat>, ranks: seq<nat>, rep: seq<nat>, parents': seq<nat>, ranks': seq<nat>, path: seq<nat>, k: nat, next: nat)
    requires Halfway(parents, ranks, rep, path, k) && next == 2 * k + 1 < |rep|
    requires United(parents, ranks, parents', ranks', next, 2 * k, next, 2 * k - 1)
    ensures Deep(parents', ranks', Joined(rep, ranks, next, 2 * k), path + [next], k + 1)
  {
    hide *;
    HalfwayRoot(parents, ranks, rep, path, k, next);
    SecondJoins(parents, ranks, rep, parents', ranks', next, 2 * k, next, 2 * k - 1);
    RootMoved(parents, ranks, rep, path, k, next);
  }

  lemma HalfwayRoot(parents: seq<nat>, ranks: seq<nat>, rep: seq<nat>, path: seq<nat>, k: nat, next: nat)
    requires Halfway(parents, ranks, rep, path, k) && next == 2 * k + 1 < |rep|
    ensures |parents| == |ranks| == |rep| && k > 0
    ensures rep[next] == parents[next] == next && ranks[next] == 0
    ensures rep[2 * k] == parents[2 * k] == 2 * k - 1 && ranks[2 * k] == 0
  {
    hide Climbs;
  }

  lemma RootMoved(parents: seq<nat>, ranks: seq<nat>, rep: seq<nat>, path: seq<nat>, k: nat, next: nat)
    requires Halfway(parents, ranks, rep, path, k) && next == 2 * k + 1 < |rep| == |parents| == |ranks|
    ensures Deep(parents[2 * k - 1 := next], ranks[next := 1], Merged(rep, 2 * k - 1, next), path + [next], k + 1)
  {
    var parents' := parents[2 * k - 1 := next];
    RootIsLast(parents, path);
    SameWay(parents, parents', path);
    ClimbsOn(parents', path, next);
    hide Climbs;
  }

  /** For every n some run of unions builds a way up of length n while no rank exceeds 1. */
  method DeepDespiteRanks(n: nat) returns (sets: StaticDisjointSet, ghost path: seq<nat>)
    requires n > 0
    ensures fresh(sets) && sets.Valid() && sets.size == 2 * n
    ensures ClimbsToRoot(sets.parents[..], path) && |path| - 1 == n
    ensures forall r :: r in sets.ranks[..] ==> r <= 1
  {
    hide Deep, United, Joined, ClimbsToRoot, Rooted, Faithful, Roots;
    sets := new StaticDisjointSet(2 * n);
    sets.Union(1, 0);
    FirstRound(2 * n, sets.parents[..], sets.ranks[..]);
    path := [0, 1];
    for k := 1 to n
      invariant fresh(sets) && fresh(sets.parents) && fresh(sets.ranks) && sets.Valid() && sets.size == 2 * n
      invariant Deep(sets.parents[..], sets.ranks[..], sets.rep, path, k)
    {
      path := Deepen(sets, path, k);
    }
    DeepSaysMuch(sets.parents[..], sets.ranks[..], sets.rep, path, n);
  }

  lemma DeepSaysMuch(parents: seq<nat>, ranks: seq<nat>, rep: seq<nat>, path: seq<nat>, k: nat)
    requires Deep(parents, ranks, rep, path, k)
    ensures ClimbsToRoot(parents, path) && |path| - 1 == k && forall r :: r in ranks ==> r <= 1
  {
  }

  method Deepen(sets: StaticDisjointSet, ghost path: seq<nat>, k: nat) returns (ghost path': seq<nat>)
    requires sets.Valid() && 2 * k + 1 < sets.size
    requires Deep(sets.parents[..], sets.ranks[..], sets.rep, path, k)
    modifies sets, sets.parents, sets.ranks
    ensures sets.Valid() && Deep(sets.parents[..], sets.ranks[..], sets.rep, path', k + 1)
  {
    hide United, Joined, Compression, Rooted, Faithful, Roots;
    ghost var parents, ranks, rep := sets.parents[..], sets.ranks[..], sets.rep;
    sets.Union(2 * k - 1, 2 * k);
    FreshJoins(parents, ranks, rep, sets.parents[..], sets.ranks[..], path, k);
    parents, ranks, rep := sets.parents[..], sets.ranks[..], sets.rep;
    var next := 2 * k + 1;
    sets.Union(next, 2 * k);
    RootSinks(parents, ranks, rep, sets.parents[..], sets.ranks[..], path, k, next);
    path' := path + [next];
  }
}
