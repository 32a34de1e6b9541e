/** What the query loops of a VPTree rely on: where the items not yet examined are, and which
    of them a pruned child can safely drop. */
module VPTreeSearch {
  import opened Permutations
  import opened IndexSets
  import opened Comparators
  import opened VPTreeModel

  /** Items below the nodes on the stack. */
  ghost function Rest(content: seq<set<nat>>, stack: seq<nat>): set<nat> {
    if stack == [] then {}
    else Rest(content, stack[..|stack| - 1]) + At(content, stack[|stack| - 1])
  }

  ghost function At(content: seq<set<nat>>, v: nat): set<nat> {
    if v < |content| then content[v] else {}
  }

  /** No item is below two nodes of the stack. */
  ghost predicate Apart(content: seq<set<nat>>, stack: seq<nat>) {
    stack == [] ||
    var rest, v := stack[..|stack| - 1], stack[|stack| - 1];
    v < |content| && content[v] !! Rest(content, rest) && Apart(content, rest)
  }

  /** Every item is either dealt with or below exactly one node of the stack. */
  ghost predicate Covered(content: seq<set<nat>>, stack: seq<nat>, done: set<nat>, n: nat) {
    && Apart(content, stack)
    && done !! Rest(content, stack)
    && done + Rest(content, stack) == All(n)
  }

  lemma {:induction false} RestAppend(content: seq<set<nat>>, s: seq<nat>, t: seq<nat>)
    ensures Rest(content, s + t) == Rest(content, s) + Rest(content, t)
  {
    if t == [] {
      assert s + t == s;
    } else {
      assert (s + t)[..|s + t| - 1] == s + t[..|t| - 1];
      RestAppend(content, s, t[..|t| - 1]);
    }
  }

  lemma {:induction false} ApartAppend(content: seq<set<nat>>, s: seq<nat>, t: seq<nat>)
    requires Apart(content, s) && Apart(content, t) && Rest(content, s) !! Rest(content, t)
    ensures Apart(content, s + t)
  {
    if t == [] {
      assert s + t == s;
    } else {
      var rest := t[..|t| - 1];
      assert (s + t)[..|s + t| - 1] == s + rest;
      ApartAppend(content, s, rest);
      RestAppend(content, s, rest);
    }
  }

  lemma StartCovered(content: seq<set<nat>>, n: nat)
    requires 0 < |content| && content[0] == All(n)
    ensures Covered(content, [0], {}, n)
  {
    assert [0][..0] == [];
  }

  /** The children of v that a query visits next. */
  ghost predicate Visits(t: Flat, v: nat, kids: seq<nat>)
    requires v < |t.lefts| && v < |t.rights|
  {
    var L, R := t.lefts[v], t.rights[v];
    && (forall c :: c in kids ==> c > 0 && (c == L || c == R))
    && Distinct(kids) && |kids| <= 2
  }

  lemma KidsApart(D: (nat, nat) -> real, t: Flat, content: seq<set<nat>>, v: nat, kids: seq<nat>)
    requires v < |content| <= |t.nodes| == |t.lefts| == |t.rights| == |t.mus|
    requires Split(D, t, content, v) && Visits(t, v, kids)
    ensures Apart(content, kids) && Rest(content, kids) <= content[v] && t.nodes[v] !in Rest(content, kids)
    ensures forall x :: x in content[v] && x !in Rest(content, kids) && x != t.nodes[v] ==>
              || (x in Sub(content, t.lefts[v]) && t.lefts[v] !in kids)
              || (x in Sub(content, t.rights[v]) && t.rights[v] !in kids)
  {
    if |kids| == 0 {
    } else if |kids| == 1 {
      assert kids[..0] == [] && kids == [kids[0]];
      assert kids[0] in kids;
      assert Rest(content, kids) == At(content, kids[0]);
    } else {
      assert kids[..1] == [kids[0]] && kids[..1][..0] == [];
      assert Rest(content, kids) == At(content, kids[0]) + At(content, kids[1]);
      assert kids[0] in kids && kids[1] in kids && kids[0] != kids[1];
    }
  }

  lemma TopInTree(D: (nat, nat) -> real, t: Flat, content: seq<set<nat>>, rest: seq<nat>, v: nat, done: set<nat>, n: nat)
    requires VantageTree(D, t, content, n) && Covered(content, rest + [v], done, n)
    ensures Shaped(t, n) && |content| == n && v < n && t.nodes[v] < n
    ensures t.nodes[v] in content[v] && t.nodes[v] !in done && done <= All(n)
  {
    var stack := rest + [v];
    assert stack[..|stack| - 1] == rest && stack[|stack| - 1] == v;
    assert Split(D, t, content, v);
    assert t.nodes[v] in SetOf(t.nodes);
  }

  /** One turn of a query loop: node v is replaced by the children visited, and its own item and
      the items below the other children count as dealt with. */
  lemma Visit(D: (nat, nat) -> real, t: Flat, content: seq<set<nat>>, rest: seq<nat>, v: nat, kids: seq<nat>,
              done: set<nat>, n: nat)
    requires VantageTree(D, t, content, n) && v < n
    requires Covered(content, rest + [v], done, n) && Visits(t, v, kids)
    ensures Covered(content, rest + kids, done + (content[v] - Rest(content, kids)), n)
    ensures content[v] !! done && content[v] <= All(n)
    ensures t.nodes[v] in content[v] - Rest(content, kids)
  {
    var stack := rest + [v];
    assert stack[..|stack| - 1] == rest && stack[|stack| - 1] == v;
    KidsApart(D, t, content, v, kids);
    RestAppend(content, rest, kids);
    ApartAppend(content, rest, kids);
  }

  // ----- Pruning -----

  /** All that the tree needs of a metric. */
  ghost predicate Metric<T(!new)>(distance: (T, T) -> real) {
    && (forall a, b :: distance(a, b) == distance(b, a))
    && (forall a, b, c :: distance(a, c) <= distance(a, b) + distance(b, c))
  }

  function ByIndex<T>(distance: (T, T) -> real, items: seq<T>): (nat, nat) -> real {
    (i: nat, j: nat) => if i < |items| && j < |items| then distance(items[i], items[j]) else 0.0
  }

  function ToQuery<T>(distance: (T, T) -> real, items: seq<T>, query: T): nat -> real {
    (i: nat) => if i < |items| then distance(items[i], query) else 0.0
  }

  /** Items below the left child are at more than d - mu from the query, items below the right
      child at no less than mu - d. */
  lemma ChildDistances<T(!new)>(distance: (T, T) -> real, items: seq<T>, query: T, t: Flat, content: seq<set<nat>>, v: nat)
    requires Metric(distance)
    requires VantageTree(ByIndex(distance, items), t, content, |items|) && v < |items|
    ensures forall x :: x in Sub(content, t.lefts[v]) && x < |items| ==>
              ToQuery(distance, items, query)(x) > ToQuery(distance, items, query)(t.nodes[v]) - t.mus[v]
    ensures forall x :: x in Sub(content, t.rights[v]) && x < |items| ==>
              ToQuery(distance, items, query)(x) >= t.mus[v] - ToQuery(distance, items, query)(t.nodes[v])
  {
    assert Split(ByIndex(distance, items), t, content, v);
    assert t.nodes[v] in SetOf(t.nodes);
    var p := items[t.nodes[v]];
    forall x | x in Sub(content, t.lefts[v]) && x < |items|
      ensures distance(items[x], query) > distance(p, query) - t.mus[v]
    {
      assert distance(p, query) <= distance(p, items[x]) + distance(items[x], query);
      assert ByIndex(distance, items)(t.nodes[v], x) < t.mus[v];
    }
    forall x | x in Sub(content, t.rights[v]) && x < |items|
      ensures distance(items[x], query) >= t.mus[v] - distance(p, query)
    {
      assert distance(p, items[x]) <= distance(p, query) + distance(query, items[x]);
      assert ByIndex(distance, items)(t.nodes[v], x) >= t.mus[v];
    }
  }

  // ----- What a linear scan finds -----

  datatype Neighbor<T> = Neighbor(distance: real, item: T)

  function AsNeighbor<T>(distance: (T, T) -> real, items: seq<T>, query: T): nat -> Neighbor<T>
    requires |items| > 0
  {
    (i: nat) => var item := items[if i < |items| then i else 0]; Neighbor(distance(item, query), item)
  }

  /** The neighbors within the radius, by measuring every item in turn. */
  function LinearNeighbors<T>(distance: (T, T) -> real, items: seq<T>, query: T, radius: real): seq<Neighbor<T>>
    requires |items| > 0
  {
    Map(AsNeighbor(distance, items, query),
        Filter((i: nat) => i < |items| && distance(items[i], query) <= radius, Upto(|items|)))
  }

  // ----- Which children to visit -----

  datatype Reach = Unbounded | Within(radius: real)
  {
    /** Something closer than this is still of interest. */
    predicate Beats(d: real) {
      this.Unbounded? || d < this.radius
    }
  }

  /** The children left and right of a node at distance d from the query that may still hold
      something within reach, in the order they are pushed. */
  method NextNodes(left: nat, right: nat, d: real, mu: real, reach: Reach) returns (kids: seq<nat>)
    requires left != right || left == 0
    ensures |kids| <= 2 && Distinct(kids) && (forall c :: c in kids ==> c > 0 && (c == left || c == right))
    ensures left > 0 && left !in kids ==> reach.Within? && d >= mu + reach.radius
    ensures right > 0 && right !in kids ==> reach.Within? && d < mu - reach.radius
  {
    kids := [];
    var goLeft := left > 0 && (reach.Unbounded? || d < mu + reach.radius);
    var goRight := right > 0 && (reach.Unbounded? || d >= mu - reach.radius);
    if d < mu {
      if goLeft {
        kids := kids + [left];
      }
      if goRight {
        kids := kids + [right];
      }
    } else {
      if goRight {
        kids := kids + [right];
      }
      if goLeft {
        kids := kids + [left];
      }
    }
  }

  lemma ChildrenDiffer(D: (nat, nat) -> real, t: Flat, content: seq<set<nat>>, v: nat, n: nat)
    requires VantageTree(D, t, content, n) && v < n
    ensures t.lefts[v] != t.rights[v] || t.lefts[v] == 0
  {
    var L := t.lefts[v];
    assert Split(D, t, content, v);
    if L > 0 {
      assert Split(D, t, content, L);
      assert t.nodes[L] in content[L];
    }
  }

  /** Items below children not visited are out of reach. */
  lemma PrunedOutOfReach<T(!new)>(distance: (T, T) -> real, items: seq<T>, query: T, t: Flat, content: seq<set<nat>>,
                                  v: nat, kids: seq<nat>, radius: real)
    requires Metric(distance)
    requires VantageTree(ByIndex(distance, items), t, content, |items|) && v < |items| && Visits(t, v, kids)
    requires t.nodes[v] < |items|
    requires var d := distance(items[t.nodes[v]], query);
             && (t.lefts[v] > 0 && t.lefts[v] !in kids ==> d >= t.mus[v] + radius)
             && (t.rights[v] > 0 && t.rights[v] !in kids ==> d < t.mus[v] - radius)
    ensures forall x :: x in content[v] && x < |items| && x !in Rest(content, kids) && x != t.nodes[v] ==>
              distance(items[x], query) > radius
  {
    assert Split(ByIndex(distance, items), t, content, v);
    ChildDistances(distance, items, query, t, content, v);
    KidsApart(ByIndex(distance, items), t, content, v, kids);
    forall x | x in content[v] && x < |items| && x !in Rest(content, kids) && x != t.nodes[v]
      ensures distance(items[x], query) > radius
    {
      assert ToQuery(distance, items, query)(x) == distance(items[x], query);
    }
  }

  // ----- Collecting the items within a radius -----

  /** `ids` lists the items dealt with that satisfy f, each once. */
  ghost predicate Collected(f: nat -> bool, ids: seq<nat>, done: set<nat>) {
    Distinct(ids) && forall x :: x in ids <==> x in done && f(x)
  }

  lemma CollectedAll(f: nat -> bool, ids: seq<nat>, n: nat)
    requires Collected(f, ids, All(n))
    ensures Permuted(ids, Filter(f, Upto(n)))
  {
    FilterMembers(f, Upto(n));
    UptoMembers(n);
    DistinctPermuted(ids, Filter(f, Upto(n)));
  }

  /** The neighbors collected, told place by place. */
  lemma NeighborsListed<T(!new)>(distance: (T, T) -> real, items: seq<T>, query: T, radius: real, ids: seq<nat>, f: nat -> bool)
    requires |items| > 0 && Collected(f, ids, All(|items|))
    requires forall i: nat :: f(i) <==> i < |items| && distance(items[i], query) <= radius
    ensures forall i, j :: 0 <= i < j < |ids| ==> ids[i] != ids[j]
    ensures forall i: nat :: i in ids <==> i < |items| && distance(items[i], query) <= radius
    ensures var neighbors := Map(AsNeighbor(distance, items, query), ids);
            forall j :: 0 <= j < |ids| ==> ids[j] < |items| && neighbors[j].item == items[ids[j]]
                                           && neighbors[j].distance == distance(items[ids[j]], query)
  {
    forall j | 0 <= j < |ids|
      ensures ids[j] < |items|
    {
      assert ids[j] in ids;
    }
  }

  lemma CollectNone(f: nat -> bool, ids: seq<nat>, done: set<nat>, more: set<nat>)
    requires Collected(f, ids, done) && forall x :: x in more ==> !f(x)
    ensures Collected(f, ids, done + more)
  {
  }

  lemma CollectOne(f: nat -> bool, ids: seq<nat>, done: set<nat>, x: nat)
    requires Collected(f, ids, done) && x !in done && f(x)
    ensures Collected(f, ids + [x], done + {x})
  {
  }

  /** A visited node's own item, when it satisfies f, and nothing else of what is dealt with. */
  lemma CollectVisit(f: nat -> bool, ids: seq<nat>, done: set<nat>, own: nat, dealt: set<nat>)
    requires Collected(f, ids, done) && own in dealt && dealt !! done
    requires forall x :: x in dealt && x != own ==> !f(x)
    ensures Collected(f, if f(own) then ids + [own] else ids, done + dealt)
  {
    if f(own) {
      CollectOne(f, ids, done, own);
      CollectNone(f, ids + [own], done + {own}, dealt - {own});
      assert done + {own} + (dealt - {own}) == done + dealt;
    } else {
      CollectNone(f, ids, done, dealt);
    }
  }

  /** One turn of a radius query. */
  lemma NeighborsTurn(D: (nat, nat) -> real, t: Flat, content: seq<set<nat>>, rest: seq<nat>, v: nat, kids: seq<nat>,
                      done: set<nat>, n: nat, near: nat -> bool, ids: seq<nat>)
    returns (done': set<nat>)
    requires VantageTree(D, t, content, n) && v < n
    requires Covered(content, rest + [v], done, n) && Visits(t, v, kids) && Collected(near, ids, done)
    requires forall x :: x in content[v] && x < n && x !in Rest(content, kids) && x != t.nodes[v] ==> !near(x)
    ensures Covered(content, rest + kids, done', n) && done' <= All(n)
    ensures Collected(near, if near(t.nodes[v]) then ids + [t.nodes[v]] else ids, done')
    ensures done < done' && |done| < |done'|
  {
    Visit(D, t, content, rest, v, kids, done, n);
    var dealt := content[v] - Rest(content, kids);
    CollectVisit(near, ids, done, t.nodes[v], dealt);
    done' := done + dealt;
    DoneGrows(done, dealt, t.nodes[v]);
  }

  // ----- Keeping the k nearest items -----

  /** Farthest first, as the heap of a k-nearest query wants it. */
  function ByFarthest<T>(a: Neighbor<T>, b: Neighbor<T>): int {
    if a.distance < b.distance then 1 else if a.distance > b.distance then -1 else 0
  }

  function ByNearest<T>(a: Neighbor<T>, b: Neighbor<T>): int {
    if a.distance < b.distance then -1 else if a.distance > b.distance then 1 else 0
  }

  lemma FarthestIsTotal<T(!new)>()
    ensures TotalPreorder<Neighbor<T>>(ByFarthest)
  {
  }

  /** `ids` are k nearest items among those dealt with; what was dropped is out of reach. */
  ghost predicate Nearest(q: nat -> real, ids: seq<nat>, done: set<nat>, k: nat, reach: Reach) {
    && Distinct(ids) && (forall x :: x in ids ==> x in done) && |ids| <= k
    && (reach.Unbounded? <==> |ids| < k)
    && (reach.Unbounded? ==> forall x :: x in done ==> x in ids)
    && (reach.Within? ==>
          && (forall x :: x in ids ==> q(x) <= reach.radius)
          && (forall x :: x in done && x !in ids ==> q(x) >= reach.radius))
  }

  /** An item out of reach and the items dropped with it leave the selection alone. */
  lemma DropOutOfReach(q: nat -> real, ids: seq<nat>, done: set<nat>, k: nat, reach: Reach, dealt: set<nat>)
    requires Nearest(q, ids, done, k, reach) && dealt !! done
    requires reach.Unbounded? ==> dealt == {}
    requires reach.Within? ==> forall x :: x in dealt ==> q(x) >= reach.radius
    ensures Nearest(q, ids, done + dealt, k, reach)
  {
  }

  /** No item listed is farther than the one at `far`. */
  ghost predicate FarthestAt(q: nat -> real, ids: seq<nat>, far: nat) {
    far < |ids| && forall x :: x in ids ==> q(x) <= q(ids[far])
  }

  /** The selection after an item within reach came in and, past k, the farthest went out. */
  ghost predicate Trimmed(q: nat -> real, ids: seq<nat>, own: nat, k: nat, ids': seq<nat>) {
    var all := ids + [own];
    if |all| > k
    then exists far: nat :: FarthestAt(q, all, far) && ids' == Without(all, far)
    else ids' == all
  }

  /** The reach that goes with a selection. */
  ghost predicate ReachOf(q: nat -> real, ids: seq<nat>, k: nat, reach: Reach) {
    && (reach.Unbounded? <==> |ids| < k)
    && (reach.Within? ==> exists far: nat :: FarthestAt(q, ids, far) && q(ids[far]) == reach.radius)
  }

  /** An item within reach joins: the k nearest stay the k nearest. */
  lemma Join(q: nat -> real, ids: seq<nat>, done: set<nat>, k: nat, own: nat, reach: Reach, ids': seq<nat>, reach': Reach)
    requires Nearest(q, ids, done, k, reach) && own !in done && reach.Beats(q(own))
    requires Trimmed(q, ids, own, k, ids') && ReachOf(q, ids', k, reach')
    ensures Nearest(q, ids', done + {own}, k, reach')
  {
    hide *;
    if |ids| < k {
      JoinWithRoom(q, ids, done, k, own, reach, ids', reach');
    } else {
      JoinTrimmed(q, ids, done, k, own, reach, ids', reach');
    }
  }

  lemma JoinWithRoom(q: nat -> real, ids: seq<nat>, done: set<nat>, k: nat, own: nat, reach: Reach, ids': seq<nat>, reach': Reach)
    requires Nearest(q, ids, done, k, reach) && own !in done && |ids| < k
    requires Trimmed(q, ids, own, k, ids') && ReachOf(q, ids', k, reach')
    ensures Nearest(q, ids', done + {own}, k, reach')
  {
    hide Distinct;
    DistinctMore(ids, own);
    assert forall x :: x in ids' <==> x in ids || x == own;
  }

  lemma DistinctMore(ids: seq<nat>, own: nat)
    requires Distinct(ids) && own !in ids
    ensures Distinct(ids + [own])
  {
  }

  lemma JoinTrimmed(q: nat -> real, ids: seq<nat>, done: set<nat>, k: nat, own: nat, reach: Reach, ids': seq<nat>, reach': Reach)
    requires Nearest(q, ids, done, k, reach) && own !in done && reach.Beats(q(own)) && |ids| >= k
    requires Trimmed(q, ids, own, k, ids') && ReachOf(q, ids', k, reach')
    ensures Nearest(q, ids', done + {own}, k, reach')
  {
    hide Distinct, Without;
    var all := ids + [own];
    DistinctMore(ids, own);
    var far: nat :| FarthestAt(q, all, far) && ids' == Without(all, far);
    DistinctWithout(all, far);
    var w: nat :| FarthestAt(q, ids', w) && q(ids'[w]) == reach'.radius;
    assert all[far] == own || all[far] in ids;
    assert forall x :: x in all <==> x in ids || x == own;
    hide FarthestAt;
    JoinFull(q, all, far, ids', w, done + {own}, k, reach.radius);
  }

  /** With the farthest of k + 1 items gone, the reach is the distance of the farthest that is left. */
  lemma JoinFull(q: nat -> real, all: seq<nat>, far: nat, ids: seq<nat>, w: nat, done: set<nat>, k: nat, radius: real)
    requires |all| == k + 1 && |ids| == k && Distinct(ids) && FarthestAt(q, all, far) && FarthestAt(q, ids, w)
    requires forall x :: x in ids <==> x in all && x != all[far]
    requires forall x :: x in all ==> x in done
    requires forall x :: x in done && x !in all ==> q(x) >= radius >= q(all[far])
    ensures Nearest(q, ids, done, k, Within(q(ids[w])))
  {
    hide Distinct;
    assert ids[w] in ids;
  }

  lemma DistinctWithout(all: seq<nat>, far: nat)
    requires Distinct(all) && far < |all|
    ensures Distinct(Without(all, far)) && |Without(all, far)| == |all| - 1
    ensures forall x :: x in Without(all, far) <==> x in all && x != all[far]
  {
    var others := Without(all, far);
    forall i | 0 <= i < |all| && i != far
      ensures all[i] in others
    {
      assert others[if i < far then i else i - 1] == all[i];
    }
    forall i | 0 <= i < |others|
      ensures others[i] == all[if i < far then i else i + 1]
    {
    }
    hide Without;
  }

  lemma NearestBounds(q: nat -> real, ids: seq<nat>, done: set<nat>, k: nat, reach: Reach)
    requires Nearest(q, ids, done, k, reach)
    ensures |ids| <= k && (reach.Unbounded? <==> |ids| < k)
  {
  }

  /** One turn of a k-nearest query, after the node's own item was considered. */
  lemma NearestTurn(D: (nat, nat) -> real, t: Flat, content: seq<set<nat>>, rest: seq<nat>, v: nat, kids: seq<nat>,
                    done: set<nat>, n: nat, q: nat -> real, ids: seq<nat>, k: nat, reach: Reach)
    returns (done': set<nat>)
    requires VantageTree(D, t, content, n) && v < n
    requires Covered(content, rest + [v], done, n) && Visits(t, v, kids)
    requires Nearest(q, ids, done + {t.nodes[v]}, k, reach)
    requires forall x :: x in content[v] && x < n && x !in Rest(content, kids) && x != t.nodes[v] ==>
               reach.Within? && q(x) > reach.radius
    ensures Covered(content, rest + kids, done', n) && done' <= All(n)
    ensures Nearest(q, ids, done', k, reach)
    ensures done < done' && |done| < |done'|
  {
    hide VantageTree, Covered, Visits, Nearest, Rest;
    Visit(D, t, content, rest, v, kids, done, n);
    TopInTree(D, t, content, rest, v, done, n);
    var own, dealt := t.nodes[v], content[v] - Rest(content, kids);
    DropOutOfReach(q, ids, done + {own}, k, reach, dealt - {own});
    done' := done + dealt;
    DoneGrows(done, dealt, own);
  }

  lemma DoneGrows(done: set<nat>, dealt: set<nat>, own: nat)
    requires own in dealt && own !in done
    ensures done < done + dealt && |done| < |done + dealt|
    ensures done + {own} + (dealt - {own}) == done + dealt
  {
    assert done + dealt == done + (dealt - done);
    assert |done + dealt| == |done| + |dealt - done|;
    assert own in dealt - done;
  }

  /** With every item dealt with, the selection holds min(k, n) items, and none is farther than
      an item left out. */
  lemma NearestOfAll<T(!new)>(distance: (T, T) -> real, items: seq<T>, query: T, ids: seq<nat>, k: nat, reach: Reach)
    requires |items| > 0 && Nearest(ToQuery(distance, items, query), ids, All(|items|), k, reach)
    ensures BestOf(ByNearest, multiset(Map(AsNeighbor(distance, items, query), ids)),
                   multiset(Map(AsNeighbor(distance, items, query), Upto(|items|))), k)
  {
    var n, f := |items|, AsNeighbor(distance, items, query);
    var others := LeftOut(ids, n);
    hide Distinct, Upto, Nearest, ByNearest;
    MapPermuted(f, Upto(n), ids + others);
    MapAppend(f, ids, others);
    var kept, all := multiset(Map(f, ids)), multiset(Map(f, Upto(n)));
    assert all == kept + multiset(Map(f, others)) && |all| == n && |kept| == |ids|;
    PermutedLength(Upto(n), ids + others);
    forall x, y | x in kept && y in all - kept
      ensures ByNearest(x, y) <= 0
    {
      NearerIsKept(distance, items, query, ids, others, k, reach, x, y);
    }
  }

  /** The places of the neighbors listed, in the order they are listed. */
  lemma NearestListed<T(!new)>(distance: (T, T) -> real, items: seq<T>, query: T, kept: seq<nat>, k: nat, reach: Reach,
                               listed: seq<Neighbor<T>>) returns (ids: seq<nat>)
    requires |items| > 0 && Nearest(ToQuery(distance, items, query), kept, All(|items|), k, reach)
    requires multiset(listed) == multiset(Map(AsNeighbor(distance, items, query), kept)) && SortedBy(ByNearest, listed)
    ensures |listed| == |ids| == (if k <= |items| then k else |items|)
    ensures forall i, j :: 0 <= i < j < |ids| ==> ids[i] != ids[j] && listed[i].distance <= listed[j].distance
    ensures forall j :: 0 <= j < |ids| ==> ids[j] < |items| && listed[j].item == items[ids[j]]
                                           && listed[j].distance == distance(items[ids[j]], query)
    ensures forall i, j :: 0 <= i < |items| && i !in ids && 0 <= j < |ids| ==> listed[j].distance <= distance(items[i], query)
  {
    var f, n := AsNeighbor(distance, items, query), |items|;
    ids := PermutedImage(f, kept, listed);
    DistinctRearranged(kept, ids);
    PermutedLength(ids, kept);
    HowMany(ToQuery(distance, items, query), kept, n, k, reach);
    assert forall x :: x in ids <==> x in SetOf(kept);
    assert forall x :: x in kept <==> x in SetOf(kept);
    forall j | 0 <= j < |ids|
      ensures ids[j] < n && listed[j] == f(ids[j])
    {
      assert ids[j] in ids && ids[j] in All(n);
    }
    forall i, j | 0 <= i < n && i !in ids && 0 <= j < |ids|
      ensures listed[j].distance <= distance(items[i], query)
    {
      assert i in All(n) && ids[j] in kept;
    }
  }

  lemma HowMany(q: nat -> real, ids: seq<nat>, n: nat, k: nat, reach: Reach)
    requires Nearest(q, ids, All(n), k, reach)
    ensures |ids| == if k <= n then k else n
  {
    DistinctSize(ids);
    AllSize(n);
    assert SetOf(ids) <= All(n);
    if |ids| < k {
      assert SetOf(ids) == All(n);
    } else {
      assert All(n) == SetOf(ids) + (All(n) - SetOf(ids));
    }
  }

  lemma NearerIsKept<T(!new)>(distance: (T, T) -> real, items: seq<T>, query: T, ids: seq<nat>, others: seq<nat>, k: nat, reach: Reach,
                              x: Neighbor<T>, y: Neighbor<T>)
    requires |items| > 0 && Nearest(ToQuery(distance, items, query), ids, All(|items|), k, reach)
    requires forall i :: i in others ==> i < |items| && i !in ids
    requires x in multiset(Map(AsNeighbor(distance, items, query), ids)) && y in multiset(Map(AsNeighbor(distance, items, query), others))
    ensures ByNearest(x, y) <= 0
  {
    hide Distinct;
    var f, q := AsNeighbor(distance, items, query), ToQuery(distance, items, query);
    var i := Member(Map(f, ids), x);
    var j := Member(Map(f, others), y);
    assert ids[i] in ids && others[j] in others;
    assert x.distance == q(ids[i]) && y.distance == q(others[j]);
  }

}
