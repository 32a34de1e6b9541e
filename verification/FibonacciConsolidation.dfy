/** What linking does to a Fibonacci heap's forest: heap order and binomial shape are kept, and trees
    settle in the slot of their degree. */
module FibonacciConsolidation {
  import opened Permutations
  import opened QuickSort
  import opened Comparators
  import opened FibonacciForests

  // ----- Heap order and binomial shape -----

  /** No child goes before its parent, and a tree of degree d has 2^d nodes; so does every subtree. */
  ghost predicate Good<N, T>(compare: (T, T) -> int, item: N -> T, t: Tree<N>) {
    && |Bag(t.kids)| + 1 == Pow2(|t.kids|)
    && forall k :: k in t.kids ==> compare(item(t.id), item(k.id)) <= 0 && Good(compare, item, k)
  }

  ghost predicate AllGood<N, T>(compare: (T, T) -> int, item: N -> T, f: seq<Tree<N>>) {
    forall t :: t in f ==> Good(compare, item, t)
  }

  lemma SingleIsGood<N, T>(compare: (T, T) -> int, item: N -> T, n: N)
    ensures Good(compare, item, Tree(n, []))
  {
  }

  lemma GrownIsGood<N, T>(compare: (T, T) -> int, item: N -> T, x: Tree<N>, y: Tree<N>)
    requires Good(compare, item, x) && Good(compare, item, y) && |x.kids| == |y.kids| && compare(item(x.id), item(y.id)) <= 0
    ensures Good(compare, item, Grown(x, y))
  {
    GrownSize(x, y);
    SecondMembers(x.kids, y);
    hide Bag;
    var d := |x.kids|;
    assert Pow2(d + 1) == 2 * Pow2(d);
  }

  lemma GrownSize<N>(x: Tree<N>, y: Tree<N>)
    ensures |Bag(Grown(x, y).kids)| == |Bag(x.kids)| + 1 + |Bag(y.kids)|
    ensures |Grown(x, y).kids| == |x.kids| + 1
  {
    hide Bag;
    BagSecond(n => n, x.kids, y);
    BagOne(n => n, y);
  }

  /** A root is least in its tree. */
  lemma {:induction false} RootIsLeast<N, T(!new)>(compare: (T, T) -> int, item: N -> T, t: Tree<N>, n: N)
    requires TotalPreorder(compare) && Good(compare, item, t) && n in Bag(t.kids)
    ensures compare(item(t.id), item(n)) <= 0
  {
    var k := WhichTree(t.kids, n);
    if n in Bag(t.kids[k].kids) {
      RootIsLeast(compare, item, t.kids[k], n);
      Transitive(compare, item(t.id), item(t.kids[k].id), item(n));
    }
  }

  /** Every node of a forest has a root that does not go after it. */
  lemma RootBefore<N, T(!new)>(compare: (T, T) -> int, item: N -> T, f: seq<Tree<N>>, n: N) returns (t: Tree<N>)
    requires TotalPreorder(compare) && AllGood(compare, item, f) && n in Bag(f)
    ensures t in f && compare(item(t.id), item(n)) <= 0
  {
    var k := WhichTree(f, n);
    t := f[k];
    if n in Bag(t.kids) {
      RootIsLeast(compare, item, t, n);
    } else {
      Reflexive(compare, item(n));
    }
  }

  lemma Reflexive<T(!new)>(compare: (T, T) -> int, a: T)
    requires TotalPreorder(compare)
    ensures compare(a, a) <= 0
  {
  }

  lemma ItemsUnfold<N, T>(item: N -> T, f: seq<Tree<N>>)
    ensures Items(item, f) == if f == [] then multiset{} else multiset{item(f[0].id)} + Items(item, f[0].kids) + Items(item, f[1..])
  {
  }

  /** What every node holds is held by some node. */
  lemma {:induction false} ItemHolder<N, T>(item: N -> T, f: seq<Tree<N>>, x: T) returns (n: N)
    requires x in Items(item, f)
    ensures n in Bag(f) && item(n) == x
  {
    hide Bag, Items;
    BagUnfolds(f);
    ItemsUnfold(item, f);
    if x == item(f[0].id) {
      n := f[0].id;
    } else if x in Items(item, f[0].kids) {
      n := ItemHolder(item, f[0].kids, x);
    } else {
      n := ItemHolder(item, f[1..], x);
    }
  }

  lemma {:induction false} ItemHeld<N, T>(item: N -> T, f: seq<Tree<N>>, n: N)
    requires n in Bag(f)
    ensures item(n) in Items(item, f)
  {
    if n == f[0].id {
    } else if n in Bag(f[0].kids) {
      ItemHeld(item, f[0].kids, n);
    } else {
      ItemHeld(item, f[1..], n);
    }
  }

  /** Degrees are logarithmic: 2^degree nodes fit in the forest. */
  lemma DegreeBound<N, T>(compare: (T, T) -> int, item: N -> T, f: seq<Tree<N>>, t: Tree<N>)
    requires AllGood(compare, item, f) && t in f
    ensures Pow2(|t.kids|) <= |Bag(f)| && |t.kids| < |Bag(f)|
  {
    var k :| 0 <= k < |f| && f[k] == t;
    BagHas(f, k);
    BagOne(item, t);
    SubBag(Bag([t]), Bag(f));
    BelowPow2(|t.kids|);
  }

  lemma SubBag<N>(a: multiset<N>, b: multiset<N>)
    requires a <= b
    ensures |a| <= |b|
  {
    assert b == a + (b - a);
  }

  lemma {:induction false} BelowPow2(d: nat)
    ensures d < Pow2(d)
  {
    if d > 0 {
      BelowPow2(d - 1);
    }
  }

  /** The logarithm of n, rounded down. */
  function FloorLog2(n: nat): (h: nat)
    ensures n > 0 ==> Pow2(h) <= n < Pow2(h + 1)
  {
    if n < 2 then 0 else FloorLog2(n / 2) + 1
  }

  lemma LogGrows(h: nat, m: nat, n: nat)
    requires 0 < m <= n && Pow2(h) <= m
    ensures h <= FloorLog2(m) <= FloorLog2(n)
  {
    if h > FloorLog2(m) {
      Pow2Grows(FloorLog2(m) + 1, h);
    }
    if FloorLog2(m) > FloorLog2(n) {
      Pow2Grows(FloorLog2(n) + 1, FloorLog2(m));
    }
  }

  /** The sum of the degrees popped stays within pops times the logarithm of the largest size. */
  ghost predicate ReleaseBounded(released: nat, pops: nat, highest: nat) {
    released <= pops * FloorLog2(highest)
  }

  lemma Product(p: nat, a: nat, b: nat)
    requires a <= b
    ensures p * a <= p * b && (p + 1) * b == p * b + b
  {
  }

  lemma HigherBound(released: nat, pops: nat, highest: nat, highest': nat)
    requires ReleaseBounded(released, pops, highest) && highest <= highest'
    ensures ReleaseBounded(released, pops, highest')
  {
    hide FloorLog2;
    if highest > 0 {
      LogGrows(FloorLog2(highest), highest, highest');
    } else {
      LogOfZero();
    }
    Product(pops, FloorLog2(highest), FloorLog2(highest'));
  }

  lemma LogOfZero()
    ensures FloorLog2(0) == 0
  {
  }

  lemma OneMoreRelease(released: nat, pops: nat, degree: nat, size: nat, highest: nat)
    requires ReleaseBounded(released, pops, highest) && Pow2(degree) <= size <= highest && size > 0
    ensures ReleaseBounded(released + degree, pops + 1, highest)
  {
    hide FloorLog2;
    LogGrows(degree, size, highest);
    Product(pops, degree, FloorLog2(highest));
  }

  // ----- Linking -----

  function Shifted(k: nat, gone: nat): nat {
    if k > gone then k - 1 else k
  }

  /** The forest after the tree at ky became a child of the one at kx. */
  function Linked<N>(f: seq<Tree<N>>, ky: nat, kx: nat): seq<Tree<N>>
    requires kx < |f| && ky < |f| && kx != ky
  {
    Without(f, ky)[Shifted(kx, ky) := Grown(f[kx], f[ky])]
  }

  lemma LinkedMembers<N>(f: seq<Tree<N>>, ky: nat, kx: nat)
    requires kx < |f| && ky < |f| && kx != ky && Distinct(Ids(f))
    ensures Grown(f[kx], f[ky]) in Linked(f, ky, kx)
    ensures forall t :: t in f && t != f[kx] && t != f[ky] ==> t in Linked(f, ky, kx)
    ensures forall t :: t in Linked(f, ky, kx) ==> t == Grown(f[kx], f[ky]) || (t in f && t.id != f[kx].id && t.id != f[ky].id)
  {
    var f', i := Linked(f, ky, kx), Shifted(kx, ky);
    assert f'[i] == Grown(f[kx], f[ky]);
    forall t | t in f && t != f[kx] && t != f[ky]
      ensures t in f'
    {
      var j :| 0 <= j < |f| && f[j] == t;
      assert f'[Shifted(j, ky)] == t;
    }
    forall t | t in f' && t != Grown(f[kx], f[ky])
      ensures t in f && t.id != f[kx].id && t.id != f[ky].id
    {
      var j :| 0 <= j < |f'| && f'[j] == t;
      var j0 := if j >= ky then j + 1 else j;
      assert f[j0] == t && j0 != kx && j0 != ky;
      assert Ids(f)[j0] != Ids(f)[kx] && Ids(f)[j0] != Ids(f)[ky];
    }
  }

  lemma LinkedBag<N, T>(item: N -> T, f: seq<Tree<N>>, ky: nat, kx: nat)
    requires kx < |f| && ky < |f| && kx != ky
    ensures Bag(Linked(f, ky, kx)) == Bag(f) && Items(item, Linked(f, ky, kx)) == Items(item, f)
  {
    hide Bag, Items;
    var g, i, x, y := Without(f, ky), Shifted(kx, ky), f[kx], f[ky];
    assert g[i] == x;
    BagAt(item, f, ky);
    BagAt(item, g, i);
    BagAt(item, Linked(f, ky, kx), i);
    assert Without(Linked(f, ky, kx), i) == Without(g, i);
    BagOne(item, x);
    BagOne(item, y);
    BagOne(item, Grown(x, y));
    BagSecond(item, x.kids, y);
  }

  /** Replacing one tree of a forest by one with the same root that is stored now. */
  lemma Regrown<N>(m: Memory<N>, m': Memory<N>, f: seq<Tree<N>>, i: nat, t: Tree<N>)
    requires i < |f| && f[i].id == t.id && Apart(f[i := t]) && Stored(m', t)
    requires Ring(m, Ids(f)) && forall u :: u in f ==> SamePlace(m, m', u.id)
    requires forall j :: 0 <= j < |f| && j != i ==> Stored(m', f[j])
    ensures Shaped(m', f[i := t], {})
  {
    hide Stored, Apart;
    assert Ids(f[i := t]) == Ids(f);
    forall n | n in Ids(f)
      ensures SamePlace(m, m', n)
    {
      var u := IdIn(f, n);
    }
    RingFramed(m, m', Ids(f));
  }

  /** Everything that linking y below x does to memory. */
  function LinkedMemory<N>(m: Memory<N>, y: N, x: N): Memory<N>
    requires y in m.left && y in m.right
    requires x in m.degree && (x in m.child ==> m.child[x] in m.right)
  {
    Adopted(Alone(Bypassed(m, y), y), x, y)
  }

  lemma LinkedIsShaped<N>(m: Memory<N>, f: seq<Tree<N>>, ky: nat, kx: nat)
    requires Shaped(m, f, {}) && kx < |f| && ky < |f| && kx != ky
    ensures f[ky].id in m.left && f[ky].id in m.right && f[kx].id in m.degree
    ensures f[kx].id in m.child ==> m.child[f[kx].id] in m.right
    ensures Shaped(LinkedMemory(m, f[ky].id, f[kx].id), Linked(f, ky, kx), {})
    ensures Linked(f, ky, kx)[0].id == if ky == 0 then m.right[f[0].id] else f[0].id
  {
    hide Bag, Stored, Apart, Ring;
    var x, y, g, i := f[kx], f[ky], Without(f, ky), Shifted(kx, ky);
    SpliceOut(m, f, ky, {});
    ApartAt(f, ky);
    assert g[i] == x;
    assert Ids(f)[1] == f[1].id && m.right[f[0].id] == f[1].id by {
      RightOfRoot(m, f);
    }
    KidsInMemory(m, x);
    var m1 := Bypassed(m, y.id);
    AloneApart(m1, g, y);
    LinkedBag(n => n, f, ky, kx);
    SameBagApart(f, Linked(f, ky, kx));
    AdoptInForest(Alone(m1, y.id), g, i, y);
  }

  lemma SameBagApart<N>(f: seq<Tree<N>>, g: seq<Tree<N>>)
    requires Apart(f) && Bag(f) == Bag(g)
    ensures Apart(g)
  {
  }

  lemma RightOfRoot<N>(m: Memory<N>, f: seq<Tree<N>>)
    requires Ring(m, Ids(f)) && |f| > 1
    ensures f[0].id in m.right && m.right[f[0].id] == f[1].id
  {
    assert RingAt(m, Ids(f), 0);
  }

  /** A tree outside the forest becomes a child of one of its roots. */
  lemma AdoptInForest<N>(m: Memory<N>, g: seq<Tree<N>>, i: nat, y: Tree<N>)
    requires Shaped(m, g, {}) && i < |g| && Stored(m, y) && Ring(m, [y.id])
    requires Apart(g[i := Grown(g[i], y)])
    ensures g[i].id in m.degree && (g[i].id in m.child ==> m.child[g[i].id] in m.right)
    ensures Shaped(Adopted(m, g[i].id, y.id), g[i := Grown(g[i], y)], {})
  {
    hide Bag, Stored, Apart, Ring;
    var x, t := g[i], Grown(g[i], y);
    var f := g[i := t];
    AdoptedTwo(f, i, x, y);
    KidsInMemory(m, x);
    AdoptedIsStored(m, x, y);
    AdoptedElsewhere(m, x.id, y.id);
    var m' := Adopted(m, x.id, y.id);
    ElsewhereApart(g, i, y);
    forall j | 0 <= j < |g| && j != i
      ensures Stored(m', g[j])
    {
      StoredNodes(m, g[j]);
      StoredFramed(m, m', g[j]);
    }
    forall u | u in g
      ensures SamePlace(m, m', u.id)
    {
      RootsInMemory(m, g, u);
    }
    Regrown(m, m', g, i, t);
  }

  lemma RootsInMemory<N>(m: Memory<N>, g: seq<Tree<N>>, u: Tree<N>)
    requires Ring(m, Ids(g)) && u in g
    ensures u.id in m.left && u.id in m.right
  {
    var k :| 0 <= k < |g| && g[k] == u;
    assert RingAt(m, Ids(g), k);
  }

  lemma AdoptedTwo<N>(f: seq<Tree<N>>, i: nat, x: Tree<N>, y: Tree<N>)
    requires i < |f| && f[i] == Grown(x, y) && Apart(f)
    ensures Apart([x, y])
  {
    hide Bag;
    BagAt(n => n, f, i);
    SumOfApart(Bag(Without(f, i)), Bag([f[i]]), Bag(f));
    GrownBag(x, y);
  }

  lemma GrownBag<N>(x: Tree<N>, y: Tree<N>)
    ensures Bag([Grown(x, y)]) == Bag([x, y])
  {
    hide Bag;
    BagOne(n => n, Grown(x, y));
    BagSecond(n => n, x.kids, y);
    BagOne(n => n, y);
    BagOfTwo(x, y);
  }

  /** The other trees have nothing to do with the new child and its new siblings. */
  lemma ElsewhereApart<N>(g: seq<Tree<N>>, i: nat, y: Tree<N>)
    requires i < |g| && Apart(g[i := Grown(g[i], y)])
    ensures forall j :: 0 <= j < |g| && j != i ==> g[j].id != g[i].id && g[i].id !in Bag(g[j].kids)
    ensures forall j, k :: 0 <= j < |g| && j != i && k in Second(g[i].kids, y) ==> k.id != g[j].id && k.id !in Bag(g[j].kids)
    ensures forall k :: k in Second(g[i].kids, y) ==> k.id != g[i].id
  {
    hide Bag;
    var f, t := g[i := Grown(g[i], y)], Grown(g[i], y);
    ApartAt(f, i);
    forall k | k in t.kids
      ensures k.id in Bag(t.kids)
    {
      BagHasTree(t.kids, k);
    }
    forall j | 0 <= j < |g| && j != i
      ensures g[j].id in Bag(Without(f, i)) && Bag(g[j].kids) <= Bag(Without(f, i))
    {
      assert Without(f, i)[Shifted(j, i)] == g[j];
      BagHas(Without(f, i), Shifted(j, i));
    }
  }

  // ----- Slots by degree -----

  /** Every tree of the forest has settled in the slot of its degree or is still to do, but not both. */
  ghost predicate Settling<N>(f: seq<Tree<N>>, slots: map<nat, N>, todo: seq<N>) {
    && (forall d :: d in slots ==> exists t :: t in f && t.id == slots[d] && |t.kids| == d)
    && (forall t :: t in f ==> InSlot(slots, t) || t.id in todo)
    && (forall n :: n in todo ==> n in Ids(f))
    && (forall d :: d in slots ==> slots[d] !in todo)
    && Distinct(todo)
  }

  ghost predicate InSlot<N>(slots: map<nat, N>, t: Tree<N>) {
    |t.kids| in slots && slots[|t.kids|] == t.id
  }

  lemma NothingSettled<N>(f: seq<Tree<N>>)
    requires Distinct(Ids(f))
    ensures Settling(f, map[], Ids(f))
  {
    forall t | t in f
      ensures t.id in Ids(f)
    {
      IdOf(f, t);
    }
  }

  /** The tree of a root. */
  lemma TreeOf<N>(f: seq<Tree<N>>, n: N) returns (k: nat)
    requires n in Ids(f)
    ensures k < |f| && f[k].id == n
  {
    k :| 0 <= k < |f| && Ids(f)[k] == n;
  }

  lemma SettledTree<N>(f: seq<Tree<N>>, slots: map<nat, N>, todo: seq<N>, d: nat) returns (k: nat)
    requires Settling(f, slots, todo) && d in slots
    ensures k < |f| && f[k].id == slots[d] && |f[k].kids| == d
  {
    var t :| t in f && t.id == slots[d] && |t.kids| == d;
    k :| 0 <= k < |f| && f[k] == t;
  }

  lemma RootsDiffer<N>(f: seq<Tree<N>>, t: Tree<N>, u: Tree<N>)
    requires Distinct(Ids(f)) && t in f && u in f && t.id == u.id
    ensures t == u
  {
    var j :| 0 <= j < |f| && f[j] == t;
    var k :| 0 <= k < |f| && f[k] == u;
    assert Ids(f)[j] == Ids(f)[k];
  }

  /** The tree to do next settles in its slot, if that is free. */
  lemma Settle<N>(f: seq<Tree<N>>, slots: map<nat, N>, todo: seq<N>, k: nat)
    requires Distinct(Ids(f)) && Settling(f, slots, todo) && todo != [] && k < |f| && f[k].id == todo[0]
    requires |f[k].kids| !in slots
    ensures Settling(f, slots[|f[k].kids| := todo[0]], todo[1..])
  {
    var slots' := slots[|f[k].kids| := todo[0]];
    assert todo == [todo[0]] + todo[1..];
    assert f[k] in f;
    forall t | t in f
      ensures InSlot(slots', t) || t.id in todo[1..]
    {
      if t.id == todo[0] {
        RootsDiffer(f, t, f[k]);
      }
    }
  }

  /** The tree to do next is linked with the settled one of its degree; the result is to do. */
  lemma Resettle<N>(f: seq<Tree<N>>, slots: map<nat, N>, todo: seq<N>, ky: nat, kx: nat, d: nat)
    requires Distinct(Ids(f)) && Settling(f, slots, todo) && todo != [] && d in slots
    requires kx < |f| && ky < |f| && kx != ky && |f[kx].kids| == |f[ky].kids| == d
    requires (f[kx].id == todo[0] && f[ky].id == slots[d]) || (f[ky].id == todo[0] && f[kx].id == slots[d])
    ensures Settling(Linked(f, ky, kx), slots - {d}, [f[kx].id] + todo[1..])
  {
    hide Linked, Grown;
    var x, y, f', slots', todo' := f[kx], f[ky], Linked(f, ky, kx), slots - {d}, [f[kx].id] + todo[1..];
    assert todo == [todo[0]] + todo[1..];
    LinkedMembers(f, ky, kx);
    GrownId(x, y);
    forall e | e in slots'
      ensures exists t :: t in f' && t.id == slots'[e] && |t.kids| == e
      ensures slots'[e] !in todo'
    {
      var t :| t in f && t.id == slots[e] && |t.kids| == e;
      assert t != x && t != y;
      if t.id == x.id {
        RootsDiffer(f, t, x);
      }
    }
    forall t | t in f'
      ensures InSlot(slots', t) || t.id in todo'
    {
      if t != Grown(x, y) && !InSlot(slots', t) {
        assert t in f;
        if InSlot(slots, t) {
          assert false;
        }
      }
    }
    forall n | n in todo'
      ensures n in Ids(f')
    {
      if n == x.id {
        IdOf(f', Grown(x, y));
      } else {
        var t := IdIn(f, n);
        assert n != todo[0] && n != slots[d];
        IdOf(f', t);
      }
    }
  }

  lemma GrownId<N>(x: Tree<N>, y: Tree<N>)
    ensures Grown(x, y).id == x.id
  {
  }

  /** When all have settled, no two trees have the same degree. */
  lemma AllSettled<N>(f: seq<Tree<N>>, slots: map<nat, N>)
    requires Settling(f, slots, [])
    ensures forall t :: t in f ==> InSlot(slots, t)
    ensures forall t, u :: t in f && u in f && |t.kids| == |u.kids| ==> t.id == u.id
  {
  }

  // ----- Freeing the children of a root -----

  /** Of the children of the loose root z, `rest` have not yet joined the list of roots. */
  ghost predicate Freeing<N, T>(compare: (T, T) -> int, item: N -> T, m: Memory<N>, f: seq<Tree<N>>, rest: seq<Tree<N>>, f0: seq<Tree<N>>, z: N) {
    && f != [] && Shaped(m, f, {z}) && AllGood(compare, item, f) && AllGood(compare, item, rest)
    && (forall t :: t in rest ==> Stored(m, t))
    && Apart(f0) && Bag(f) + Bag(rest) == Bag(f0) && Items(item, f) + Items(item, rest) == Items(item, f0)
  }

  lemma BagReplaced<N, T>(item: N -> T, f: seq<Tree<N>>, k: nat)
    requires k < |f|
    ensures Bag(f[k := Tree(f[k].id, [])]) + Bag(f[k].kids) == Bag(f)
    ensures Items(item, f[k := Tree(f[k].id, [])]) + Items(item, f[k].kids) == Items(item, f)
  {
    hide Bag, Items;
    var stub := Tree(f[k].id, []);
    var g := f[k := stub];
    LeafBag(item, stub);
    BagAt(item, f, k);
    BagOne(item, f[k]);
    BagAt(item, g, k);
    assert Without(g, k) == Without(f, k);
    AddLast(Bag(Without(f, k)), f[k].id, Bag(f[k].kids));
    AddLast(Items(item, Without(f, k)), item(f[k].id), Items(item, f[k].kids));
  }

  lemma AddLast<X>(a: multiset<X>, x: X, b: multiset<X>)
    ensures a + multiset{x} + b == a + (multiset{x} + b)
  {
  }

  lemma AllFreed<N, T>(compare: (T, T) -> int, item: N -> T, m: Memory<N>, f: seq<Tree<N>>, f0: seq<Tree<N>>, z: N)
    requires Freeing(compare, item, m, f, [], f0, z)
    ensures Shaped(m, f, {z}) && AllGood(compare, item, f) && Bag(f) == Bag(f0) && Items(item, f) == Items(item, f0)
  {
  }

  /** A root whose children are to be freed. */
  lemma Loosened<N, T>(compare: (T, T) -> int, item: N -> T, m: Memory<N>, f0: seq<Tree<N>>, k: nat)
    requires Shaped(m, f0, {}) && AllGood(compare, item, f0) && k < |f0|
    ensures Freeing(compare, item, m, f0[k := Tree(f0[k].id, [])], f0[k].kids, f0, f0[k].id)
    ensures Distinct(Ids(f0[k].kids)) && Ring(m, Ids(f0[k].kids))
    ensures f0[k].id in m.degree && m.degree[f0[k].id] == |f0[k].kids|
    ensures f0[k].id in m.child <==> f0[k].kids != []
    ensures f0[k].kids != [] ==> m.child[f0[k].id] == f0[k].kids[0].id
  {
    hide Bag, Items;
    var z, f := f0[k].id, f0[k := Tree(f0[k].id, [])];
    BagReplaced(item, f0, k);
    ApartAt(f0, k);
    ApartRoots(f0[k].kids);
    assert f0[k] in f0 && Stored(m, f0[k]) && Good(compare, item, f0[k]);
    assert Ids(f) == Ids(f0);
    SumOfApart(Bag(f), Bag(f0[k].kids), Bag(f0));
    StubIn(compare, item, f0, k);
  }

  lemma StubIn<N, T>(compare: (T, T) -> int, item: N -> T, f0: seq<Tree<N>>, k: nat)
    requires AllGood(compare, item, f0) && k < |f0|
    ensures var f := f0[k := Tree(f0[k].id, [])];
            AllGood(compare, item, f) && forall t :: t in f && t.id != f0[k].id ==> t in f0
  {
    var f := f0[k := Tree(f0[k].id, [])];
    SingleIsGood(compare, item, f0[k].id);
    forall t | t in f
      ensures Good(compare, item, t) && (t.id != f0[k].id ==> t in f0)
    {
      var j :| 0 <= j < |f| && f[j] == t;
      assert j != k ==> t in f0;
    }
  }

  lemma FreeNext<N, T>(compare: (T, T) -> int, item: N -> T, m: Memory<N>, f: seq<Tree<N>>, t: Tree<N>, rest: seq<Tree<N>>, f0: seq<Tree<N>>, z: N)
    requires Freeing(compare, item, m, f, [t] + rest, f0, z)
    ensures Stored(m, t) && Apart([t]) && Apart(rest) && t.id in m.degree
    ensures Bag(f) !! Bag([t]) && Bag(f) !! Bag(rest) && Bag([t]) !! Bag(rest)
  {
    hide Bag, Items, Good;
    assert t in [t] + rest;
    StoredNodes(m, t);
    BagConcat([t], rest);
    SumOfApart(Bag(f), Bag([t] + rest), Bag(f0));
    SumOfApart(Bag([t]), Bag(rest), Bag([t] + rest));
  }

  lemma FreedNext<N, T>(compare: (T, T) -> int, item: N -> T, m: Memory<N>, m': Memory<N>, f: seq<Tree<N>>, t: Tree<N>, rest: seq<Tree<N>>,
                        f0: seq<Tree<N>>, z: N)
    requires Freeing(compare, item, m, f, [t] + rest, f0, z)
    requires f[0].id in m.right && m' == Beside(m, f[0].id, t.id) && Shaped(m', Second(f, t), {z})
    ensures Freeing(compare, item, m', Second(f, t), rest, f0, z)
  {
    hide Bag, Items, Good, Stored, Apart, Ring, Beside;
    FreeNext(compare, item, m, f, t, rest, f0, z);
    SecondMembers(f, t);
    assert t in [t] + rest && forall u :: u in rest ==> u in [t] + rest;
    BagConcat([t], rest);
    ItemsConcat(item, [t], rest);
    BagSecond(item, f, t);
    RestKept(m, f, t, rest);
    TreesKept(m, m', rest, {});
  }

  lemma RestKept<N>(m: Memory<N>, f: seq<Tree<N>>, t: Tree<N>, rest: seq<Tree<N>>)
    requires Ring(m, Ids(f)) && f != []
    requires Bag(f) !! Bag(rest) && Bag([t]) !! Bag(rest)
    ensures f[0].id in m.right && RootsMoved(m, Beside(m, f[0].id, t.id), rest)
  {
    hide Bag;
    RightOfFirst(m, f);
    BagHas(f, 0);
    BagHas([t], 0);
    var u :| u in f && u.id == m.right[f[0].id];
    BagHasTree(f, u);
    forall v, n | v in rest && n in {f[0].id, t.id, u.id}
      ensures n !in Bag(v.kids)
    {
      BagHasTree(rest, v);
    }
    PlacesMoved(m, Beside(m, f[0].id, t.id), rest, {f[0].id, t.id, u.id});
  }
}
