/** The forest of a Fibonacci heap as a value: its circular lists, what splicing does to them,
    heap order and binomial shape. */
module FibonacciForests {
  import opened Permutations
  import opened QuickSort
  import opened Comparators

  datatype Tree<N> = Tree(id: N, kids: seq<Tree<N>>)

  /** What the nodes' pointers and degrees are; a node without children has no entry in `child`. */
  datatype Memory<!N> = Memory(left: map<N, N>, right: map<N, N>, child: map<N, N>, degree: map<N, nat>)

  function Ids<N>(f: seq<Tree<N>>): (ids: seq<N>)
    ensures |ids| == |f| && forall i :: 0 <= i < |f| ==> ids[i] == f[i].id
  {
    seq(|f|, i requires 0 <= i < |f| => f[i].id)
  }

  /** All nodes of a forest. */
  ghost function Bag<N>(f: seq<Tree<N>>): multiset<N> {
    if f == [] then multiset{} else multiset{f[0].id} + Bag(f[0].kids) + Bag(f[1..])
  }

  /** What the nodes of a forest hold. */
  ghost function Items<N, T>(item: N -> T, f: seq<Tree<N>>): multiset<T> {
    if f == [] then multiset{} else multiset{item(f[0].id)} + Items(item, f[0].kids) + Items(item, f[1..])
  }

  /** No node occurs twice. */
  ghost predicate Apart<N>(f: seq<Tree<N>>) {
    forall n :: n in Bag(f) ==> Bag(f)[n] == 1
  }

  /** Where new members of a circular list go: right of the one it is entered by. */
  function Second<X>(s: seq<X>, x: X): seq<X> {
    if s == [] then [x] else [s[0], x] + s[1..]
  }

  // ----- Bags -----

  lemma {:induction false} BagConcat<N>(a: seq<Tree<N>>, b: seq<Tree<N>>)
    ensures Bag(a + b) == Bag(a) + Bag(b)
  {
    if a == [] {
      assert a + b == b;
    } else {
      assert (a + b)[0] == a[0] && (a + b)[1..] == a[1..] + b;
      BagConcat(a[1..], b);
    }
  }

  lemma {:induction false} ItemsConcat<N, T>(item: N -> T, a: seq<Tree<N>>, b: seq<Tree<N>>)
    ensures Items(item, a + b) == Items(item, a) + Items(item, b)
  {
    if a == [] {
      assert a + b == b;
    } else {
      assert (a + b)[0] == a[0] && (a + b)[1..] == a[1..] + b;
      ItemsConcat(item, a[1..], b);
    }
  }

  lemma BagOne<N, T>(item: N -> T, t: Tree<N>)
    ensures Bag([t]) == multiset{t.id} + Bag(t.kids)
    ensures Items(item, [t]) == multiset{item(t.id)} + Items(item, t.kids)
  {
  }

  lemma BagAt<N, T>(item: N -> T, f: seq<Tree<N>>, k: nat)
    requires k < |f|
    ensures Bag(f) == Bag(Without(f, k)) + Bag([f[k]])
    ensures Items(item, f) == Items(item, Without(f, k)) + Items(item, [f[k]])
  {
    hide Bag, Items;
    assert f == f[..k] + [f[k]] + f[k + 1..];
    BagConcat(f[..k] + [f[k]], f[k + 1..]);
    BagConcat(f[..k], [f[k]]);
    BagConcat(f[..k], f[k + 1..]);
    ItemsConcat(item, f[..k] + [f[k]], f[k + 1..]);
    ItemsConcat(item, f[..k], [f[k]]);
    ItemsConcat(item, f[..k], f[k + 1..]);
  }

  lemma BagSecond<N, T>(item: N -> T, f: seq<Tree<N>>, t: Tree<N>)
    ensures Bag(Second(f, t)) == Bag(f) + Bag([t])
    ensures Items(item, Second(f, t)) == Items(item, f) + Items(item, [t])
  {
    hide Bag, Items;
    if f == [] {
      BagConcat(f, [t]);
      ItemsConcat(item, f, [t]);
      assert f + [t] == [t];
    } else {
      assert Without(Second(f, t), 1) == f;
      BagAt(item, Second(f, t), 1);
    }
  }

  /** Everything in a tree of the forest is in the forest. */
  lemma BagHas<N>(f: seq<Tree<N>>, k: nat)
    requires k < |f|
    ensures f[k].id in Bag(f) && Bag(f[k].kids) <= Bag(f) && Bag([f[k]]) <= Bag(f)
  {
    hide Bag;
    BagAt(n => n, f, k);
    BagOne(n => n, f[k]);
  }

  lemma SumOfApart<N>(a: multiset<N>, b: multiset<N>, c: multiset<N>)
    requires c == a + b && forall n :: n in c ==> c[n] == 1
    ensures a !! b
    ensures forall n :: n in a ==> a[n] == 1
    ensures forall n :: n in b ==> b[n] == 1
  {
    forall n | n in a
      ensures a[n] == 1 && n !in b
    {
      assert n in c;
    }
    forall n | n in b
      ensures b[n] == 1
    {
      assert n in c;
    }
  }

  /** A tree of a forest without repetition has no node in common with the others, and its root is not below it. */
  lemma ApartAt<N>(f: seq<Tree<N>>, k: nat)
    requires Apart(f) && k < |f|
    ensures Apart(Without(f, k)) && Apart(f[k].kids)
    ensures Bag(Without(f, k)) !! Bag([f[k]])
    ensures f[k].id !in Bag(f[k].kids) && f[k].id !in Bag(Without(f, k)) && Bag(f[k].kids) !! Bag(Without(f, k))
  {
    hide Bag;
    BagAt(n => n, f, k);
    BagOne(n => n, f[k]);
    SumOfApart(Bag(Without(f, k)), Bag([f[k]]), Bag(f));
    SumOfApart(multiset{f[k].id}, Bag(f[k].kids), Bag([f[k]]));
    assert f[k].id in multiset{f[k].id};
  }

  lemma ApartRoots<N>(f: seq<Tree<N>>)
    requires Apart(f)
    ensures Distinct(Ids(f))
    ensures forall t, u :: t in f && u in f ==> u.id !in Bag(t.kids)
  {
    hide Bag;
    forall i, j | 0 <= i < j < |f|
      ensures Ids(f)[i] != Ids(f)[j]
    {
      ApartAt(f, j);
      assert Without(f, j)[i] == f[i];
      BagHas(Without(f, j), i);
    }
    forall t, u | t in f && u in f
      ensures u.id !in Bag(t.kids)
    {
      var k :| 0 <= k < |f| && f[k] == t;
      ApartAt(f, k);
      WithoutMembers(f, k);
      if u != t {
        BagHasTree(Without(f, k), u);
      }
    }
  }

  lemma BagHasTree<N>(f: seq<Tree<N>>, t: Tree<N>)
    requires t in f
    ensures t.id in Bag(f) && Bag(t.kids) <= Bag(f)
  {
    var k :| 0 <= k < |f| && f[k] == t;
    BagHas(f, k);
  }

  lemma SecondMembers<X>(s: seq<X>, x: X)
    ensures forall y :: y in Second(s, x) <==> y in s || y == x
  {
    if s != [] {
      assert s == [s[0]] + s[1..];
    }
  }

  lemma IdIn<N>(f: seq<Tree<N>>, n: N) returns (t: Tree<N>)
    requires n in Ids(f)
    ensures t in f && t.id == n
  {
    var k :| 0 <= k < |f| && Ids(f)[k] == n;
    t := f[k];
  }

  lemma IdOf<N>(f: seq<Tree<N>>, t: Tree<N>)
    requires t in f
    ensures t.id in Ids(f)
  {
    var k :| 0 <= k < |f| && f[k] == t;
    assert Ids(f)[k] == t.id;
  }

  // ----- Circular lists -----

  function Next(i: nat, n: nat): nat {
    if i + 1 < n then i + 1 else 0
  }

  function Prev(i: nat, n: nat): nat {
    if i > 0 then i - 1 else if n > 0 then n - 1 else 0
  }

  /** Going right from the first visits the sequence and comes back; going left goes the other way round. */
  ghost predicate Ring<N>(m: Memory<N>, s: seq<N>) {
    forall i :: 0 <= i < |s| ==> RingAt(m, s, i)
  }

  ghost predicate RingAt<N>(m: Memory<N>, s: seq<N>, i: nat)
    requires i < |s|
  {
    && s[i] in m.left && s[i] in m.right
    && m.right[s[i]] == s[Next(i, |s|)] && m.left[s[i]] == s[Prev(i, |s|)]
  }

  ghost predicate SamePlace<N>(m: Memory<N>, m': Memory<N>, n: N) {
    && n in m.left && n in m'.left && m.left[n] == m'.left[n]
    && n in m.right && n in m'.right && m.right[n] == m'.right[n]
  }

  lemma RingFramed<N>(m: Memory<N>, m': Memory<N>, s: seq<N>)
    requires Ring(m, s) && forall n :: n in s ==> SamePlace(m, m', n)
    ensures Ring(m', s)
  {
    forall i | 0 <= i < |s|
      ensures RingAt(m', s, i)
    {
      assert RingAt(m, s, i) && SamePlace(m, m', s[i]);
    }
  }

  /** Memory with `node` put right of `anchor`. */
  function Beside<N>(m: Memory<N>, anchor: N, node: N): Memory<N>
    requires anchor in m.right
  {
    var r := m.right[anchor];
    m.(right := m.right[node := r][anchor := node], left := m.left[node := anchor][r := node])
  }

  /** Memory with the neighbours of `y` joined. */
  function Bypassed<N>(m: Memory<N>, y: N): Memory<N>
    requires y in m.left && y in m.right
  {
    m.(right := m.right[m.left[y] := m.right[y]], left := m.left[m.right[y] := m.left[y]])
  }

  function Alone<N>(m: Memory<N>, y: N): Memory<N> {
    m.(left := m.left[y := y], right := m.right[y := y])
  }

  lemma RingGrows<N>(m: Memory<N>, s: seq<N>, node: N)
    requires Ring(m, s) && s != [] && Distinct(s) && node !in s
    ensures s[0] in m.right && Ring(Beside(m, s[0], node), Second(s, node))
  {
    assert RingAt(m, s, 0);
    var m', s' := Beside(m, s[0], node), Second(s, node);
    forall i | 0 <= i < |s'|
      ensures RingAt(m', s', i)
    {
      if i >= 2 {
        assert RingAt(m, s, i - 1);
        assert s[i - 1] != s[0] && s'[i] == s[i - 1];
      }
    }
  }

  lemma RingShrinks<N>(m: Memory<N>, s: seq<N>, k: nat)
    requires Ring(m, s) && k < |s| && Distinct(s) && |s| > 1
    ensures s[k] in m.left && s[k] in m.right && Ring(Bypassed(m, s[k]), Without(s, k))
  {
    assert RingAt(m, s, k);
    var m', s' := Bypassed(m, s[k]), Without(s, k);
    forall i | 0 <= i < |s'|
      ensures RingAt(m', s', i)
    {
      BypassedAt(m, s, k, i);
    }
  }

  lemma BypassedAt<N>(m: Memory<N>, s: seq<N>, k: nat, i: nat)
    requires Ring(m, s) && k < |s| && Distinct(s) && i < |Without(s, k)|
    ensures s[k] in m.left && s[k] in m.right && RingAt(Bypassed(m, s[k]), Without(s, k), i)
  {
    var j := if i < k then i else i + 1;
    WithoutNeighbours(s, k, i);
    assert RingAt(m, s, k) && RingAt(m, s, j);
    Neighbours(s, k, j);
    hide Without, Next, Prev, Ring, Distinct;
  }

  lemma Neighbours<N>(s: seq<N>, k: nat, j: nat)
    requires k < |s| && j < |s| && Distinct(s)
    ensures s[j] == s[Prev(k, |s|)] <==> Next(j, |s|) == k
    ensures s[j] == s[Next(k, |s|)] <==> Prev(j, |s|) == k
  {
  }

  /** What stands next to entry i once entry k is gone. */
  lemma WithoutNeighbours<N>(s: seq<N>, k: nat, i: nat)
    requires k < |s| && i < |s| - 1
    ensures var j, s' := if i < k then i else i + 1, Without(s, k);
            && |s'| == |s| - 1 && s'[i] == s[j]
            && s'[Next(i, |s'|)] == s[if Next(j, |s|) == k then Next(k, |s|) else Next(j, |s|)]
            && s'[Prev(i, |s'|)] == s[if Prev(j, |s|) == k then Prev(k, |s|) else Prev(j, |s|)]
  {
  }

  // ----- Trees in memory -----

  /** Degree, child pointer and list of children. */
  ghost predicate Sound<N>(m: Memory<N>, t: Tree<N>) {
    && t.id in m.degree && m.degree[t.id] == |t.kids|
    && (if t.kids == [] then t.id !in m.child else t.id in m.child && m.child[t.id] == t.kids[0].id)
    && Ring(m, Ids(t.kids))
  }

  ghost predicate Stored<N>(m: Memory<N>, t: Tree<N>) {
    Sound(m, t) && forall k :: k in t.kids ==> Stored(m, k)
  }

  ghost predicate SameBelow<N>(m: Memory<N>, m': Memory<N>, n: N) {
    && (n in m.degree ==> n in m'.degree && m.degree[n] == m'.degree[n])
    && (n in m.child <==> n in m'.child) && (n in m.child ==> m.child[n] == m'.child[n])
  }

  /** The place of the root among its siblings does not matter to a tree. */
  lemma {:induction false} StoredFramed<N>(m: Memory<N>, m': Memory<N>, t: Tree<N>)
    requires Stored(m, t) && SameBelow(m, m', t.id)
    requires forall n :: n in Bag(t.kids) ==> SameBelow(m, m', n) && SamePlace(m, m', n)
    ensures Stored(m', t)
  {
    forall n | n in Ids(t.kids)
      ensures SamePlace(m, m', n)
    {
      var k := IdIn(t.kids, n);
      BagHasTree(t.kids, k);
    }
    RingFramed(m, m', Ids(t.kids));
    forall k | k in t.kids
      ensures Stored(m', k)
    {
      BagHasTree(t.kids, k);
      StoredFramed(m, m', k);
    }
  }

  lemma {:induction false} StoredNodes<N>(m: Memory<N>, t: Tree<N>)
    requires Stored(m, t)
    ensures t.id in m.degree
    ensures forall n :: n in Bag(t.kids) ==> n in m.left && n in m.right && n in m.degree
  {
    forall n | n in Bag(t.kids)
      ensures n in m.left && n in m.right && n in m.degree
    {
      var k := WhichTree(t.kids, n);
      assert RingAt(m, Ids(t.kids), k);
      StoredNodes(m, t.kids[k]);
    }
  }

  lemma BagUnfolds<N>(f: seq<Tree<N>>)
    ensures Bag(f) == if f == [] then multiset{} else multiset{f[0].id} + Bag(f[0].kids) + Bag(f[1..])
  {
  }

  /** A node of a forest is in one of its trees. */
  lemma {:induction false} WhichTree<N>(f: seq<Tree<N>>, n: N) returns (k: nat)
    requires n in Bag(f)
    ensures k < |f| && (n == f[k].id || n in Bag(f[k].kids))
  {
    hide Bag;
    BagUnfolds(f);
    if n == f[0].id || n in Bag(f[0].kids) {
      k := 0;
    } else {
      var j := WhichTree(f[1..], n);
      k := j + 1;
    }
  }

  // ----- The forest in memory -----

  /** The roots form a circular list; every tree but those with loose roots is stored below its root. */
  ghost predicate Shaped<N>(m: Memory<N>, f: seq<Tree<N>>, loose: set<N>) {
    Ring(m, Ids(f)) && Apart(f) && forall t :: t in f && t.id !in loose ==> Stored(m, t)
  }

  /** Only roots have changed places. */
  ghost predicate RootsMoved<N>(m: Memory<N>, m': Memory<N>, f: seq<Tree<N>>) {
    && (forall t :: t in f ==> SameBelow(m, m', t.id))
    && (forall t, n :: t in f && n in Bag(t.kids) ==> SameBelow(m, m', n) && (n in m.left && n in m.right ==> SamePlace(m, m', n)))
  }

  lemma TreesKept<N>(m: Memory<N>, m': Memory<N>, f: seq<Tree<N>>, loose: set<N>)
    requires RootsMoved(m, m', f)
    requires forall t :: t in f && t.id !in loose ==> Stored(m, t)
    ensures forall t :: t in f && t.id !in loose ==> Stored(m', t)
  {
    hide Stored, Bag;
    forall t | t in f && t.id !in loose
      ensures Stored(m', t)
    {
      StoredNodes(m, t);
      StoredFramed(m, m', t);
    }
  }

  /** Pointers have changed only at nodes that are not below any tree of the list. */
  lemma PlacesMoved<N>(m: Memory<N>, m': Memory<N>, f: seq<Tree<N>>, moved: set<N>)
    requires m'.degree == m.degree && m'.child == m.child
    requires forall n :: n in m.left && n !in moved ==> n in m'.left && m'.left[n] == m.left[n]
    requires forall n :: n in m.right && n !in moved ==> n in m'.right && m'.right[n] == m.right[n]
    requires forall t, n :: t in f && n in moved ==> n !in Bag(t.kids)
    ensures RootsMoved(m, m', f)
  {
    hide Bag;
  }

  /** Splicing a tree in beside the root. */
  lemma SpliceIn<N>(m: Memory<N>, f: seq<Tree<N>>, t: Tree<N>, loose: set<N>)
    requires Shaped(m, f, loose) && f != [] && Stored(m, t) && Apart([t]) && Bag(f) !! Bag([t])
    ensures f[0].id in m.right && Shaped(Beside(m, f[0].id, t.id), Second(f, t), loose)
  {
    hide Bag, Stored, Apart;
    var f' := Second(f, t);
    SecondMembers(f, t);
    ApartSecond(f, t);
    ApartRoots(f);
    ApartRoots(f');
    RightOfFirst(m, f);
    var m' := Beside(m, f[0].id, t.id);
    PlacesMoved(m, m', f', {f[0].id, t.id, m.right[f[0].id]});
    TreesKept(m, m', f', loose);
    IdsSecond(f, t);
    FreshId(f, t);
    RingGrows(m, Ids(f), t.id);
  }

  lemma FreshId<N>(f: seq<Tree<N>>, t: Tree<N>)
    requires Bag(f) !! Bag([t])
    ensures t.id !in Ids(f)
  {
    if t.id in Ids(f) {
      var u := IdIn(f, t.id);
      BagHasTree(f, u);
      BagHasTree([t], t);
    }
  }

  /** What is right of the first root is a root. */
  lemma RightOfFirst<N>(m: Memory<N>, f: seq<Tree<N>>)
    requires Ring(m, Ids(f)) && f != []
    ensures f[0].id in m.right && exists u :: u in f && u.id == m.right[f[0].id]
  {
    assert RingAt(m, Ids(f), 0);
    assert f[Next(0, |f|)] in f;
  }

  lemma IdsSecond<N>(f: seq<Tree<N>>, t: Tree<N>)
    ensures Ids(Second(f, t)) == Second(Ids(f), t.id)
  {
  }

  lemma ApartSecond<N>(f: seq<Tree<N>>, t: Tree<N>)
    requires Apart(f) && Apart([t]) && Bag(f) !! Bag([t])
    ensures Apart(Second(f, t))
  {
    hide Bag;
    BagSecond(n => n, f, t);
  }

  lemma IdsWithout<N>(f: seq<Tree<N>>, k: nat)
    requires k < |f|
    ensures Ids(Without(f, k)) == Without(Ids(f), k)
  {
  }

  /** Splicing a tree out of the list of roots; the tree itself stays stored. */
  lemma SpliceOut<N>(m: Memory<N>, f: seq<Tree<N>>, k: nat, loose: set<N>)
    requires Shaped(m, f, loose) && k < |f| && |f| > 1
    ensures f[k].id in m.left && f[k].id in m.right
    ensures Shaped(Bypassed(m, f[k].id), Without(f, k), loose)
    ensures f[k].id !in loose ==> Stored(Bypassed(m, f[k].id), f[k])
  {
    hide Bag, Stored, Apart;
    ApartAt(f, k);
    ApartRoots(f);
    IdsWithout(f, k);
    RingShrinks(m, Ids(f), k);
    assert RingAt(m, Ids(f), k);
    assert f[Next(k, |f|)] in f && f[Prev(k, |f|)] in f;
    var m' := Bypassed(m, f[k].id);
    PlacesMoved(m, m', f, {m.left[f[k].id], m.right[f[k].id]});
    TreesKept(m, m', f, loose);
    WithoutMembers(f, k);
  }

  /** A node that is no longer in the forest may be closed upon itself. */
  lemma AloneApart<N>(m: Memory<N>, f: seq<Tree<N>>, t: Tree<N>)
    requires Shaped(m, f, {}) && Stored(m, t) && t.id !in Bag(f) && t.id !in Bag(t.kids)
    ensures Shaped(Alone(m, t.id), f, {}) && Stored(Alone(m, t.id), t) && Ring(Alone(m, t.id), [t.id])
  {
    hide Bag, Stored, Apart;
    var m' := Alone(m, t.id);
    forall u | u in f + [t]
      ensures t.id !in Bag(u.kids)
    {
      if u in f {
        BagHasTree(f, u);
      }
    }
    PlacesMoved(m, m', f + [t], {t.id});
    TreesKept(m, m', f + [t], {});
    forall n | n in Ids(f)
      ensures SamePlace(m, m', n)
    {
      var k :| 0 <= k < |f| && Ids(f)[k] == n;
      assert RingAt(m, Ids(f), k);
      BagHas(f, k);
    }
    RingFramed(m, m', Ids(f));
  }

  /** Memory with y among the children of x, whose degree goes up. */
  function Adopted<N>(m: Memory<N>, x: N, y: N): Memory<N>
    requires x in m.degree && (x in m.child ==> m.child[x] in m.right)
  {
    var m1 := if x in m.child then Beside(m, m.child[x], y) else m.(child := m.child[x := y]);
    m1.(degree := m1.degree[x := m1.degree[x] + 1])
  }

  /** x with y as one more child. */
  function Grown<N>(x: Tree<N>, y: Tree<N>): Tree<N> {
    Tree(x.id, Second(x.kids, y))
  }

  lemma AdoptedIsStored<N>(m: Memory<N>, x: Tree<N>, y: Tree<N>)
    requires Stored(m, x) && Stored(m, y) && Ring(m, [y.id]) && Apart([x, y])
    ensures x.id in m.degree && (x.id in m.child ==> m.child[x.id] in m.right)
    ensures Stored(Adopted(m, x.id, y.id), Grown(x, y))
  {
    hide Bag, Apart;
    var kids, kids' := x.kids, Second(x.kids, y);
    KidsApart(x, y);
    if kids != [] {
      assert RingAt(m, Ids(kids), 0);
    }
    var m' := Adopted(m, x.id, y.id);
    IdsSecond(kids, y);
    assert Ring(m', Ids(kids')) by {
      if kids == [] {
        assert RingAt(m, [y.id], 0);
        assert RingAt(m', [y.id], 0);
      } else {
        RingGrows(m, Ids(kids), y.id);
        RingDegree(Beside(m, kids[0].id, y.id), m', Second(Ids(kids), y.id));
      }
    }
    KidsStored(m, x, y);
  }

  lemma RingDegree<N>(m: Memory<N>, m': Memory<N>, s: seq<N>)
    requires Ring(m, s) && m'.left == m.left && m'.right == m.right
    ensures Ring(m', s)
  {
    forall i | 0 <= i < |s|
      ensures RingAt(m', s, i)
    {
      assert RingAt(m, s, i);
    }
  }

  lemma BagOfTwo<N>(x: Tree<N>, y: Tree<N>)
    ensures Bag([x, y]) == multiset{x.id} + Bag(x.kids) + multiset{y.id} + Bag(y.kids)
  {
    BagConcat([x], [y]);
    assert [x] + [y] == [x, y];
    BagOne(n => n, x);
    BagOne(n => n, y);
  }

  /** In the grown tree the root, the old children, the new one and what is below them are all different. */
  lemma KidsApart<N>(x: Tree<N>, y: Tree<N>)
    requires Apart([x, y])
    ensures Apart(Second(x.kids, y)) && x.id !in Bag(Second(x.kids, y))
    ensures Distinct(Ids(x.kids)) && y.id !in Ids(x.kids)
  {
    hide Bag;
    var kids' := Second(x.kids, y);
    BagOfTwo(x, y);
    BagSecond(n => n, x.kids, y);
    BagOne(n => n, y);
    SumOfApart(multiset{x.id}, Bag(kids'), Bag([x, y]));
    assert x.id in multiset{x.id};
    SumOfApart(Bag(x.kids), Bag([y]), Bag(kids'));
    assert Apart(x.kids);
    ApartRoots(x.kids);
    FreshId(x.kids, y);
  }

  lemma StoredKid<N>(m: Memory<N>, x: Tree<N>, y: Tree<N>, k: Tree<N>)
    requires Stored(m, x) && Stored(m, y) && k in Second(x.kids, y)
    ensures Stored(m, k)
  {
    hide Second;
    SecondMembers(x.kids, y);
    assert k in x.kids || k == y;
  }

  lemma KidsStored<N>(m: Memory<N>, x: Tree<N>, y: Tree<N>)
    requires Stored(m, x) && Stored(m, y) && Apart([x, y])
    requires x.id in m.degree && (x.id in m.child ==> m.child[x.id] in m.right)
    ensures forall k :: k in Second(x.kids, y) ==> Stored(Adopted(m, x.id, y.id), k)
  {
    hide Bag, Apart, Stored, Second, Adopted, SameBelow, SamePlace, Ids, Ring;
    var kids', m' := Second(x.kids, y), Adopted(m, x.id, y.id);
    KidsApart(x, y);
    ApartRoots(kids');
    SecondMembers(x.kids, y);
    KidsInMemory(m, x);
    AdoptedElsewhere(m, x.id, y.id);
    forall k | k in kids'
      ensures Stored(m', k)
    {
      StoredKid(m, x, y, k);
      StoredNodes(m, k);
      BagHasTree(kids', k);
      assert forall n :: n in Bag(k.kids) ==> n in Bag(kids');
      StoredFramed(m, m', k);
    }
  }

  /** Adoption changes places only beside the first child, and nothing else but x's degree and child. */
  lemma AdoptedElsewhere<N>(m: Memory<N>, x: N, y: N)
    requires x in m.degree && (x in m.child ==> m.child[x] in m.right)
    ensures var m' := Adopted(m, x, y);
            && (forall n :: n != x ==> SameBelow(m, m', n))
            && (forall n :: n in m.left && n in m.right && n != y && (x in m.child ==> n != m.child[x] && n != m.right[m.child[x]]) ==> SamePlace(m, m', n))
  {
  }

  lemma KidsInMemory<N>(m: Memory<N>, x: Tree<N>)
    requires Stored(m, x)
    ensures x.id in m.degree && (x.id in m.child <==> x.kids != []) && forall k :: k in x.kids ==> Stored(m, k)
    ensures x.kids != [] ==> m.child[x.id] == x.kids[0].id && x.kids[0].id in m.right
                             && exists u :: u in x.kids && u.id == m.right[x.kids[0].id]
  {
    if x.kids != [] {
      RightOfFirst(m, x.kids);
    }
  }

  lemma NodesInMemory<N>(m: Memory<N>, f: seq<Tree<N>>)
    requires forall t :: t in f ==> Stored(m, t)
    ensures forall n :: n in Bag(f) ==> n in m.degree
  {
    hide Stored;
    forall n | n in Bag(f)
      ensures n in m.degree
    {
      var k := WhichTree(f, n);
      StoredNodes(m, f[k]);
    }
  }

  /** A node that memory does not know yet, closed upon itself. */
  lemma NewNode<N>(m: Memory<N>, f: seq<Tree<N>>, node: N)
    requires Shaped(m, f, {}) && node !in m.degree && node !in m.child
    ensures var m' := Memory(m.left[node := node], m.right[node := node], m.child, m.degree[node := 0]);
            Shaped(m', f, {}) && Stored(m', Tree(node, [])) && Ring(m', [node])
    ensures Apart([Tree(node, [])]) && Bag(f) !! Bag([Tree(node, [])])
  {
    hide Bag, Stored, Apart;
    var t, m1 := Tree(node, []), m.(degree := m.degree[node := 0]);
    NodesInMemory(m, f);
    forall u | u in f
      ensures Stored(m1, u)
    {
      StoredNodes(m, u);
      BagHasTree(f, u);
      StoredFramed(m, m1, u);
    }
    RingDegree(m, m1, Ids(f));
    LeafIsStored(m1, t);
    BagOne(n => n, t);
    LeafBag(n => n, t);
    AloneApart(m1, f, t);
  }

  lemma LeafIsStored<N>(m: Memory<N>, t: Tree<N>)
    requires t.kids == [] && t.id in m.degree && m.degree[t.id] == 0 && t.id !in m.child
    ensures Stored(m, t)
  {
  }

  lemma LeafBag<N, T>(item: N -> T, t: Tree<N>)
    requires t.kids == []
    ensures Items(item, [t]) == multiset{item(t.id)}
    ensures Bag(t.kids) == multiset{} && Bag([t]) == multiset{t.id} && Apart([t])
  {
  }
}
