/** Crit-bit trees as values: the invariant, what insertion and deletion do to it, and why the
    shape is decided by the contents. */
module CritBitTrees {
  import opened Options
  import opened CritBits

  datatype Tree<I, E> = Leaf(e: E) | Node(i: I, left: Tree<I, E>, right: Tree<I, E>)

  datatype Entry<V> = Entry(key: Key, value: V)

  type CritTree<V> = Tree<Pos, Entry<V>>

  ghost function Contents<V>(t: CritTree<V>): map<Key, V> {
    match t
    case Leaf(e) => map[e.key := e.value]
    case Node(i, left, right) => Contents(left) + Contents(right)
  }

  /** At every node the keys on the left and those on the right first differ at its position,
      where only those on the right have the bit. */
  ghost predicate Good<V>(t: CritTree<V>) {
    match t
    case Leaf(e) => true
    case Node(at, left, right) => Good(left) && Good(right) && Divides(at, left, right)
  }

  ghost predicate Divides<V>(at: Pos, left: CritTree<V>, right: CritTree<V>) {
    forall l, r :: l in Contents(left) && r in Contents(right) ==> Splits(l, r, at) && Bit(r, at)
  }

  ghost function SomeKey<V>(t: CritTree<V>): (key: Key)
    ensures key in Contents(t)
  {
    match t
    case Leaf(e) => e.key
    case Node(_, left, _) => SomeKey(left)
  }

  /** Both sides of a good node, seen key by key. */
  lemma SidesOf<V>(t: CritTree<V>)
    requires Good(t) && t.Node?
    ensures t.i.bit <= EXISTS
    ensures forall k :: k in Contents(t.left) ==> !Bit(k, t.i)
    ensures forall k :: k in Contents(t.right) ==> Bit(k, t.i)
    ensures Contents(t.left).Keys !! Contents(t.right).Keys
    ensures Contents(t).Keys == Contents(t.left).Keys + Contents(t.right).Keys
  {
    var l, r := SomeKey(t.left), SomeKey(t.right);
    assert Splits(l, r, t.i);
    forall k | k in Contents(t.left)
      ensures !Bit(k, t.i)
    {
      assert Splits(k, r, t.i);
    }
    forall k | k in Contents(t.right)
      ensures Bit(k, t.i)
    {
      assert Splits(l, k, t.i);
    }
  }

  /** All keys of a node agree before its position. */
  lemma AgreeBefore<V>(t: CritTree<V>, a: Key, b: Key, q: Pos)
    requires Good(t) && t.Node? && a in Contents(t) && b in Contents(t)
    requires q.bit <= EXISTS && Before(q, t.i)
    ensures Bit(a, q) == Bit(b, q)
  {
    var l, r := SomeKey(t.left), SomeKey(t.right);
    assert Splits(l, r, t.i);
    assert a in Contents(t.left) ==> Splits(a, r, t.i);
    assert a in Contents(t.right) ==> Splits(l, a, t.i);
    assert b in Contents(t.left) ==> Splits(b, r, t.i);
    assert b in Contents(t.right) ==> Splits(l, b, t.i);
  }

  // ----- Paths: false for left, true for right -----

  function Child<I, E>(t: Tree<I, E>, right: bool): Tree<I, E>
    requires t.Node?
  {
    if right then t.right else t.left
  }

  predicate OnPath<I, E>(t: Tree<I, E>, path: seq<bool>)
    decreases path
  {
    path != [] ==> t.Node? && OnPath(Child(t, path[0]), path[1..])
  }

  function SubAt<I, E>(t: Tree<I, E>, path: seq<bool>): Tree<I, E>
    requires OnPath(t, path)
    decreases path
  {
    if path == [] then t else SubAt(Child(t, path[0]), path[1..])
  }

  /** t with the subtree at the end of the path replaced. */
  function Replaced<I, E>(t: Tree<I, E>, path: seq<bool>, sub: Tree<I, E>): Tree<I, E>
    requires OnPath(t, path)
    decreases path
  {
    if path == [] then sub
    else if path[0] then Node(t.i, t.left, Replaced(t.right, path[1..], sub))
    else Node(t.i, Replaced(t.left, path[1..], sub), t.right)
  }

  lemma {:induction false} PathExtends<I, E>(t: Tree<I, E>, path: seq<bool>, d: bool)
    requires OnPath(t, path) && SubAt(t, path).Node?
    ensures OnPath(t, path + [d]) && SubAt(t, path + [d]) == Child(SubAt(t, path), d)
    decreases path
  {
    if path != [] {
      assert (path + [d])[1..] == path[1..] + [d];
      PathExtends(Child(t, path[0]), path[1..], d);
    } else {
      assert (path + [d])[1..] == [];
    }
  }

  lemma {:induction false} PathPrefix<I, E>(t: Tree<I, E>, path: seq<bool>, n: nat)
    requires OnPath(t, path) && n <= |path|
    ensures OnPath(t, path[..n]) && (n < |path| ==> SubAt(t, path[..n]).Node?)
    ensures n < |path| ==> OnPath(t, path[..n + 1]) && SubAt(t, path[..n + 1]) == Child(SubAt(t, path[..n]), path[n])
    decreases path
  {
    if n > 0 {
      assert path[..n][1..] == path[1..][..n - 1];
      PathPrefix(Child(t, path[0]), path[1..], n - 1);
      if n < |path| {
        assert path[..n + 1][1..] == path[1..][..n];
      }
    } else if path != [] {
      assert path[..1] == [path[0]] && [path[0]][1..] == [];
    }
  }

  /** The path takes the turns that the key's bits say. */
  ghost predicate Follows<V>(t: CritTree<V>, path: seq<bool>, key: Key)
    requires OnPath(t, path)
    decreases path
  {
    path != [] ==> path[0] == Bit(key, t.i) && Follows(Child(t, path[0]), path[1..], key)
  }

  lemma {:induction false} FollowsOn<V>(t: CritTree<V>, path: seq<bool>, key: Key, d: bool)
    requires OnPath(t, path) && SubAt(t, path).Node? && Follows(t, path, key)
    requires d == Bit(key, SubAt(t, path).i)
    ensures OnPath(t, path + [d]) && Follows(t, path + [d], key)
    decreases path
  {
    PathExtends(t, path, d);
    if path != [] {
      assert (path + [d])[1..] == path[1..] + [d];
      FollowsOn(Child(t, path[0]), path[1..], key, d);
    } else {
      assert (path + [d])[1..] == [];
    }
  }

  /** A key of the tree is where its bits lead. */
  lemma {:induction false} WalkFinds<V>(t: CritTree<V>, path: seq<bool>, key: Key)
    requires Good(t) && OnPath(t, path) && Follows(t, path, key)
    ensures key in Contents(t) <==> key in Contents(SubAt(t, path))
    ensures key in Contents(t) ==> Contents(t)[key] == Contents(SubAt(t, path))[key]
    decreases path
  {
    if path != [] {
      SidesOf(t);
      WalkFinds(Child(t, path[0]), path[1..], key);
    }
  }

  lemma {:induction false} SubIsGood<V>(t: CritTree<V>, path: seq<bool>)
    requires Good(t) && OnPath(t, path)
    ensures Good(SubAt(t, path)) && Contents(SubAt(t, path)).Keys <= Contents(t).Keys
    decreases path
  {
    if path != [] {
      SubIsGood(Child(t, path[0]), path[1..]);
    }
  }

  // ----- Insertion -----

  /** A node that parts a new key from an existing subtree. */
  function Joined<I, E>(at: I, goesRight: bool, added: E, sub: Tree<I, E>): Tree<I, E> {
    if goesRight then Node(at, sub, Leaf(added)) else Node(at, Leaf(added), sub)
  }

  /** Positions grow along a path. */
  lemma {:induction false} PositionsGrow<V>(t: CritTree<V>, path: seq<bool>)
    requires Good(t) && OnPath(t, path) && path != [] && SubAt(t, path).Node?
    ensures Before(t.i, SubAt(t, path).i)
    decreases path
  {
    var child := Child(t, path[0]);
    ChildIsLater(t, path[0]);
    if |path| > 1 {
      PositionsGrow(child, path[1..]);
    }
  }

  lemma ChildIsLater<V>(t: CritTree<V>, right: bool)
    requires Good(t) && t.Node?
    ensures Child(t, right).Node? ==> Before(t.i, Child(t, right).i)
  {
    var child := Child(t, right);
    if child.Node? {
      SidesOf(t);
      SidesOf(child);
      var l, r := SomeKey(child.left), SomeKey(child.right);
      assert Splits(l, r, child.i);
      var x, y := SomeKey(t.left), SomeKey(t.right);
      assert right ==> Splits(x, l, t.i) && Splits(x, r, t.i);
      assert !right ==> Splits(l, y, t.i) && Splits(r, y, t.i);
    }
  }

  /** The new key may be put in front of the subtree at the end of the path: it leaves the key it
      was compared with at p, which is not before the last node on the path and before the subtree. */
  ghost predicate Fits<V>(t: CritTree<V>, path: seq<bool>, p: Pos)
    requires OnPath(t, path)
  {
    && (path != [] ==> PathEnd(t, path) && !Before(p, SubAt(t, path[..|path| - 1]).i))
    && (SubAt(t, path).Node? ==> Before(p, SubAt(t, path).i))
  }

  ghost predicate PathEnd<V>(t: CritTree<V>, path: seq<bool>)
    requires OnPath(t, path) && path != []
  {
    OnPath(t, path[..|path| - 1]) && SubAt(t, path[..|path| - 1]).Node?
  }

  /** Everything in the subtree leaves the new key at p, like the key it was compared with. */
  lemma LeaveAt<V>(s: CritTree<V>, key: Key, near: Key, p: Pos, k: Key)
    requires Good(s) && near in Contents(s) && k in Contents(s)
    requires Splits(key, near, p) && (s.Node? ==> Before(p, s.i))
    ensures Splits(key, k, p) && Splits(k, key, p) && Bit(k, p) == Bit(near, p)
  {
    if s.Node? {
      forall q: Pos | q.bit <= EXISTS && (q == p || Before(q, p))
        ensures Bit(k, q) == Bit(near, q)
      {
        AgreeBefore(s, k, near, q);
      }
    }
  }

  lemma JoinedIsGood<V>(s: CritTree<V>, key: Key, value: V, near: Key, p: Pos)
    requires Good(s) && near in Contents(s)
    requires Splits(key, near, p) && (s.Node? ==> Before(p, s.i))
    ensures var t := Joined(p, Bit(key, p), Entry(key, value), s);
            Good(t) && key !in Contents(s) && Contents(t) == Contents(s)[key := value]
  {
    hide Splits, Bit;
    forall k | k in Contents(s)
      ensures k != key && Splits(key, k, p) && Splits(k, key, p) && Bit(k, p) == !Bit(key, p)
    {
      LeaveAt(s, key, near, p, k);
      SplitDiffer(key, k, p);
    }
    MapAdds(Contents(s), key, value);
    assert Contents<V>(Leaf(Entry(key, value))) == map[key := value];
  }

  lemma SplitDiffer(a: Key, b: Key, p: Pos)
    requires Splits(a, b, p)
    ensures a != b && Bit(b, p) == !Bit(a, p)
  {
  }

  lemma MapAdds<V>(m: map<Key, V>, key: Key, value: V)
    requires key !in m
    ensures m + map[key := value] == m[key := value] == map[key := value] + m
  {
  }

  lemma PassedSameWay<V>(t: CritTree<V>, key: Key, near: Key, p: Pos)
    requires Good(t) && t.Node? && Splits(key, near, p) && !Before(p, t.i)
    requires near in Contents(Child(t, Bit(key, t.i)))
    ensures Before(t.i, p)
  {
    SidesOf(t);
    assert Bit(near, t.i) == Bit(key, t.i);
  }

  /** A node the new key passes: it leaves the keys of the other side where its neighbour does. */
  lemma PassedNode<V>(t: CritTree<V>, key: Key, near: Key, p: Pos, k: Key)
    requires Good(t) && t.Node? && Splits(key, near, p) && Before(t.i, p)
    requires near in Contents(Child(t, Bit(key, t.i))) && k in Contents(Child(t, !Bit(key, t.i)))
    ensures Splits(key, k, t.i) && Splits(k, key, t.i)
  {
    SidesOf(t);
    assert Splits(near, k, t.i) || Splits(k, near, t.i);
    assert Bit(key, t.i) == Bit(near, t.i);
    forall q: Pos | q.bit <= EXISTS && Before(q, t.i)
      ensures Bit(key, q) == Bit(k, q)
    {
      assert Bit(key, q) == Bit(near, q);
    }
  }

  lemma FitsBelow<V>(t: CritTree<V>, path: seq<bool>, p: Pos)
    requires Good(t) && OnPath(t, path) && path != [] && Fits(t, path, p)
    ensures !Before(p, t.i) && Fits(Child(t, path[0]), path[1..], p)
  {
    var n := |path| - 1;
    var last := path[..n];
    if n > 0 {
      PositionsGrow(t, last);
      assert last[1..] == path[1..][..n - 1];
    }
  }

  /** t with one child replaced. */
  function WithChild<I, E>(t: Tree<I, E>, right: bool, child: Tree<I, E>): Tree<I, E>
    requires t.Node?
  {
    if right then Node(t.i, t.left, child) else Node(t.i, child, t.right)
  }

  lemma MapsGain<V>(a: map<Key, V>, b: map<Key, V>, key: Key, value: V)
    requires key !in b
    ensures a[key := value] + b == (a + b)[key := value] && b + a[key := value] == (b + a)[key := value]
  {
  }

  lemma MapsLose<V>(a: map<Key, V>, b: map<Key, V>, key: Key)
    requires key !in b
    ensures (a - {key}) + b == (a + b) - {key} && b + (a - {key}) == (b + a) - {key}
  {
  }

  lemma ChildGains<V>(t: CritTree<V>, d: bool, child: CritTree<V>, key: Key, value: V)
    requires Good(t) && t.Node? && Good(child) && d == Bit(key, t.i)
    requires Contents(child) == Contents(Child(t, d))[key := value]
    requires forall k :: k in Contents(Child(t, !d)) ==> Splits(key, k, t.i) && Splits(k, key, t.i)
    ensures Good(WithChild(t, d, child)) && Contents(WithChild(t, d, child)) == Contents(t)[key := value]
  {
    hide Splits, Bit;
    SidesOf(t);
    assert key !in Contents(Child(t, !d));
    MapsGain(Contents(Child(t, d)), Contents(Child(t, !d)), key, value);
    var t' := WithChild(t, d, child);
    assert Contents(t') == Contents(t'.left) + Contents(t'.right);
  }

  lemma ChildLoses<V>(t: CritTree<V>, d: bool, child: CritTree<V>, key: Key)
    requires Good(t) && t.Node? && Good(child) && key in Contents(Child(t, d))
    requires Contents(child) == Contents(Child(t, d)) - {key}
    ensures Good(WithChild(t, d, child)) && Contents(WithChild(t, d, child)) == Contents(t) - {key}
  {
    hide Splits, Bit;
    SidesOf(t);
    MapsLose(Contents(Child(t, d)), Contents(Child(t, !d)), key);
    var t' := WithChild(t, d, child);
    assert Contents(t') == Contents(t'.left) + Contents(t'.right);
  }

  /** Insertion adds one entry and keeps the tree good. */
  lemma {:induction false} InsertIsGood<V>(t: CritTree<V>, path: seq<bool>, key: Key, value: V, near: Key, p: Pos)
    requires Good(t) && OnPath(t, path) && Follows(t, path, key)
    requires near in Contents(SubAt(t, path)) && Splits(key, near, p) && Fits(t, path, p)
    ensures var t' := Replaced(t, path, Joined(p, Bit(key, p), Entry(key, value), SubAt(t, path)));
            Good(t') && key !in Contents(t) && Contents(t') == Contents(t)[key := value]
    decreases path
  {
    if path == [] {
      JoinedIsGood(t, key, value, near, p);
    } else {
      hide Divides, Splits, Bit;
      var child, other := Child(t, path[0]), Child(t, !path[0]);
      FitsBelow(t, path, p);
      SidesOf(t);
      SubIsGood(child, path[1..]);
      assert near in Contents(child);
      PassedSameWay(t, key, near, p);
      InsertIsGood(child, path[1..], key, value, near, p);
      forall k | k in Contents(other)
        ensures Splits(key, k, t.i) && Splits(k, key, t.i)
      {
        PassedNode(t, key, near, p, k);
      }
      ChildGains(t, path[0], Replaced(child, path[1..], Joined(p, Bit(key, p), Entry(key, value), SubAt(t, path))), key, value);
    }
  }

  // ----- Overwriting and deletion -----

  lemma {:induction false} OverwriteIsGood<V>(t: CritTree<V>, path: seq<bool>, key: Key, value: V)
    requires Good(t) && OnPath(t, path) && SubAt(t, path).Leaf? && SubAt(t, path).e.key == key
    ensures var t' := Replaced(t, path, Leaf(Entry(key, value)));
            Good(t') && key in Contents(t) && Contents(t') == Contents(t)[key := value]
    decreases path
  {
    if path != [] {
      hide Splits, Bit, Divides;
      var child, other := Child(t, path[0]), Child(t, !path[0]);
      OverwriteIsGood(child, path[1..], key, value);
      ChildOverwritten(t, path[0], Replaced(child, path[1..], Leaf(Entry(key, value))), key, value);
    }
  }

  lemma ChildOverwritten<V>(t: CritTree<V>, d: bool, child: CritTree<V>, key: Key, value: V)
    requires Good(t) && t.Node? && Good(child) && key in Contents(Child(t, d))
    requires Contents(child) == Contents(Child(t, d))[key := value]
    ensures key in Contents(t)
    ensures Good(WithChild(t, d, child)) && Contents(WithChild(t, d, child)) == Contents(t)[key := value]
  {
    hide Splits, Bit;
    SidesOf(t);
    MapsGain(Contents(Child(t, d)), Contents(Child(t, !d)), key, value);
    var t' := WithChild(t, d, child);
    assert Contents(t') == Contents(t'.left) + Contents(t'.right);
  }

  /** Putting a subtree in its parent's place removes exactly the leaf beside it. */
  lemma {:induction false} DeleteIsGood<V>(t: CritTree<V>, path: seq<bool>, key: Key, d: bool)
    requires Good(t) && OnPath(t, path) && SubAt(t, path).Node?
    requires Child(SubAt(t, path), d).Leaf? && Child(SubAt(t, path), d).e.key == key
    ensures var t' := Replaced(t, path, Child(SubAt(t, path), !d));
            Good(t') && key in Contents(t) && Contents(t') == Contents(t) - {key}
    decreases path
  {
    hide Divides;
    SidesOf(t);
    if path != [] {
      var child := Child(t, path[0]);
      DeleteIsGood(child, path[1..], key, d);
      ChildLoses(t, path[0], Replaced(child, path[1..], Child(SubAt(t, path), !d)), key);
    }
  }

  // ----- The contents decide the shape -----

  lemma {:induction false} ShapeIsCanonical<V>(t: CritTree<V>, u: CritTree<V>)
    requires Good(t) && Good(u) && Contents(t) == Contents(u)
    ensures t == u
  {
    if t.Leaf? && u.Leaf? {
      assert t.e.key in Contents(t) && u.e.key in Contents(u);
    } else if t.Node? && u.Node? {
      SamePosition(t, u);
      SidesOf(t);
      SidesOf(u);
      SameSide(t, u);
      ShapeIsCanonical(t.left, u.left);
      ShapeIsCanonical(t.right, u.right);
    } else if t.Leaf? {
      TwoKeys(u, t.e.key);
    } else {
      TwoKeys(t, u.e.key);
    }
  }

  /** The tree, if any, of a map with these contents. */
  ghost predicate ShapeOf<V>(shape: Option<CritTree<V>>, contents: map<Key, V>) {
    match shape
    case None => contents == map[]
    case Some(t) => Good(t) && Contents(t) == contents
  }

  lemma ShapeIsUnique<V>(s: Option<CritTree<V>>, s': Option<CritTree<V>>, contents: map<Key, V>)
    requires ShapeOf(s, contents) && ShapeOf(s', contents)
    ensures s == s'
  {
    hide Good, Contents;
    if s.Some? && s'.Some? {
      ShapeIsCanonical(s.value, s'.value);
    } else if s.Some? {
      var k := SomeKey(s.value);
      assert false;
    } else if s'.Some? {
      var k := SomeKey(s'.value);
      assert false;
    }
  }

  /** A node holds a key other than a given one. */
  lemma TwoKeys<V>(t: CritTree<V>, key: Key)
    requires Good(t) && t.Node?
    ensures exists k :: k in Contents(t) && k != key
  {
    SidesOf(t);
    var l, r := SomeKey(t.left), SomeKey(t.right);
    assert l in Contents(t) && r in Contents(t);
  }

  lemma SamePosition<V>(t: CritTree<V>, u: CritTree<V>)
    requires Good(t) && Good(u) && Contents(t) == Contents(u) && t.Node? && u.Node?
    ensures t.i == u.i
  {
    NotEarlier(t, u);
    NotEarlier(u, t);
  }

  lemma NotEarlier<V>(t: CritTree<V>, u: CritTree<V>)
    requires Good(t) && Good(u) && Contents(t) == Contents(u) && t.Node? && u.Node?
    ensures !Before(t.i, u.i)
  {
    SidesOf(t);
    var l, r := SomeKey(t.left), SomeKey(t.right);
    assert l in Contents(t) && r in Contents(t);
    if Before(t.i, u.i) {
      AgreeBefore(u, l, r, t.i);
    }
  }

  lemma SameSide<V>(t: CritTree<V>, u: CritTree<V>)
    requires Good(t) && Good(u) && Contents(t) == Contents(u) && t.Node? && u.Node? && t.i == u.i
    ensures Contents(t.left) == Contents(u.left) && Contents(t.right) == Contents(u.right)
  {
    SidesOf(t);
    SidesOf(u);
    assert forall k :: k in Contents(t.left) <==> k in Contents(t) && !Bit(k, t.i);
    assert forall k :: k in Contents(u.left) <==> k in Contents(u) && !Bit(k, u.i);
    assert forall k :: k in Contents(t.left) ==> Contents(t.left)[k] == Contents(t)[k];
    assert forall k :: k in Contents(u.left) ==> Contents(u.left)[k] == Contents(u)[k];
  }

  // ----- In order -----

  function InOrder<I, E>(t: Tree<I, E>): seq<E> {
    match t
    case Leaf(e) => [e]
    case Node(_, left, right) => InOrder(left) + InOrder(right)
  }

  /** What visiting a tree, if there is one, lists. */
  ghost function Visits<V>(shape: Option<CritTree<V>>): seq<Entry<V>> {
    match shape
    case None => []
    case Some(t) => InOrder(t)
  }

  ghost predicate Ascending<V>(entries: seq<Entry<V>>) {
    forall i, j :: 0 <= i < j < |entries| ==> Less(entries[i].key, entries[j].key)
  }

  /** Exactly the entries of the map. */
  ghost predicate Lists<V>(entries: seq<Entry<V>>, m: map<Key, V>) {
    && (forall e :: e in entries ==> e.key in m && m[e.key] == e.value)
    && (forall k :: k in m ==> Entry(k, m[k]) in entries)
  }

  lemma Listed<V>(entries: seq<Entry<V>>, m: map<Key, V>)
    requires Ascending(entries) && Lists(entries, m)
    ensures forall i :: 0 <= i < |entries| ==> entries[i].key in m && m[entries[i].key] == entries[i].value
    ensures forall k :: k in m ==> exists i :: 0 <= i < |entries| && entries[i].key == k
    ensures forall i, j :: 0 <= i < j < |entries| ==> Less(entries[i].key, entries[j].key)
  {
    forall k | k in m
      ensures exists i :: 0 <= i < |entries| && entries[i].key == k
    {
      var i :| 0 <= i < |entries| && entries[i] == Entry(k, m[k]);
    }
  }

  /** Reading the leaves from left to right lists the entries in lexicographic order. */
  lemma {:induction false} InOrderAscends<V>(t: CritTree<V>)
    requires Good(t)
    ensures Ascending(InOrder(t)) && Lists(InOrder(t), Contents(t))
  {
    if t.Node? {
      InOrderAscends(t.left);
      InOrderAscends(t.right);
      SidesOf(t);
      var left, right := InOrder(t.left), InOrder(t.right);
      forall i, j | 0 <= i < |left| && 0 <= j < |right|
        ensures Less(left[i].key, right[j].key)
      {
        assert left[i] in left && right[j] in right;
        SplitOrders(left[i].key, right[j].key, t.i);
      }
    }
  }
}
