/** How a crit-bit tree lies in memory, whether as linked nodes or in arrays: what each inner
    node (I) and outer node (E) holds, and what rewiring one pointer does to the tree. */
module CritBitMemory {
  import opened Options
  import opened CritBits
  import opened CritBitTrees

  datatype Ptr<I, E> = Null | Internal(i: I) | External(e: E)

  datatype Pair<P> = Pair(left: P, right: P)

  /** What the nodes hold. */
  datatype Memory<!I, !E, V> = Memory(links: map<I, Pair<Ptr<I, E>>>, crits: map<I, Pos>, entries: map<E, Entry<V>>)

  function Side<P>(p: Pair<P>, right: bool): P {
    if right then p.right else p.left
  }

  function Turned<P>(p: Pair<P>, right: bool, q: P): Pair<P> {
    if right then p.(right := q) else p.(left := q)
  }

  function Inners<I, E>(t: Tree<I, E>): set<I> {
    match t
    case Leaf(_) => {}
    case Node(i, left, right) => {i} + Inners(left) + Inners(right)
  }

  function Outers<I, E>(t: Tree<I, E>): set<E> {
    match t
    case Leaf(e) => {e}
    case Node(_, left, right) => Outers(left) + Outers(right)
  }

  /** No node occurs twice. */
  ghost predicate Apart<I, E>(t: Tree<I, E>) {
    match t
    case Leaf(_) => true
    case Node(i, left, right) =>
      && Apart(left) && Apart(right)
      && i !in Inners(left) && i !in Inners(right)
      && Inners(left) !! Inners(right) && Outers(left) !! Outers(right)
  }

  /** Following pointers from ptr gives t. */
  ghost predicate Linked<I, E, V>(t: Tree<I, E>, ptr: Ptr<I, E>, m: Memory<I, E, V>) {
    match t
    case Leaf(e) => ptr == External(e) && e in m.entries
    case Node(i, left, right) =>
      && ptr == Internal(i) && i in m.links && i in m.crits
      && Linked(left, m.links[i].left, m) && Linked(right, m.links[i].right, m)
  }

  lemma {:induction false} LinkedNodes<I, E, V>(t: Tree<I, E>, ptr: Ptr<I, E>, m: Memory<I, E, V>)
    requires Linked(t, ptr, m)
    ensures Inners(t) <= m.links.Keys && Inners(t) <= m.crits.Keys && Outers(t) <= m.entries.Keys
  {
    if t.Node? {
      LinkedNodes(t.left, m.links[t.i].left, m);
      LinkedNodes(t.right, m.links[t.i].right, m);
    }
  }

  ghost predicate Stored<I, E, V>(t: Tree<I, E>, ptr: Ptr<I, E>, m: Memory<I, E, V>) {
    Apart(t) && Linked(t, ptr, m)
  }

  /** The tree of positions and entries that the nodes hold. */
  ghost function View<I, E, V>(t: Tree<I, E>, ptr: Ptr<I, E>, m: Memory<I, E, V>): CritTree<V>
    requires Linked(t, ptr, m)
  {
    match t
    case Leaf(e) => Leaf(m.entries[e])
    case Node(i, left, right) => Node(m.crits[i], View(left, m.links[i].left, m), View(right, m.links[i].right, m))
  }

  ghost predicate SameInner<I, E, V>(m: Memory<I, E, V>, m': Memory<I, E, V>, i: I) {
    i in m.links && i in m'.links && m.links[i] == m'.links[i] && SameCrit(m, m', i)
  }

  ghost predicate SameCrit<I, E, V>(m: Memory<I, E, V>, m': Memory<I, E, V>, i: I) {
    i in m.crits && i in m'.crits && m.crits[i] == m'.crits[i]
  }

  ghost predicate SameOuter<I, E, V>(m: Memory<I, E, V>, m': Memory<I, E, V>, e: E) {
    e in m.entries && e in m'.entries && m.entries[e] == m'.entries[e]
  }

  lemma {:induction false} Framed<I, E, V>(t: Tree<I, E>, ptr: Ptr<I, E>, m: Memory<I, E, V>, m': Memory<I, E, V>)
    requires Linked(t, ptr, m)
    requires forall i :: i in Inners(t) ==> SameInner(m, m', i)
    requires forall e :: e in Outers(t) ==> SameOuter(m, m', e)
    ensures Linked(t, ptr, m') && View(t, ptr, m') == View(t, ptr, m)
  {
    if t.Node? {
      assert SameInner(m, m', t.i);
      Framed(t.left, m.links[t.i].left, m, m');
      Framed(t.right, m.links[t.i].right, m, m');
    } else {
      assert SameOuter(m, m', t.e);
    }
  }

  lemma {:induction false} SubIsStored<I, E, V>(t: Tree<I, E>, ptr: Ptr<I, E>, m: Memory<I, E, V>, path: seq<bool>) returns (sub: Ptr<I, E>)
    requires Stored(t, ptr, m) && OnPath(t, path)
    ensures Stored(SubAt(t, path), sub, m) && OnPath(View(t, ptr, m), path)
    ensures SubAt(View(t, ptr, m), path) == View(SubAt(t, path), sub, m)
    ensures Inners(SubAt(t, path)) <= Inners(t) && Outers(SubAt(t, path)) <= Outers(t)
    decreases path
  {
    if path == [] {
      sub := ptr;
    } else {
      sub := SubIsStored(Child(t, path[0]), Side(m.links[t.i], path[0]), m, path[1..]);
    }
  }

  function ParentAt<I, E>(t: Tree<I, E>, path: seq<bool>): I
    requires OnPath(t, path) && path != []
    decreases path
  {
    if |path| == 1 then t.i else ParentAt(Child(t, path[0]), path[1..])
  }

  lemma {:induction false} ParentIsLast<I, E>(t: Tree<I, E>, path: seq<bool>)
    requires OnPath(t, path) && path != []
    ensures OnPath(t, path[..|path| - 1]) && SubAt(t, path[..|path| - 1]) .Node?
    ensures SubAt(t, path[..|path| - 1]).i == ParentAt(t, path) && ParentAt(t, path) in Inners(t)
    decreases path
  {
    if |path| > 1 {
      assert path[..|path| - 1][1..] == path[1..][..|path| - 2];
      ParentIsLast(Child(t, path[0]), path[1..]);
    }
  }

  /** Memory m' differs from m, on the nodes of t, only in the pointer at the end of the path. */
  ghost predicate OnePointer<I, E, V>(t: Tree<I, E>, m: Memory<I, E, V>, m': Memory<I, E, V>, path: seq<bool>, ptr: Ptr<I, E>)
    requires OnPath(t, path)
  {
    && (forall i :: i in Inners(t) && (path == [] || i != ParentAt(t, path)) ==> SameInner(m, m', i))
    && (forall e :: e in Outers(t) ==> SameOuter(m, m', e))
    && (path != [] ==> var i := ParentAt(t, path);
                       && SameCrit(m, m', i) && i in m.links && i in m'.links
                       && m'.links[i] == Turned(m.links[i], path[|path| - 1], ptr))
  }

  lemma OnePointerBelow<I, E, V>(t: Tree<I, E>, m: Memory<I, E, V>, m': Memory<I, E, V>, path: seq<bool>, ptr: Ptr<I, E>)
    requires OnPath(t, path) && path != [] && Apart(t) && OnePointer(t, m, m', path, ptr)
    ensures OnePointer(Child(t, path[0]), m, m', path[1..], ptr)
    ensures |path| > 1 ==> SameInner(m, m', t.i)
    ensures forall i :: i in Inners(Child(t, !path[0])) ==> SameInner(m, m', i)
  {
    ParentIsLast(t, path);
    if |path| > 1 {
      ParentIsLast(Child(t, path[0]), path[1..]);
    }
  }

  /** The replacement shares with t only nodes of the subtree it replaces. */
  ghost predicate Separate<I, E>(t: Tree<I, E>, path: seq<bool>, s: Tree<I, E>)
    requires OnPath(t, path)
  {
    Inners(s) * Inners(t) <= Inners(SubAt(t, path)) && Outers(s) * Outers(t) <= Outers(SubAt(t, path))
  }

  lemma SeparateBelow<I, E>(t: Tree<I, E>, path: seq<bool>, s: Tree<I, E>)
    requires OnPath(t, path) && path != [] && Apart(t) && Separate(t, path, s)
    ensures Separate(Child(t, path[0]), path[1..], s)
    ensures t.i !in Inners(s) && Inners(s) !! Inners(Child(t, !path[0])) && Outers(s) !! Outers(Child(t, !path[0]))
  {
    SubNodes(Child(t, path[0]), path[1..]);
  }

  lemma {:induction false} SubNodes<I, E>(t: Tree<I, E>, path: seq<bool>)
    requires OnPath(t, path)
    ensures Inners(SubAt(t, path)) <= Inners(t) && Outers(SubAt(t, path)) <= Outers(t)
    decreases path
  {
    if path != [] {
      SubNodes(Child(t, path[0]), path[1..]);
    }
  }

  lemma {:induction false} ReplacedNodes<I, E>(t: Tree<I, E>, path: seq<bool>, s: Tree<I, E>)
    requires OnPath(t, path) && Apart(t) && Apart(s) && Separate(t, path, s)
    ensures Apart(Replaced(t, path, s))
    ensures Inners(Replaced(t, path, s)) <= Inners(t) + Inners(s) && Outers(Replaced(t, path, s)) <= Outers(t) + Outers(s)
    decreases path
  {
    if path != [] {
      SeparateBelow(t, path, s);
      ReplacedNodes(Child(t, path[0]), path[1..], s);
    }
  }

  /** Turning the pointer at the end of a path to another tree replaces the subtree there. */
  lemma {:induction false} Rewired<I, E, V>(t: Tree<I, E>, ptr: Ptr<I, E>, m: Memory<I, E, V>, m': Memory<I, E, V>,
                                            path: seq<bool>, s: Tree<I, E>, sptr: Ptr<I, E>)
    requires Stored(t, ptr, m) && OnPath(t, path) && Stored(s, sptr, m')
    requires OnePointer(t, m, m', path, sptr)
    ensures var root := if path == [] then sptr else ptr;
            && Linked(Replaced(t, path, s), root, m')
            && OnPath(View(t, ptr, m), path)
            && View(Replaced(t, path, s), root, m') == Replaced(View(t, ptr, m), path, View(s, sptr, m'))
    decreases path
  {
    if path != [] {
      OnePointerBelow(t, m, m', path, sptr);
      var child, other := Child(t, path[0]), Child(t, !path[0]);
      Rewired(child, Side(m.links[t.i], path[0]), m, m', path[1..], s, sptr);
      Framed(other, Side(m.links[t.i], !path[0]), m, m');
      assert SameCrit(m, m', t.i);
    }
  }

  // ----- What the operations do -----

  /** The tree reached from ptr is a crit-bit tree with these contents. */
  ghost predicate Holds<I, E, V>(t: Tree<I, E>, ptr: Ptr<I, E>, m: Memory<I, E, V>, contents: map<Key, V>) {
    Stored(t, ptr, m) && Good(View(t, ptr, m)) && Contents(View(t, ptr, m)) == contents
  }

  lemma {:induction false} ParentOutside<I, E>(t: Tree<I, E>, path: seq<bool>)
    requires OnPath(t, path) && path != [] && Apart(t)
    ensures ParentAt(t, path) !in Inners(SubAt(t, path))
    decreases path
  {
    if |path| > 1 {
      ParentOutside(Child(t, path[0]), path[1..]);
    } else {
      SubNodes(Child(t, path[0]), path[1..]);
    }
  }

  /** Nothing below the end of the path changes. */
  lemma UnchangedBelow<I, E, V>(t: Tree<I, E>, m: Memory<I, E, V>, m': Memory<I, E, V>, path: seq<bool>, q: Ptr<I, E>)
    requires OnPath(t, path) && Apart(t) && OnePointer(t, m, m', path, q)
    ensures forall i :: i in Inners(SubAt(t, path)) ==> SameInner(m, m', i)
    ensures forall e :: e in Outers(SubAt(t, path)) ==> SameOuter(m, m', e)
  {
    SubNodes(t, path);
    if path != [] {
      ParentOutside(t, path);
    }
  }

  lemma {:induction false} PtrIsUnique<I, E, V>(t: Tree<I, E>, p: Ptr<I, E>, q: Ptr<I, E>, m: Memory<I, E, V>)
    requires Linked(t, p, m) && Linked(t, q, m)
    ensures p == q
  {
  }

  /** A new inner node i and a new outer node e, on its right or left, wired in at the end of the path. */
  ghost predicate Wired<I, E, V>(m: Memory<I, E, V>, i: I, e: E, p: Pos, entry: Entry<V>, sub: Ptr<I, E>, right: bool) {
    && i in m.links && i in m.crits && m.crits[i] == p
    && e in m.entries && m.entries[e] == entry
    && m.links[i] == if right then Pair(sub, External(e)) else Pair(External(e), sub)
  }

  /** Memory with one pointer of an inner node turned. */
  ghost function Relinked<I, E, V>(m: Memory<I, E, V>, n: I, right: bool, q: Ptr<I, E>): Memory<I, E, V>
    requires n in m.links
  {
    m.(links := m.links[n := Turned(m.links[n], right, q)])
  }

  lemma LinkBoth<I, E, V>(m: Memory<I, E, V>, i: I, a: Ptr<I, E>, b: Ptr<I, E>)
    requires i in m.links
    ensures Relinked(Relinked(m, i, false, a), i, true, b) == m.(links := m.links[i := Pair(a, b)])
  {
  }

  lemma LinkAgain<I, E, V>(m: Memory<I, E, V>, i: I, pair: Pair<Ptr<I, E>>, d: bool, q: Ptr<I, E>)
    ensures Relinked(m.(links := m.links[i := pair]), i, d, q) == m.(links := m.links[i := Turned(pair, d, q)])
  {
  }

  lemma NothingAbove<I, E>(links: map<I, Pair<Ptr<I, E>>>, i: I)
    ensures forall pair :: LinkedIn(links, i, pair, Null, false) == links[i := pair]
  {
  }

  lemma LinkAbove<I, E, V>(m: Memory<I, E, V>, i: I, pair: Pair<Ptr<I, E>>, above: I, d: bool)
    requires above in m.links && above != i
    ensures var made := Relinked(m.(links := m.links[i := pair]), above, d, Internal(i));
            && made == m.(links := LinkedIn(m.links, i, pair, Internal(above), d))
            && forall e: bool, q :: Relinked(made, i, e, q) == m.(links := LinkedIn(m.links, i, Turned(pair, e, q), Internal(above), d))
  {
    var made := Relinked(m.(links := m.links[i := pair]), above, d, Internal(i));
    forall e: bool, q
      ensures Relinked(made, i, e, q) == m.(links := LinkedIn(m.links, i, Turned(pair, e, q), Internal(above), d))
    {
      assert Relinked(made, i, e, q).links == LinkedIn(m.links, i, Turned(pair, e, q), Internal(above), d);
    }
  }

  lemma RelinkedIsOne<I, E, V>(t: Tree<I, E>, m: Memory<I, E, V>, path: seq<bool>, n: I, q: Ptr<I, E>)
    requires Inners(t) <= m.links.Keys && Inners(t) <= m.crits.Keys && Outers(t) <= m.entries.Keys
    requires OnPath(t, path) && path != [] && n == ParentAt(t, path) && n in m.links
    ensures OnePointer(t, m, Relinked(m, n, path[|path| - 1], q), path, q)
  {
    ParentIsLast(t, path);
  }

  lemma UnchangedIsOne<I, E, V>(t: Tree<I, E>, m: Memory<I, E, V>, q: Ptr<I, E>)
    requires Inners(t) <= m.links.Keys && Inners(t) <= m.crits.Keys && Outers(t) <= m.entries.Keys
    ensures OnePointer(t, m, m, [], q)
  {
  }

  ghost function LinkedIn<I, E>(links: map<I, Pair<Ptr<I, E>>>, i: I, pair: Pair<Ptr<I, E>>, above: Ptr<I, E>, d: bool): map<I, Pair<Ptr<I, E>>>
    requires above.Internal? ==> above.i in links
  {
    if above.Internal? then links[i := pair][above.i := Turned(links[above.i], d, Internal(i))] else links[i := pair]
  }

  /** Memory with a new inner node i and outer node e, where the pointer on side d of `above`, if it
      is a node, is turned to i. */
  ghost function Grown<I, E, V>(m: Memory<I, E, V>, i: I, e: E, p: Pos, entry: Entry<V>, sub: Ptr<I, E>, above: Ptr<I, E>, d: bool,
                                    right: bool): Memory<I, E, V>
    requires above.Internal? ==> above.i in m.links
  {
    Memory(LinkedIn(m.links, i, if right then Pair(sub, External(e)) else Pair(External(e), sub), above, d),
           m.crits[i := p], m.entries[e := entry])
  }

  lemma GrownInSteps<I, E, V>(m: Memory<I, E, V>, made: Memory<I, E, V>, i: I, e: E, p: Pos, entry: Entry<V>, sub: Ptr<I, E>, above: Ptr<I, E>, d: bool,
                              right: bool, before: Pair<Ptr<I, E>>)
    requires made == Memory(m.links[i := before], m.crits[i := p], m.entries[e := entry])
    requires above.Internal? ==> above.i in m.links && above.i != i
    ensures above.Internal? ==> above.i in made.links
    ensures var pair := if right then Pair(sub, External(e)) else Pair(External(e), sub);
            var m' := made.(links := LinkedIn(made.links, i, pair, above, d));
            m' == Grown(m, i, e, p, entry, sub, above, d, right) && m'.links.Keys == m.links.Keys + {i} && m'.entries.Keys == m.entries.Keys + {e}
  {
  }

  lemma GrownIsWired<I, E, V>(t: Tree<I, E>, m: Memory<I, E, V>, i: I, e: E, p: Pos, entry: Entry<V>, sub: Ptr<I, E>, path: seq<bool>,
                              above: Ptr<I, E>, d: bool, right: bool)
    requires Inners(t) <= m.links.Keys && Inners(t) <= m.crits.Keys && Outers(t) <= m.entries.Keys && OnPath(t, path)
    requires i !in m.links && e !in m.entries
    requires above == if path == [] then Null else Internal(ParentAt(t, path))
    requires path != [] ==> d == path[|path| - 1]
    requires above.Internal? ==> above.i in m.links
    ensures OnePointer(t, m, Grown(m, i, e, p, entry, sub, above, d, right), path, Internal(i))
    ensures Wired(Grown(m, i, e, p, entry, sub, above, d, right), i, e, p, entry, sub, right)
  {
    hide OnPath, SubAt, ParentAt, Inners, Outers;
    if path != [] {
      ParentIsLast(t, path);
    }
  }

  /** The new key belongs at the end of the path: `near`, a key beyond it, is left at p. */
  ghost predicate Belongs<V>(t: CritTree<V>, path: seq<bool>, key: Key, near: Key, p: Pos) {
    && OnPath(t, path) && Follows(t, path, key) && near in Contents(SubAt(t, path))
    && Splits(key, near, p) && Fits(t, path, p)
  }

  lemma InsertedView<V>(t: CritTree<V>, path: seq<bool>, key: Key, value: V, near: Key, p: Pos)
    requires Good(t) && Belongs(t, path, key, near, p)
    ensures OnPath(t, path)
    ensures var t' := Replaced(t, path, Joined(p, Bit(key, p), Entry(key, value), SubAt(t, path)));
            Good(t') && key !in Contents(t) && Contents(t') == Contents(t)[key := value]
  {
    hide Good, Follows, Fits, Splits, Contents, Bit;
    InsertIsGood(t, path, key, value, near, p);
  }

  lemma InsertedStored<I, E, V>(t: Tree<I, E>, ptr: Ptr<I, E>, m: Memory<I, E, V>, m': Memory<I, E, V>,
                                path: seq<bool>, key: Key, value: V, p: Pos, i: I, e: E, sub: Ptr<I, E>, right: bool)
    requires Stored(t, ptr, m)
    requires OnPath(t, path) && Linked(SubAt(t, path), sub, m)
    requires i !in Inners(t) && e !in Outers(t)
    requires OnePointer(t, m, m', path, Internal(i)) && Wired(m', i, e, p, Entry(key, value), sub, right)
    ensures var t' := Replaced(t, path, Joined(i, right, e, SubAt(t, path)));
            var ptr' := if path == [] then Internal(i) else ptr;
            && Stored(t', ptr', m')
            && Inners(t') <= Inners(t) + {i} && Outers(t') <= Outers(t) + {e}
            && OnPath(View(t, ptr, m), path)
            && View(t', ptr', m') == Replaced(View(t, ptr, m), path, Joined(p, right, Entry(key, value), SubAt(View(t, ptr, m), path)))
  {
    hide OnePointer, Separate;
    var u := SubAt(t, path);
    var s := Joined(i, right, e, u);
    UnchangedBelow(t, m, m', path, Internal(i));
    Framed(u, sub, m, m');
    SubNodes(t, path);
    SubIsApart(t, path);
    JoinedStored(u, sub, m', i, e, p, Entry(key, value), right);
    hide Wired;
    SeparateJoined(t, path, right, i, e);
    ReplacedNodes(t, path, s);
    Rewired(t, ptr, m, m', path, s, Internal(i));
    var sub' := SubIsStored(t, ptr, m, path);
    PtrIsUnique(u, sub, sub', m);
  }

  /** The new inner node and leaf, wired to a subtree, store that subtree with the new entry beside it. */
  lemma JoinedStored<I, E, V>(u: Tree<I, E>, sub: Ptr<I, E>, m: Memory<I, E, V>, i: I, e: E, p: Pos, entry: Entry<V>, right: bool)
    requires Stored(u, sub, m) && i !in Inners(u) && e !in Outers(u) && Wired(m, i, e, p, entry, sub, right)
    ensures var s := Joined(i, right, e, u);
            && Stored(s, Internal(i), m) && Inners(s) == Inners(u) + {i} && Outers(s) == Outers(u) + {e}
            && View(s, Internal(i), m) == Joined(p, right, entry, View(u, sub, m))
  {
    var leaf: Tree<I, E> := Leaf(e);
    assert Linked(leaf, External(e), m) && Inners(leaf) == {} && Outers(leaf) == {e} && Apart(leaf);
    assert Joined(i, right, e, u) == if right then Node(i, u, leaf) else Node(i, leaf, u);
  }

  lemma {:induction false} SubIsApart<I, E>(t: Tree<I, E>, path: seq<bool>)
    requires OnPath(t, path) && Apart(t)
    ensures Apart(SubAt(t, path))
    decreases path
  {
    if path != [] {
      SubIsApart(Child(t, path[0]), path[1..]);
    }
  }

  lemma SeparateJoined<I, E>(t: Tree<I, E>, path: seq<bool>, d: bool, i: I, e: E)
    requires OnPath(t, path) && i !in Inners(t) && e !in Outers(t)
    ensures Separate(t, path, Joined(i, d, e, SubAt(t, path)))
  {
  }

  /** Overwriting the value of a leaf. */
  lemma {:induction false} OverwrittenView<I, E, V>(t: Tree<I, E>, ptr: Ptr<I, E>, m: Memory<I, E, V>, m': Memory<I, E, V>,
                                                   path: seq<bool>, e: E)
    requires Stored(t, ptr, m) && OnPath(t, path) && SubAt(t, path) == Leaf(e)
    requires forall i :: i in Inners(t) ==> SameInner(m, m', i)
    requires forall o :: o in Outers(t) && o != e ==> SameOuter(m, m', o)
    requires e in m'.entries
    ensures Linked(t, ptr, m') && OnPath(View(t, ptr, m), path)
    ensures View(t, ptr, m') == Replaced(View(t, ptr, m), path, Leaf(m'.entries[e]))
    decreases path
  {
    if path != [] {
      assert SameInner(m, m', t.i);
      var child, other := Child(t, path[0]), Child(t, !path[0]);
      SubNodes(child, path[1..]);
      assert e in Outers(SubAt(t, path));
      OverwrittenView(child, Side(m.links[t.i], path[0]), m, m', path[1..], e);
      Framed(other, Side(m.links[t.i], !path[0]), m, m');
    }
  }

  lemma Overwritten<I, E, V>(t: Tree<I, E>, ptr: Ptr<I, E>, m: Memory<I, E, V>, m': Memory<I, E, V>, contents: map<Key, V>,
                             path: seq<bool>, e: E, key: Key, value: V)
    requires Holds(t, ptr, m, contents) && OnPath(t, path) && SubAt(t, path) == Leaf(e)
    requires forall i :: i in Inners(t) ==> SameInner(m, m', i)
    requires forall o :: o in Outers(t) && o != e ==> SameOuter(m, m', o)
    requires e in m.entries && m.entries[e].key == key && e in m'.entries && m'.entries[e] == Entry(key, value)
    ensures key in contents && Holds(t, ptr, m', contents[key := value])
  {
    hide Good, Contents;
    OverwrittenView(t, ptr, m, m', path, e);
    var sub := SubIsStored(t, ptr, m, path);
    OverwriteIsGood(View(t, ptr, m), path, key, value);
  }

  /** The sibling of a leaf takes their parent's place. */
  lemma Deleted<I, E, V>(t: Tree<I, E>, ptr: Ptr<I, E>, m: Memory<I, E, V>, m': Memory<I, E, V>, contents: map<Key, V>,
                         path: seq<bool>, d: bool, e: E, key: Key, sibling: Ptr<I, E>)
    returns (t': Tree<I, E>)
    requires Holds(t, ptr, m, contents) && OnPath(t, path) && SubAt(t, path).Node?
    requires Child(SubAt(t, path), d) == Leaf(e) && e in m.entries && m.entries[e].key == key
    requires Linked(Child(SubAt(t, path), !d), sibling, m) && OnePointer(t, m, m', path, sibling)
    ensures Holds(t', if path == [] then sibling else ptr, m', contents - {key}) && key in contents
    ensures Inners(t') <= Inners(t) && Outers(t') <= Outers(t)
  {
    hide Good, Contents, OnePointer;
    DeletedStored(t, ptr, m, m', path, d, sibling);
    var sub := SubIsStored(t, ptr, m, path);
    DeleteIsGood(View(t, ptr, m), path, key, d);
    t' := Replaced(t, path, Child(SubAt(t, path), !d));
  }

  lemma DeletedStored<I, E, V>(t: Tree<I, E>, ptr: Ptr<I, E>, m: Memory<I, E, V>, m': Memory<I, E, V>,
                               path: seq<bool>, d: bool, sibling: Ptr<I, E>)
    requires Stored(t, ptr, m) && OnPath(t, path) && SubAt(t, path).Node?
    requires Linked(Child(SubAt(t, path), !d), sibling, m) && OnePointer(t, m, m', path, sibling)
    ensures var t' := Replaced(t, path, Child(SubAt(t, path), !d));
            var ptr' := if path == [] then sibling else ptr;
            && Stored(t', ptr', m') && Inners(t') <= Inners(t) && Outers(t') <= Outers(t)
            && OnPath(View(t, ptr, m), path) && SubAt(View(t, ptr, m), path).Node?
            && View(t', ptr', m') == Replaced(View(t, ptr, m), path, Child(SubAt(View(t, ptr, m), path), !d))
  {
    hide OnePointer;
    var u := SubAt(t, path);
    var s := Child(u, !d);
    SubNodes(t, path);
    SubIsApart(t, path);
    var sub := SubIsStored(t, ptr, m, path);
    PtrIsUnique(s, sibling, Side(m.links[u.i], !d), m);
    UnchangedBelow(t, m, m', path, sibling);
    Framed(s, sibling, m, m');
    ReplacedNodes(t, path, s);
    Rewired(t, ptr, m, m', path, s, sibling);
  }

  // ----- Walking down by the bits of a key -----

  /** A walk has taken `path` through `ancestors` and is at `node`. */
  ghost predicate Reached<I, E, V>(t: Tree<I, E>, ptr: Ptr<I, E>, m: Memory<I, E, V>, path: seq<bool>, ancestors: seq<I>, node: Ptr<I, E>) {
    && Linked(t, ptr, m) && OnPath(t, path) && Linked(SubAt(t, path), node, m) && OnPath(View(t, ptr, m), path)
    && |ancestors| == |path| && forall j :: 0 <= j < |path| ==> AncestorAt(t, path, j, ancestors[j])
  }

  /** A walk by the bits of `key` has taken `path` through `ancestors` and is at `node`. */
  ghost predicate Walked<I, E, V>(t: Tree<I, E>, ptr: Ptr<I, E>, m: Memory<I, E, V>, key: Key, path: seq<bool>,
                                  ancestors: seq<I>, node: Ptr<I, E>) {
    Reached(t, ptr, m, path, ancestors, node) && Follows(View(t, ptr, m), path, key)
  }

  ghost predicate AncestorAt<I, E>(t: Tree<I, E>, path: seq<bool>, j: nat, i: I)
    requires j < |path|
  {
    OnPath(t, path[..j]) && SubAt(t, path[..j]).Node? && SubAt(t, path[..j]).i == i
  }

  lemma WalkStarts<I, E, V>(t: Tree<I, E>, ptr: Ptr<I, E>, m: Memory<I, E, V>, key: Key)
    requires Linked(t, ptr, m)
    ensures Reached(t, ptr, m, [], [], ptr) && Walked(t, ptr, m, key, [], [], ptr)
  {
  }

  /** Whatever turn a walk takes, it never meets a missing child, and goes on below the node it has reached. */
  lemma ReachesOn<I, E, V>(t: Tree<I, E>, ptr: Ptr<I, E>, m: Memory<I, E, V>, path: seq<bool>, ancestors: seq<I>, node: Ptr<I, E>, d: bool)
    requires Stored(t, ptr, m) && Reached(t, ptr, m, path, ancestors, node) && node.Internal?
    ensures node.i in m.links && node.i in m.crits && !Side(m.links[node.i], d).Null?
    ensures Reached(t, ptr, m, path + [d], ancestors + [node.i], Side(m.links[node.i], d))
    ensures OnPath(t, path + [d]) && (SubAt(t, path) decreases to SubAt(t, path + [d]))
    ensures OnPath(View(t, ptr, m), path) && SubAt(View(t, ptr, m), path).Node? && SubAt(View(t, ptr, m), path).i == m.crits[node.i]
  {
    hide Apart;
    var sub := SubIsStored(t, ptr, m, path);
    PtrIsUnique(SubAt(t, path), sub, node, m);
    PathExtends(t, path, d);
    PathExtends(View(t, ptr, m), path, d);
    assert Linked(Child(SubAt(t, path), d), Side(m.links[node.i], d), m);
    assert (path + [d])[..|path|] == path;
    forall j | 0 <= j < |path + [d]|
      ensures AncestorAt(t, path + [d], j, (ancestors + [node.i])[j])
    {
      if j < |path| {
        assert (path + [d])[..j] == path[..j];
        assert AncestorAt(t, path, j, ancestors[j]);
      }
    }
  }

  /** A walk by the key's bits takes the next turn. */
  lemma WalkGoesOn<I, E, V>(t: Tree<I, E>, ptr: Ptr<I, E>, m: Memory<I, E, V>, key: Key, path: seq<bool>,
                            ancestors: seq<I>, node: Ptr<I, E>, d: bool)
    requires Stored(t, ptr, m) && Walked(t, ptr, m, key, path, ancestors, node) && node.Internal?
    requires node.i in m.crits && d == Bit(key, m.crits[node.i])
    ensures node.i in m.links && !Side(m.links[node.i], d).Null?
    ensures Walked(t, ptr, m, key, path + [d], ancestors + [node.i], Side(m.links[node.i], d))
    ensures OnPath(t, path + [d]) && (SubAt(t, path) decreases to SubAt(t, path + [d]))
  {
    hide Bit, Stored, Reached;
    ReachesOn(t, ptr, m, path, ancestors, node, d);
    assert Linked(t, ptr, m) by {
      StoredIsLinked(t, ptr, m);
    }
    FollowsOn(View(t, ptr, m), path, key, d);
  }

  lemma StoredIsLinked<I, E, V>(t: Tree<I, E>, ptr: Ptr<I, E>, m: Memory<I, E, V>)
    requires Stored(t, ptr, m)
    ensures Linked(t, ptr, m)
  {
  }

  lemma ReachedNode<I, E, V>(t: Tree<I, E>, ptr: Ptr<I, E>, m: Memory<I, E, V>, path: seq<bool>, ancestors: seq<I>, node: Ptr<I, E>)
    requires Stored(t, ptr, m) && Reached(t, ptr, m, path, ancestors, node)
    ensures OnPath(t, path) && !node.Null? && |ancestors| == |path|
    ensures node.Internal? ==> node.i in Inners(t) && node.i in m.links && node.i in m.crits
    ensures node.External? ==> node.e in Outers(t) && node.e in m.entries && SubAt(t, path) == Leaf(node.e)
    ensures forall j :: 0 <= j < |ancestors| ==> ancestors[j] in Inners(t)
  {
    SubNodes(t, path);
    forall j | 0 <= j < |ancestors|
      ensures ancestors[j] in Inners(t)
    {
      assert AncestorAt(t, path, j, ancestors[j]);
      SubNodes(t, path[..j]);
    }
  }

  lemma ReachedLeaf<I, E, V>(t: Tree<I, E>, ptr: Ptr<I, E>, m: Memory<I, E, V>, path: seq<bool>, ancestors: seq<I>, node: Ptr<I, E>)
    requires Stored(t, ptr, m) && Reached(t, ptr, m, path, ancestors, node) && node.External?
    ensures node.e in m.entries && OnPath(View(t, ptr, m), path) && SubAt(View(t, ptr, m), path) == Leaf(m.entries[node.e])
  {
    ReachedNode(t, ptr, m, path, ancestors, node);
    var sub := SubIsStored(t, ptr, m, path);
  }

  lemma WalkNode<I, E, V>(t: Tree<I, E>, ptr: Ptr<I, E>, m: Memory<I, E, V>, key: Key, path: seq<bool>,
                          ancestors: seq<I>, node: Ptr<I, E>)
    requires Stored(t, ptr, m) && Walked(t, ptr, m, key, path, ancestors, node)
    ensures OnPath(t, path) && !node.Null? && |ancestors| == |path|
    ensures node.Internal? ==> node.i in Inners(t) && node.i in m.links && node.i in m.crits
    ensures node.External? ==> node.e in Outers(t) && node.e in m.entries && SubAt(t, path) == Leaf(node.e)
    ensures forall j :: 0 <= j < |ancestors| ==> ancestors[j] in Inners(t)
  {
    hide Stored, Reached;
    ReachedNode(t, ptr, m, path, ancestors, node);
  }

  /** The leaf reached holds the key if any does. */
  lemma WalkEnds<I, E, V>(t: Tree<I, E>, ptr: Ptr<I, E>, m: Memory<I, E, V>, contents: map<Key, V>, key: Key, path: seq<bool>,
                          ancestors: seq<I>, node: Ptr<I, E>)
    requires Holds(t, ptr, m, contents) && Walked(t, ptr, m, key, path, ancestors, node) && node.External?
    ensures OnPath(t, path) && |ancestors| == |path| && forall j :: 0 <= j < |ancestors| ==> ancestors[j] in Inners(t)
    ensures node.e in Outers(t) && node.e in m.entries && SubAt(t, path) == Leaf(node.e)
    ensures key in contents <==> m.entries[node.e].key == key
    ensures key in contents ==> contents[key] == m.entries[node.e].value
    ensures m.entries[node.e].key in contents
  {
    WalkNode(t, ptr, m, key, path, ancestors, node);
    var sub := SubIsStored(t, ptr, m, path);
    SubIsGood(View(t, ptr, m), path);
    WalkFinds(View(t, ptr, m), path, key);
  }

  /** The pointer at a place on the way. */
  lemma OnTheWay<I, E, V>(t: Tree<I, E>, ptr: Ptr<I, E>, m: Memory<I, E, V>, path: seq<bool>, ancestors: seq<I>, node: Ptr<I, E>, n: nat)
    requires Stored(t, ptr, m) && Reached(t, ptr, m, path, ancestors, node) && n <= |path|
    ensures OnPath(t, path[..n]) && OnPath(View(t, ptr, m), path[..n])
    ensures Linked(SubAt(t, path[..n]), if n < |path| then Internal(ancestors[n]) else node, m)
    ensures n > 0 ==> ParentAt(t, path[..n]) == ancestors[n - 1]
    ensures n < |path| ==> SubAt(t, path[..n]).Node? && SubAt(t, path[..n]).i == ancestors[n]
    ensures n < |path| ==> OnPath(t, path[..n + 1]) && Child(SubAt(t, path[..n]), path[n]) == SubAt(t, path[..n + 1])
    ensures n < |path| ==> ancestors[n] in m.crits
                           && SubAt(View(t, ptr, m), path[..n]).Node? && SubAt(View(t, ptr, m), path[..n]).i == m.crits[ancestors[n]]
  {
    PathPrefix(t, path, n);
    PathPrefix(View(t, ptr, m), path, n);
    if n > 0 {
      assert AncestorAt(t, path, n - 1, ancestors[n - 1]);
      ParentIsLast(t, path[..n]);
      assert path[..n][..n - 1] == path[..n - 1];
    }
    var sub := SubIsStored(t, ptr, m, path[..n]);
    if n < |path| {
      assert AncestorAt(t, path, n, ancestors[n]);
    } else {
      assert path[..n] == path;
    }
  }

  lemma {:induction false} FollowsPrefix<V>(t: CritTree<V>, path: seq<bool>, key: Key, n: nat)
    requires OnPath(t, path) && Follows(t, path, key) && n <= |path| && Good(t)
    ensures OnPath(t, path[..n]) && Follows(t, path[..n], key)
    ensures Contents(SubAt(t, path)).Keys <= Contents(SubAt(t, path[..n])).Keys
    decreases path
  {
    if n > 0 {
      assert path[..n][1..] == path[1..][..n - 1];
      FollowsPrefix(Child(t, path[0]), path[1..], key, n - 1);
    } else {
      SubIsGood(t, path);
    }
  }

  /** Bubbling up from the leaf stops where the new key belongs. */
  lemma BubbleStops<I, E, V>(t: Tree<I, E>, ptr: Ptr<I, E>, m: Memory<I, E, V>, contents: map<Key, V>, key: Key, path: seq<bool>,
                             ancestors: seq<I>, node: Ptr<I, E>, p: Pos, n: nat)
    requires Holds(t, ptr, m, contents) && Walked(t, ptr, m, key, path, ancestors, node) && node.External?
    requires node.e in m.entries && Splits(key, m.entries[node.e].key, p) && n <= |path|
    requires n > 0 ==> ancestors[n - 1] in m.crits && !Before(p, m.crits[ancestors[n - 1]])
    requires n < |path| ==> ancestors[n] in m.crits && Before(p, m.crits[ancestors[n]])
    ensures Belongs(View(t, ptr, m), path[..n], key, m.entries[node.e].key, p)
  {
    hide Bit, Splits, Before;
    var near, v := m.entries[node.e].key, View(t, ptr, m);
    WalkEnds(t, ptr, m, contents, key, path, ancestors, node);
    var sub := SubIsStored(t, ptr, m, path);
    assert near in Contents(SubAt(v, path));
    FollowsPrefix(v, path, key, n);
    OnTheWay(t, ptr, m, path, ancestors, node, n);
    if n > 0 {
      OnTheWay(t, ptr, m, path, ancestors, node, n - 1);
      assert path[..n][..n - 1] == path[..n - 1];
    }
    if n == |path| {
      assert path[..n] == path;
    }
  }

  /** What was below ancestor `best` on the way down to the node. */
  ghost function Displaced<I, E>(node: Ptr<I, E>, ancestors: seq<I>, best: int): Ptr<I, E>
    requires -1 <= best < |ancestors|
  {
    if best + 1 < |ancestors| then Internal(ancestors[best + 1]) else node
  }

  /** Ancestor `best`, if any. */
  ghost function Above<I, E>(ancestors: seq<I>, best: int): Ptr<I, E>
    requires -1 <= best < |ancestors|
  {
    if best < 0 then Null else Internal(ancestors[best])
  }

  /** What putting a new node below ancestor `best` makes of the tree. */
  lemma GrownAt<I, E, V>(t: Tree<I, E>, was: Ptr<I, E>, m: Memory<I, E, V>, m': Memory<I, E, V>, key: Key, value: V,
                         path: seq<bool>, ancestors: seq<I>, node: Ptr<I, E>, p: Pos, best: int, internal: I, added: E, root: Ptr<I, E>, right: bool)
    returns (t': Tree<I, E>)
    requires Stored(t, was, m) && Reached(t, was, m, path, ancestors, node)
    requires -1 <= best < |ancestors| == |path| && (best >= 0 ==> ancestors[best] in m.links)
    requires internal !in m.links && added !in m.entries
    requires m' == Grown(m, internal, added, p, Entry(key, value), Displaced(node, ancestors, best), Above(ancestors, best), best >= 0 && path[best], right)
    requires root == if best < 0 then Internal(internal) else was
    ensures Stored(t', root, m') && OnPath(View(t, was, m), path[..best + 1])
    ensures View(t', root, m') == var v := View(t, was, m);
                                  Replaced(v, path[..best + 1], Joined(p, right, Entry(key, value), SubAt(v, path[..best + 1])))
  {
    hide Linked, Apart, Wired, OnePointer, Grown, Reached;
    var place := path[..best + 1];
    var sub := Displaced(node, ancestors, best);
    OnTheWay(t, was, m, path, ancestors, node, best + 1);
    LinkedNodes(t, was, m);
    GrownIsWired(t, m, internal, added, p, Entry(key, value), sub, place, Above(ancestors, best), best >= 0 && path[best], right);
    InsertedStored(t, was, m, m', place, key, value, p, internal, added, sub, right);
    t' := Replaced(t, place, Joined(internal, right, added, SubAt(t, place)));
  }

  /** What an insertion below ancestor `best` makes of the tree. */
  lemma InsertedAt<I, E, V>(t: Tree<I, E>, was: Ptr<I, E>, m: Memory<I, E, V>, m': Memory<I, E, V>, contents: map<Key, V>,
                            key: Key, value: V, near: Key, path: seq<bool>, ancestors: seq<I>, node: Ptr<I, E>,
                            p: Pos, best: int, internal: I, added: E, root: Ptr<I, E>)
    returns (t': Tree<I, E>)
    requires Holds(t, was, m, contents) && Walked(t, was, m, key, path, ancestors, node) && node.External?
    requires node.e in m.entries && m.entries[node.e].key == near && Splits(key, near, p)
    requires -1 <= best < |ancestors| == |path|
    requires best >= 0 ==> ancestors[best] in m.links && ancestors[best] in m.crits && !Before(p, m.crits[ancestors[best]])
    requires best + 1 < |ancestors| ==> ancestors[best + 1] in m.crits && Before(p, m.crits[ancestors[best + 1]])
    requires internal !in m.links && added !in m.entries
    requires m' == Grown(m, internal, added, p, Entry(key, value), Displaced(node, ancestors, best), Above(ancestors, best), best >= 0 && path[best],
                         Bit(key, p))
    requires root == if best < 0 then Internal(internal) else was
    ensures Holds(t', root, m', contents[key := value]) && key !in contents
  {
    hide Reached, Follows, Splits, Before, Bit, Good, Contents, Linked, Apart, Belongs, Grown;
    BubbleStops(t, was, m, contents, key, path, ancestors, node, p, best + 1);
    t' := GrownAt(t, was, m, m', key, value, path, ancestors, node, p, best, internal, added, root, Bit(key, p));
    InsertedView(View(t, was, m), path[..best + 1], key, value, near, p);
  }

  // ----- Deleting the leaf a walk has reached -----

  lemma LastDeleted<I, E, V>(t: Tree<I, E>, ptr: Ptr<I, E>, m: Memory<I, E, V>, contents: map<Key, V>, key: Key,
                             ancestors: seq<I>, node: Ptr<I, E>)
    requires Holds(t, ptr, m, contents) && Walked(t, ptr, m, key, [], ancestors, node) && node.External?
    requires node.e in m.entries && m.entries[node.e].key == key
    ensures contents - {key} == map[] && key in contents
  {
  }

  /** The parent of the leaf, in the tree and in memory, and the leaf's sibling. */
  lemma SiblingFound<I, E, V>(t: Tree<I, E>, ptr: Ptr<I, E>, m: Memory<I, E, V>, contents: map<Key, V>, key: Key, path: seq<bool>,
                              ancestors: seq<I>, node: Ptr<I, E>) returns (sibling: Ptr<I, E>)
    requires Holds(t, ptr, m, contents) && Walked(t, ptr, m, key, path, ancestors, node) && node.External? && path != []
    ensures |ancestors| == |path| && forall j :: 0 <= j < |path| ==> ancestors[j] in m.links
    ensures sibling == Side(m.links[ancestors[|path| - 1]], !path[|path| - 1])
    ensures OnPath(t, path[..|path| - 1]) && SubAt(t, path[..|path| - 1]).Node?
    ensures Child(SubAt(t, path[..|path| - 1]), path[|path| - 1]) == Leaf(node.e)
    ensures Linked(Child(SubAt(t, path[..|path| - 1]), !path[|path| - 1]), sibling, m)
  {
    hide Good, Contents, Follows;
    var n := |path| - 1;
    WalkNode(t, ptr, m, key, path, ancestors, node);
    LinkedNodes(t, ptr, m);
    OnTheWay(t, ptr, m, path, ancestors, node, n);
    assert path[..n + 1] == path;
    sibling := Side(m.links[ancestors[n]], !path[n]);
  }

  lemma DeletedAt<I, E, V>(t: Tree<I, E>, ptr: Ptr<I, E>, m: Memory<I, E, V>, m': Memory<I, E, V>, contents: map<Key, V>, key: Key,
                           path: seq<bool>, ancestors: seq<I>, node: Ptr<I, E>, sibling: Ptr<I, E>)
    returns (t': Tree<I, E>)
    requires Holds(t, ptr, m, contents) && Walked(t, ptr, m, key, path, ancestors, node) && node.External? && path != []
    requires node.e in m.entries && m.entries[node.e].key == key && |ancestors| == |path|
    requires forall j :: 0 <= j < |path| ==> ancestors[j] in m.links
    requires sibling == Side(m.links[ancestors[|path| - 1]], !path[|path| - 1])
    requires m' == if |path| > 1 then Relinked(m, ancestors[|path| - 2], path[|path| - 2], sibling) else m
    ensures Holds(t', if |path| > 1 then ptr else sibling, m', contents - {key}) && key in contents
  {
    hide Good, Contents, Follows, Relinked, OnePointer, Reached, Holds;
    var n := |path| - 1;
    var above := path[..n];
    var sibling' := SiblingFound(t, ptr, m, contents, key, path, ancestors, node);
    HeldNodes(t, ptr, m, contents);
    if n > 0 {
      OnTheWay(t, ptr, m, path, ancestors, node, n);
      RelinkedIsOne(t, m, above, ancestors[n - 1], sibling);
    } else {
      UnchangedIsOne(t, m, sibling);
    }
    t' := Deleted(t, ptr, m, m', contents, above, path[n], node.e, key, sibling);
  }

  lemma HeldNotEmpty<I, E, V>(t: Tree<I, E>, ptr: Ptr<I, E>, m: Memory<I, E, V>, contents: map<Key, V>)
    requires Holds(t, ptr, m, contents)
    ensures |contents| > 0
  {
    assert SomeKey(View(t, ptr, m)) in contents;
  }

  lemma KeyAdded<V>(contents: map<Key, V>, key: Key, value: V)
    requires key !in contents
    ensures |contents[key := value]| == |contents| + 1
  {
    assert contents[key := value].Keys == contents.Keys + {key};
  }

  lemma KeyRemoved<V>(contents: map<Key, V>, key: Key)
    requires key in contents
    ensures |contents - {key}| == |contents| - 1
  {
    assert (contents - {key}).Keys == contents.Keys - {key};
  }

  lemma HeldNodes<I, E, V>(t: Tree<I, E>, ptr: Ptr<I, E>, m: Memory<I, E, V>, contents: map<Key, V>)
    requires Holds(t, ptr, m, contents)
    ensures Stored(t, ptr, m) && !ptr.Null?
    ensures Inners(t) <= m.links.Keys && Inners(t) <= m.crits.Keys && Outers(t) <= m.entries.Keys
  {
    LinkedNodes(t, ptr, m);
  }

  // ----- Visiting the leaves in order with a stack -----

  /** What the leaves hold, from left to right. */
  ghost function Listing<I, E, V>(t: Tree<I, E>, m: Memory<I, E, V>): seq<Entry<V>> {
    match t
    case Leaf(e) => if e in m.entries then [m.entries[e]] else []
    case Node(_, left, right) => Listing(left, m) + Listing(right, m)
  }

  /** What is still to be listed for nodes whose left sides are done, the last one first. */
  ghost function Pending<I, E, V>(todo: seq<Tree<I, E>>, m: Memory<I, E, V>): seq<Entry<V>> {
    if todo == [] then []
    else
      var t := todo[|todo| - 1];
      Listing(if t.Node? then t.right else t, m) + Pending(todo[..|todo| - 1], m)
  }

  ghost function Rest<I, E, V>(cur: Option<Tree<I, E>>, todo: seq<Tree<I, E>>, m: Memory<I, E, V>): seq<Entry<V>> {
    (if cur.Some? then Listing(cur.value, m) else []) + Pending(todo, m)
  }

  ghost function Steps<I, E>(t: Tree<I, E>): nat {
    match t
    case Leaf(_) => 2
    case Node(_, left, right) => 2 + Steps(left) + Steps(right)
  }

  ghost function PendingSteps<I, E>(todo: seq<Tree<I, E>>): nat {
    if todo == [] then 0
    else
      var t := todo[|todo| - 1];
      1 + (if t.Node? then Steps(t.right) else 0) + PendingSteps(todo[..|todo| - 1])
  }

  ghost function Work<I, E>(cur: Option<Tree<I, E>>, todo: seq<Tree<I, E>>): nat {
    (if cur.Some? then Steps(cur.value) else 0) + PendingSteps(todo)
  }

  ghost function LeftOf<I, E>(t: Tree<I, E>): Option<Tree<I, E>> {
    if t.Node? then Some(t.left) else None
  }

  ghost function RightOf<I, E>(t: Tree<I, E>): Option<Tree<I, E>> {
    if t.Node? then Some(t.right) else None
  }

  /** Where the traversal is, in the tree and in memory. */
  ghost predicate At<I, E, V>(cur: Option<Tree<I, E>>, todo: seq<Tree<I, E>>, current: Ptr<I, E>, stack: seq<Ptr<I, E>>, m: Memory<I, E, V>) {
    && (if cur.Some? then Linked(cur.value, current, m) else current.Null?)
    && |todo| == |stack|
    && forall j :: 0 <= j < |todo| ==> Linked(todo[j], stack[j], m)
  }

  lemma Descends<I, E, V>(cur: Option<Tree<I, E>>, todo: seq<Tree<I, E>>, current: Ptr<I, E>, stack: seq<Ptr<I, E>>, m: Memory<I, E, V>)
    requires At(cur, todo, current, stack, m) && !current.Null?
    ensures cur.Some? && (current.Internal? ==> current.i in m.links)
    ensures At(LeftOf(cur.value), todo + [cur.value], if current.Internal? then m.links[current.i].left else Null, stack + [current], m)
    ensures Rest(LeftOf(cur.value), todo + [cur.value], m) == Rest(cur, todo, m)
    ensures Work(LeftOf(cur.value), todo + [cur.value]) < Work(cur, todo)
  {
    var t, todo' := cur.value, todo + [cur.value];
    assert todo'[..|todo|] == todo;
    if t.Node? {
      assert Listing(t.left, m) + (Listing(t.right, m) + Pending(todo, m)) == Listing(t, m) + Pending(todo, m);
    }
  }

  lemma Ascends<I, E, V>(cur: Option<Tree<I, E>>, todo: seq<Tree<I, E>>, current: Ptr<I, E>, stack: seq<Ptr<I, E>>, m: Memory<I, E, V>)
    requires At(cur, todo, current, stack, m) && current.Null? && |stack| > 0
    ensures cur == None && |todo| == |stack|
    ensures var t, p, todo', stack' := todo[|todo| - 1], stack[|stack| - 1], todo[..|todo| - 1], stack[..|stack| - 1];
            && (p.Internal? || p.External?)
            && (p.Internal? ==> p.i in m.links) && (p.External? ==> p.e in m.entries)
            && At(RightOf(t), todo', if p.Internal? then m.links[p.i].right else Null, stack', m)
            && Rest(cur, todo, m) == (if p.External? then [m.entries[p.e]] else []) + Rest(RightOf(t), todo', m)
            && Work(RightOf(t), todo') < Work(cur, todo)
  {
    var t, p := todo[|todo| - 1], stack[|stack| - 1];
    assert Linked(t, p, m);
    if t.Node? {
      assert Linked(t.right, m.links[p.i].right, m);
    }
  }

  lemma TraversalStarts<I, E, V>(tree: Option<Tree<I, E>>, ptr: Ptr<I, E>, m: Memory<I, E, V>)
    requires tree.Some? ==> Linked(tree.value, ptr, m)
    requires tree == None ==> ptr.Null?
    ensures At(tree, [], ptr, [], m)
  {
  }

  lemma NothingLeft<I, E, V>(cur: Option<Tree<I, E>>, todo: seq<Tree<I, E>>, current: Ptr<I, E>, stack: seq<Ptr<I, E>>, m: Memory<I, E, V>)
    requires At(cur, todo, current, stack, m) && current.Null? && |stack| == 0
    ensures Rest(cur, todo, m) == []
  {
  }

  lemma {:induction false} ListingIsInOrder<I, E, V>(t: Tree<I, E>, ptr: Ptr<I, E>, m: Memory<I, E, V>)
    requires Linked(t, ptr, m)
    ensures Listing(t, m) == InOrder(View(t, ptr, m))
  {
    if t.Node? {
      ListingIsInOrder(t.left, m.links[t.i].left, m);
      ListingIsInOrder(t.right, m.links[t.i].right, m);
    }
  }

  /** A whole traversal lists the leaves from left to right. */
  lemma TraversalEnds<I, E, V>(tree: Option<Tree<I, E>>, ptr: Ptr<I, E>, m: Memory<I, E, V>, log: seq<Entry<V>>)
    requires tree.Some? ==> Linked(tree.value, ptr, m)
    requires log == Rest(tree, [], m)
    ensures log == Visits(if tree.Some? then Some(View(tree.value, ptr, m)) else None)
  {
    if tree.Some? {
      ListingIsInOrder(tree.value, ptr, m);
    }
  }

  /** The whole listing has every entry once, in key order. */
  lemma ListsInOrder<I, E, V>(tree: Option<Tree<I, E>>, ptr: Ptr<I, E>, m: Memory<I, E, V>, contents: map<Key, V>, log: seq<Entry<V>>)
    requires tree.Some? ==> Holds(tree.value, ptr, m, contents)
    requires tree == None ==> contents == map[]
    requires log == Rest(tree, [], m)
    ensures Ascending(log) && Lists(log, contents) && |log| == |contents|
  {
    hide Good, Contents;
    if tree.Some? {
      ListingIsInOrder(tree.value, ptr, m);
      InOrderAscends(View(tree.value, ptr, m));
    }
    CountOf(log, contents);
  }

  /** A listing in strictly ascending order has every key once. */
  lemma CountOf<V>(log: seq<Entry<V>>, contents: map<Key, V>)
    requires Ascending(log) && Lists(log, contents)
    ensures |log| == |contents|
  {
    var keys := seq(|log|, i requires 0 <= i < |log| => log[i].key);
    forall i, j | 0 <= i < j < |keys|
      ensures keys[i] != keys[j]
    {
      LessIsStrict(log[i].key, log[j].key);
    }
    forall k
      ensures k in keys <==> k in contents
    {
      if k in contents {
        var i :| 0 <= i < |log| && log[i] == Entry(k, contents[k]);
        assert keys[i] == k;
      }
      if k in keys {
        var i :| 0 <= i < |keys| && keys[i] == k;
        assert log[i] in log;
      }
    }
    DistinctCount(keys, contents.Keys);
  }

  lemma {:induction false} DistinctCount(keys: seq<Key>, s: set<Key>)
    requires forall i, j :: 0 <= i < j < |keys| ==> keys[i] != keys[j]
    requires forall k :: k in keys <==> k in s
    ensures |keys| == |s|
  {
    if keys == [] {
      assert s == {};
    } else {
      DistinctCount(keys[1..], s - {keys[0]});
    }
  }
}