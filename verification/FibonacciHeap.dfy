/** The Fibonacci heap: circular lists of linked nodes, consolidated when the first item is removed. */
module FibonacciHeaps {
  import opened Permutations
  import opened QuickSort
  import opened Comparators
  import opened Options
  import opened FibonacciForests
  import opened FibonacciConsolidation

  class Node<T> {
    const item: T
    var degree: nat
    var left: Node<T>
    var right: Node<T>
    var child: Node?<T>
    var parent: Node?<T>

    constructor (item: T)
      ensures this.item == item && degree == 0 && left == this && right == this && child == null
    {
      this.item := item;
      degree := 0;
      left := this;
      right := this;
      child := null;
      parent := null;
    }
  }

  function ItemOf<T>(n: Node<T>): T {
    n.item
  }

  type Nodes<!T> = Memory<Node<T>>

  type Forest<T> = seq<Tree<Node<T>>>

  ghost predicate Held<T>(m: Nodes<T>, n: Node<T>)
    reads n
  {
    && n in m.left && m.left[n] == n.left
    && n in m.right && m.right[n] == n.right
    && n in m.degree && m.degree[n] == n.degree
    && (if n.child == null then n !in m.child else n in m.child && m.child[n] == n.child)
  }

  /** The memory says what every one of its nodes holds. */
  ghost predicate Kept<T>(m: Nodes<T>)
    reads m.degree.Keys
  {
    Synced(m) && Closed(m)
  }

  ghost predicate Synced<T>(m: Nodes<T>)
    reads m.degree.Keys
  {
    forall n {:trigger Held(m, n)} :: n in m.degree ==> Held(m, n)
  }

  /** All pointers lead to nodes that memory knows. */
  ghost predicate Closed<T>(m: Nodes<T>) {
    && m.left.Keys == m.degree.Keys && m.right.Keys == m.degree.Keys && m.child.Keys <= m.degree.Keys
    && forall n {:trigger LeadsInside(m, n)} :: n in m.degree ==> LeadsInside(m, n)
  }

  ghost predicate LeadsInside<T>(m: Nodes<T>, n: Node<T>) {
    && (n in m.left ==> m.left[n] in m.degree)
    && (n in m.right ==> m.right[n] in m.degree)
    && (n in m.child ==> m.child[n] in m.degree)
  }

  lemma LeftStaysClosed<T>(m: Nodes<T>, n: Node<T>, to: Node<T>)
    requires Closed(m) && to in m.degree && n in m.degree
    ensures Closed(m.(left := m.left[n := to]))
  {
    var m' := m.(left := m.left[n := to]);
    assert m'.left.Keys == m.left.Keys + {n};
    forall x {:trigger LeadsInside(m', x)} | x in m'.degree
      ensures LeadsInside(m', x)
    {
      assert LeadsInside(m, x);
    }
  }

  lemma RightStaysClosed<T>(m: Nodes<T>, n: Node<T>, to: Node<T>)
    requires Closed(m) && to in m.degree && n in m.degree
    ensures Closed(m.(right := m.right[n := to]))
  {
    var m' := m.(right := m.right[n := to]);
    assert m'.right.Keys == m.right.Keys + {n};
    forall x {:trigger LeadsInside(m', x)} | x in m'.degree
      ensures LeadsInside(m', x)
    {
      assert LeadsInside(m, x);
    }
  }

  lemma ChildStaysClosed<T>(m: Nodes<T>, n: Node<T>, to: Node<T>)
    requires Closed(m) && to in m.degree && n in m.degree
    ensures Closed(m.(child := m.child[n := to]))
  {
    var m' := m.(child := m.child[n := to]);
    assert m'.child.Keys == m.child.Keys + {n};
    forall x {:trigger LeadsInside(m', x)} | x in m'.degree
      ensures LeadsInside(m', x)
    {
      assert LeadsInside(m, x);
    }
  }

  lemma DegreeStaysClosed<T>(m: Nodes<T>, n: Node<T>, d: nat)
    requires Closed(m) && n in m.degree
    ensures Closed(m.(degree := m.degree[n := d]))
  {
    var m' := m.(degree := m.degree[n := d]);
    assert m'.degree.Keys == m.degree.Keys;
    forall x {:trigger LeadsInside(m', x)} | x in m'.degree
      ensures LeadsInside(m', x)
    {
      assert LeadsInside(m, x);
    }
  }

  lemma ClosedAt<T>(m: Nodes<T>, n: Node<T>)
    requires Closed(m)
    ensures n in m.degree <==> n in m.left
    ensures n in m.degree <==> n in m.right
    ensures n in m.child ==> n in m.degree
    ensures n in m.left ==> m.left[n] in m.degree
    ensures n in m.right ==> m.right[n] in m.degree
    ensures n in m.child ==> m.child[n] in m.degree
  {
    if n in m.degree {
      assert LeadsInside(m, n);
    }
  }

  lemma NodeHeld<T>(m: Nodes<T>, n: Node<T>)
    requires Kept(m) && n in m.degree
    ensures Held(m, n) && n.left in m.degree && n.right in m.degree && (n.child != null ==> n.child in m.degree)
  {
    hide Closed;
    assert Held(m, n);
    ClosedAt(m, n);
  }

  /** A new node, closed upon itself, joins the memory. */
  lemma FreshNode<T>(m: Nodes<T>, node: Node<T>)
    requires Kept(m) && node !in m.degree
    requires node.left == node && node.right == node && node.child == null && node.degree == 0
    ensures node !in m.child
    ensures Kept(Memory(m.left[node := node], m.right[node := node], m.child, m.degree[node := 0]))
  {
    var m' := Memory(m.left[node := node], m.right[node := node], m.child, m.degree[node := 0]);
    forall x {:trigger LeadsInside(m', x)} | x in m'.degree
      ensures LeadsInside(m', x)
    {
      if x != node {
        assert LeadsInside(m, x);
      }
    }
    forall x {:trigger Held(m', x)} | x in m'.degree
      ensures Held(m', x)
    {
      if x != node {
        assert Held(m, x);
      }
    }
  }

  // ----- Single pointers -----

  method SetRight<T>(n: Node<T>, r: Node<T>, ghost m: Nodes<T>) returns (ghost m': Nodes<T>)
    requires Kept(m) && n in m.degree && r in m.degree
    modifies n
    ensures Kept(m') && m' == m.(right := m.right[n := r]) && m'.degree == m.degree
  {
    hide Closed;
    RightStaysClosed(m, n, r);
    n.right := r;
    m' := m.(right := m.right[n := r]);
    forall x {:trigger Held(m', x)} | x in m'.degree
      ensures Held(m', x)
    {
      assert old(Held(m, x));
    }
  }

  method SetLeft<T>(n: Node<T>, l: Node<T>, ghost m: Nodes<T>) returns (ghost m': Nodes<T>)
    requires Kept(m) && n in m.degree && l in m.degree
    modifies n
    ensures Kept(m') && m' == m.(left := m.left[n := l]) && m'.degree == m.degree
  {
    hide Closed;
    LeftStaysClosed(m, n, l);
    n.left := l;
    m' := m.(left := m.left[n := l]);
    forall x {:trigger Held(m', x)} | x in m'.degree
      ensures Held(m', x)
    {
      assert old(Held(m, x));
    }
  }

  method SetChild<T>(n: Node<T>, c: Node<T>, ghost m: Nodes<T>) returns (ghost m': Nodes<T>)
    requires Kept(m) && n in m.degree && c in m.degree
    modifies n
    ensures Kept(m') && m' == m.(child := m.child[n := c]) && m'.degree == m.degree
  {
    hide Closed;
    ChildStaysClosed(m, n, c);
    n.child := c;
    m' := m.(child := m.child[n := c]);
    forall x {:trigger Held(m', x)} | x in m'.degree
      ensures Held(m', x)
    {
      assert old(Held(m, x));
    }
  }

  method Promote<T>(n: Node<T>, ghost m: Nodes<T>) returns (ghost m': Nodes<T>)
    requires Kept(m) && n in m.degree
    modifies n
    ensures Kept(m') && m' == m.(degree := m.degree[n := m.degree[n] + 1]) && m'.degree.Keys == m.degree.Keys
  {
    hide Closed;
    DegreeStaysClosed(m, n, m.degree[n] + 1);
    assert Held(m, n);
    n.degree := n.degree + 1;
    m' := m.(degree := m.degree[n := m.degree[n] + 1]);
    forall x {:trigger Held(m', x)} | x in m'.degree
      ensures Held(m', x)
    {
      assert old(Held(m, x));
    }
  }

  method SetParent<T>(n: Node<T>, p: Node?<T>, ghost m: Nodes<T>)
    requires Kept(m) && n in m.degree
    modifies n
    ensures Kept(m)
  {
    hide Closed;
    n.parent := p;
    forall x {:trigger Held(m, x)} | x in m.degree
      ensures Held(m, x)
    {
      assert old(Held(m, x));
    }
  }

  lemma ChildHeld<T>(m: Nodes<T>, n: Node<T>)
    requires Kept(m) && n in m.child
    ensures m.child[n] in m.degree && m.child[n] in m.right
  {
    hide Closed;
    ClosedAt(m, n);
    ClosedAt(m, m.child[n]);
  }

  // ----- Circular lists -----

  /** Puts a node right of another. */
  method PutBeside<T>(anchor: Node<T>, node: Node<T>, ghost m: Nodes<T>) returns (ghost m': Nodes<T>)
    requires Kept(m) && anchor in m.degree && node in m.degree && anchor in m.right
    modifies m.degree.Keys
    ensures Kept(m') && m' == Beside(m, anchor, node) && m'.degree == m.degree
  {
    hide Kept;
    NodeHeld(m, anchor);
    m' := SetRight(node, anchor.right, m);
    m' := SetLeft(node, anchor, m');
    NodeHeld(m', anchor);
    m' := SetLeft(anchor.right, node, m');
    m' := SetRight(anchor, node, m');
  }

  /** Joins the neighbours of a node. */
  method Bypass<T>(y: Node<T>, ghost m: Nodes<T>) returns (ghost m': Nodes<T>)
    requires Kept(m) && y in m.degree && y in m.left && y in m.right
    modifies m.degree.Keys
    ensures Kept(m') && m' == Bypassed(m, y) && m'.degree == m.degree
  {
    hide Kept;
    NodeHeld(m, y);
    m' := SetRight(y.left, y.right, m);
    NodeHeld(m', y);
    m' := SetLeft(y.right, y.left, m');
  }

  /** The nodes of a circular list, in order. */
  method ConsumeLinkedList<T>(head: Node<T>, ghost m: Nodes<T>, ghost s: seq<Node<T>>) returns (nodes: seq<Node<T>>)
    requires Kept(m) && s != [] && s[0] == head && Ring(m, s) && Distinct(s)
    ensures nodes == s
  {
    hide Kept;
    var node, flag := head, false;
    nodes := [];
    while true
      invariant |nodes| <= |s| && nodes == s[..|nodes|]
      invariant node == s[if |nodes| < |s| then |nodes| else 0] && flag == (nodes != [])
      decreases |s| - |nodes|, if flag then 0 else 1
    {
      if node == head && flag {
        break;
      } else if node == head {
        flag := true;
      }
      assert RingAt(m, s, |nodes|);
      RingHeld(m, node);
      nodes := nodes + [node];
      node := node.right;
    }
  }

  lemma RingHeld<T>(m: Nodes<T>, n: Node<T>)
    requires Kept(m) && n in m.right
    ensures n in m.degree && Held(m, n)
  {
    hide Closed;
    ClosedAt(m, n);
    assert Held(m, n);
  }

  ghost predicate Rooted<T>(root: Node?<T>, f: Forest<T>) {
    if f == [] then root == null else root == f[0].id
  }

  /** A forest of heap-ordered binomial trees, with its roots in a circular list. */
  ghost predicate Forested<T>(compare: (T, T) -> int, m: Nodes<T>, f: Forest<T>) {
    Shaped(m, f, {}) && AllGood(compare, ItemOf, f)
  }

  /** No two roots have the same degree. */
  ghost predicate DegreesDiffer<T>(f: Forest<T>) {
    forall t, u :: t in f && u in f && |t.kids| == |u.kids| ==> t.id == u.id
  }

  /** The slots that are not empty. */
  ghost predicate Shows<T>(A: seq<Node?<T>>, slots: map<nat, Node<T>>) {
    forall d: nat :: (d in slots <==> d < |A| && A[d] != null) && (d in slots ==> slots[d] == A[d])
  }

  class FibonacciHeap<T(!new)> {
    const comparator: (T, T) -> int
    var root: Node?<T>
    var min: Node?<T>
    var size: nat
    ghost var forest: Forest<T>
    ghost var memory: Nodes<T>
    /** Over the whole run: calls of Link, which counts them itself, pushes, pops, the sum of the degrees
        of the nodes popped, and the largest size. */
    ghost var links: nat
    ghost var pushes: nat
    ghost var pops: nat
    ghost var released: nat
    ghost var highest: nat

    ghost predicate Valid()
      reads this, memory.degree.Keys
    {
      && TotalPreorder(comparator)
      && Kept(memory) && Forested(comparator, memory, forest) && Rooted(root, forest)
      && IsLeast(min, forest)
      && size == |Bag(forest)|
      && links + |forest| + pops == pushes + released
      && size <= highest && ReleaseBounded(released, pops, highest)
    }

    /** A root that goes before all others, if there are any. */
    ghost predicate IsLeast(n: Node?<T>, f: Forest<T>) {
      if f == [] then n == null
      else n != null && n in Ids(f) && forall t :: t in f ==> comparator(n.item, t.id.item) <= 0
    }

    ghost function Contents(): multiset<T>
      reads this
    {
      Items(ItemOf, forest)
    }

    constructor (comparator: (T, T) -> int)
      requires TotalPreorder(comparator)
      ensures Valid() && Contents() == multiset{} && this.comparator == comparator
      ensures links == pushes == pops == released == 0 && fresh(memory.degree.Keys)
    {
      this.comparator := comparator;
      root := null;
      min := null;
      size := 0;
      forest := [];
      memory := Memory(map[], map[], map[], map[]);
      links, pushes, pops, released, highest := 0, 0, 0, 0, 0;
    }

    /** Records the new ghost state of a heap that has changed in memory. */
    ghost method Become(f: Forest<T>, m: Nodes<T>, pushes': nat, pops': nat, released': nat)
      requires TotalPreorder(comparator) && Kept(m) && Forested(comparator, m, f) && Rooted(root, f)
      requires IsLeast(min, f) && size == |Bag(f)| && links + |f| + pops' == pushes' + released'
      requires ReleaseBounded(released', pops', if size <= highest then highest else size)
      modifies this`forest, this`memory, this`pushes, this`pops, this`released, this`highest
      ensures Valid() && forest == f && memory == m && Contents() == Items(ItemOf, f)
      ensures pushes == pushes' && pops == pops' && released == released'
      ensures highest == if size <= old(highest) then old(highest) else size
    {
      hide TotalPreorder, Kept, Forested, Bag, Items, ReleaseBounded, IsLeast;
      highest := if size <= highest then highest else size;
      forest, memory, pushes, pops, released := f, m, pushes', pops', released';
    }

    /** Over any run, calls of Link are bounded by pushes and pops: only Link raises `links`, by one a call,
        Pop raises `released` by the degree of the node it takes, and `highest` is the largest size. */
    lemma LinkBound()
      requires Valid()
      ensures links <= pushes + released && links <= pushes + pops * FloorLog2(highest)
    {
    }

    /** The first item, if any. */
    method Peek() returns (item: Option<T>)
      requires Valid()
      ensures item == None <==> Contents() == multiset{}
      ensures item.Some? ==> item.value in Contents() && forall x :: x in Contents() ==> comparator(item.value, x) <= 0
    {
      hide Bag, Items, Synced, Shaped, Good, TotalPreorder;
      if min == null {
        item := None;
      } else {
        item := Some(min.item);
        LeastOfAll(forest, min);
      }
      EmptyForest(forest);
    }

    lemma EmptyForest(f: Forest<T>)
      ensures Items(ItemOf, f) == multiset{} <==> f == []
      ensures |Bag(f)| == 0 <==> f == []
    {
    }

    /** The least root is least of all. */
    lemma LeastOfAll(f: Forest<T>, n: Node<T>)
      requires TotalPreorder(comparator) && AllGood(comparator, ItemOf, f) && IsLeast(n, f) && f != []
      ensures n.item in Items(ItemOf, f) && forall x :: x in Items(ItemOf, f) ==> comparator(n.item, x) <= 0
    {
      hide Bag, Items, Good, TotalPreorder;
      var t := IdIn(f, n);
      BagHasTree(f, t);
      ItemHeld(ItemOf, f, n);
      forall x | x in Items(ItemOf, f)
        ensures comparator(n.item, x) <= 0
      {
        var holder := ItemHolder(ItemOf, f, x);
        var u := RootBefore(comparator, ItemOf, f, holder);
        Transitive(comparator, n.item, u.id.item, x);
      }
    }

    /** Puts a tree into the list of roots. */
    method MergeWithRoot(node: Node<T>, ghost m: Nodes<T>, ghost f: Forest<T>, ghost t: Tree<Node<T>>, ghost loose: set<Node<T>>)
      returns (ghost m': Nodes<T>)
      requires Kept(m) && Shaped(m, f, loose) && Rooted(root, f) && node == t.id && node in m.degree
      requires Stored(m, t) && Apart([t]) && Bag(f) !! Bag([t]) && (f == [] ==> Ring(m, [node]))
      modifies this`root, m.degree.Keys
      ensures Kept(m') && Shaped(m', Second(f, t), loose) && Rooted(root, Second(f, t))
      ensures m'.degree == m.degree && (f == [] ==> m' == m)
      ensures f != [] ==> f[0].id in m.right && m' == Beside(m, f[0].id, node)
    {
      hide Kept, Bag, Stored, Apart, Ring;
      if root == null {
        root := node;
        m' := m;
        assert Ids([t]) == [node];
      } else {
        SpliceIn(m, f, t, loose);
        RingHeld(m, root);
        m' := PutBeside(root, node, m);
      }
    }

    /** Adds an item. */
    method Push(item: T) returns (size': nat)
      requires Valid()
      modifies this, memory.degree.Keys
      ensures Valid() && Contents() == old(Contents()) + multiset{item} && size' == size == old(size) + 1
      ensures links == old(links) && pushes == old(pushes) + 1 && pops == old(pops) && released == old(released)
      ensures highest == if size <= old(highest) then old(highest) else size
      ensures fresh(memory.degree.Keys - old(memory.degree.Keys))
    {
      hide Kept, Forested, Bag, Items, TotalPreorder, IsLeast, ReleaseBounded, Rooted;
      ghost var m, f := AddRoot(item, memory, forest);
      size := size + 1;
      HigherBound(released, pops, highest, if size <= highest then highest else size);
      Become(f, m, pushes + 1, pops, released);
      size' := size;
    }

    /** Puts a new node into the list of roots; it becomes the least root if it goes before the least one. */
    method AddRoot(item: T, ghost m: Nodes<T>, ghost f: Forest<T>) returns (ghost m': Nodes<T>, ghost f': Forest<T>)
      requires TotalPreorder(comparator) && Kept(m) && Forested(comparator, m, f) && Rooted(root, f) && IsLeast(min, f)
      modifies this`root, this`min, m.degree.Keys
      ensures Kept(m') && Forested(comparator, m', f') && Rooted(root, f') && IsLeast(min, f')
      ensures |f'| == |f| + 1 && |Bag(f')| == |Bag(f)| + 1 && Items(ItemOf, f') == Items(ItemOf, f) + multiset{item}
      ensures m.degree.Keys <= m'.degree.Keys && fresh(m'.degree.Keys - m.degree.Keys)
    {
      hide Kept, Bag, Items, Stored, Apart, Ring, TotalPreorder, Shaped, Beside, Second, IsLeast, AllGood, Rooted;
      var node;
      node, m' := CreateNode(item, m, f);
      ghost var t := Tree(node, []);
      m' := MergeWithRoot(node, m', f, t, {});
      f' := Second(f, t);
      Added(f, t);
      LeastOfMore(f, t);
      if min == null || comparator(node.item, min.item) <= 0 {
        min := node;
      }
    }

    /** A node that is not yet in any list. */
    static method CreateNode(item: T, ghost m: Nodes<T>, ghost f: Forest<T>) returns (node: Node<T>, ghost m': Nodes<T>)
      requires Kept(m) && Shaped(m, f, {})
      ensures fresh(node) && node.item == item
      ensures Kept(m') && Shaped(m', f, {}) && Stored(m', Tree(node, [])) && Ring(m', [node])
      ensures Apart([Tree(node, [])]) && Bag(f) !! Bag([Tree(node, [])])
      ensures m'.degree.Keys == m.degree.Keys + {node}
    {
      hide Bag, Stored, Apart, Ring, Shaped, Kept;
      node := new Node<T>(item);
      FreshNode(m, node);
      NewNode(m, f, node);
      m' := Memory(m.left[node := node], m.right[node := node], m.child, m.degree[node := 0]);
    }

    lemma Added(f: Forest<T>, t: Tree<Node<T>>)
      requires AllGood(comparator, ItemOf, f) && t.kids == []
      ensures AllGood(comparator, ItemOf, Second(f, t)) && |Second(f, t)| == |f| + 1
      ensures |Bag(Second(f, t))| == |Bag(f)| + 1 && Items(ItemOf, Second(f, t)) == Items(ItemOf, f) + multiset{t.id.item}
    {
      hide Bag, Items, Good;
      SecondMembers(f, t);
      BagSecond(ItemOf, f, t);
      LeafBag(ItemOf, t);
      SingleIsGood(comparator, ItemOf, t.id);
    }

    lemma LeastOfMore(f: Forest<T>, t: Tree<Node<T>>)
      requires TotalPreorder(comparator) && IsLeast(min, f)
      ensures IsLeast(if min == null || comparator(t.id.item, min.item) <= 0 then t.id else min, Second(f, t))
    {
      SecondMembers(f, t);
      IdOf(Second(f, t), t);
      if f != [] {
        var u := IdIn(f, min);
        IdOf(Second(f, t), u);
        if comparator(t.id.item, min.item) <= 0 {
          forall v | v in f
            ensures comparator(t.id.item, v.id.item) <= 0
          {
            Transitive(comparator, t.id.item, min.item, v.id.item);
          }
        }
      }
      Reflexive(comparator, t.id.item);
    }

    // ----- Linking -----

    /** Takes a node out of the list of roots. */
    method RemoveFromRoot(node: Node<T>, ghost m: Nodes<T>) returns (ghost m': Nodes<T>)
      requires Kept(m) && node in m.degree && node in m.left && node in m.right
      modifies this`root, m.degree.Keys
      ensures Kept(m') && m' == Bypassed(m, node) && m'.degree == m.degree
      ensures root == if old(root) == node then m.right[node] else old(root)
    {
      hide Kept, Bypassed;
      NodeHeld(m, node);
      if root == node {
        root := node.right;
      }
      m' := Bypass(node, m);
    }

    /** Puts a node into the list of children of another. */
    static method MergeWithChild(parent: Node<T>, node: Node<T>, ghost m: Nodes<T>) returns (ghost m': Nodes<T>)
      requires Kept(m) && parent in m.degree && node in m.degree && (parent in m.child ==> m.child[parent] in m.right)
      modifies m.degree.Keys
      ensures Kept(m') && m'.degree == m.degree
      ensures m' == if parent in m.child then Beside(m, m.child[parent], node) else m.(child := m.child[parent := node])
    {
      hide Kept, Beside;
      NodeHeld(m, parent);
      if parent.child == null {
        m' := SetChild(parent, node, m);
      } else {
        m' := PutBeside(parent.child, node, m);
      }
    }

    /** Makes a root the child of another root. */
    method Link(y: Node<T>, x: Node<T>, ghost m: Nodes<T>, ghost f: Forest<T>, ghost ky: nat, ghost kx: nat) returns (ghost m': Nodes<T>)
      requires Kept(m) && Shaped(m, f, {}) && Rooted(root, f)
      requires kx < |f| && ky < |f| && kx != ky && f[kx].id == x && f[ky].id == y
      modifies this`root, this`links, m.degree.Keys
      ensures Kept(m') && Shaped(m', Linked(f, ky, kx), {}) && Rooted(root, Linked(f, ky, kx))
      ensures m'.degree.Keys == m.degree.Keys && links == old(links) + 1
    {
      hide Kept, Shaped, Bypassed, Beside, Linked, Alone, Rooted, Adopted;
      LinkedIsShaped(m, f, ky, kx);
      FirstRoot(m, f, ky, kx, root);
      RingHeld(m, y);
      m' := Isolate(y, m);
      if x in m'.child {
        ChildHeld(m', x);
      }
      m' := Adopt(x, y, m');
      links := links + 1;
    }

    /** Makes a node that is in no other list a child of a root. */
    static method Adopt(x: Node<T>, y: Node<T>, ghost m: Nodes<T>) returns (ghost m': Nodes<T>)
      requires Kept(m) && x in m.degree && y in m.degree && (x in m.child ==> m.child[x] in m.right)
      modifies m.degree.Keys
      ensures Kept(m') && m' == Adopted(m, x, y) && m'.degree.Keys == m.degree.Keys
    {
      hide Kept, Beside;
      m' := MergeWithChild(x, y, m);
      m' := Promote(x, m');
      SetParent(y, x, m');
    }

    /** Takes a node out of the list of roots into a list of its own. */
    method Isolate(y: Node<T>, ghost m: Nodes<T>) returns (ghost m': Nodes<T>)
      requires Kept(m) && y in m.degree && y in m.left && y in m.right
      modifies this`root, m.degree.Keys
      ensures Kept(m') && m' == Alone(Bypassed(m, y), y) && m'.degree == m.degree && m'.child == m.child
      ensures root == if old(root) == y then m.right[y] else old(root)
    {
      hide Kept;
      m' := RemoveFromRoot(y, m);
      m' := SetLeft(y, y, m');
      m' := SetRight(y, y, m');
    }

    lemma FirstRoot(m: Nodes<T>, f: Forest<T>, ky: nat, kx: nat, root: Node?<T>)
      requires kx < |f| && ky < |f| && kx != ky && Shaped(m, f, {}) && Rooted(root, f) && f[ky].id in m.right
      requires Linked(f, ky, kx) != [] ==> Linked(f, ky, kx)[0].id == if ky == 0 then m.right[f[0].id] else f[0].id
      ensures Rooted(if root == f[ky].id then m.right[f[ky].id] else root, Linked(f, ky, kx))
      ensures |Linked(f, ky, kx)| == |f| - 1
    {
      hide Apart;
      ApartRoots(f);
      assert Ids(f)[0] == f[0].id && Ids(f)[ky] == f[ky].id;
    }

    // ----- Consolidating -----

    /** The forest under consolidation: what does not change about it, and which trees have settled. */
    ghost predicate Consolidating(m: Nodes<T>, f: Forest<T>, f0: Forest<T>, slots: map<nat, Node<T>>, todo: seq<Node<T>>) {
      && Forested(comparator, m, f) && f != [] && |f| <= |f0|
      && Bag(f) == Bag(f0) && Items(ItemOf, f) == Items(ItemOf, f0)
      && Settling(f, slots, todo)
    }

    /** Settles a tree, linking it with others of the same degree as long as there are any. */
    method SettleTree(A: array<Node?<T>>, node: Node<T>, ghost f0: Forest<T>, ghost m0: Nodes<T>, ghost f1: Forest<T>,
                      ghost slots0: map<nat, Node<T>>, ghost rest: seq<Node<T>>)
      returns (ghost m: Nodes<T>, ghost f: Forest<T>, ghost slots: map<nat, Node<T>>)
      requires TotalPreorder(comparator) && |Bag(f0)| <= A.Length
      requires Kept(m0) && Rooted(root, f1) && Consolidating(m0, f1, f0, slots0, [node] + rest) && Shows(A[..], slots0)
      modifies this`root, this`links, A, m0.degree.Keys
      ensures Kept(m) && Rooted(root, f) && Consolidating(m, f, f0, slots, rest) && Shows(A[..], slots)
      ensures m.degree.Keys == m0.degree.Keys && links + |f| == old(links) + |f1|
    {
      hide Kept, Forested, Bag, Items, Settling, TotalPreorder, Consolidating;
      var x := node;
      m, f, slots := m0, f1, slots0;
      ghost var k := Degree(m, f, f0, slots, x, rest);
      var d := x.degree;
      while A[d] != null
        invariant Kept(m) && Rooted(root, f) && Consolidating(m, f, f0, slots, [x] + rest) && Shows(A[..], slots)
        invariant m.degree.Keys == m0.degree.Keys && links + |f| == old(links) + |f1|
        invariant 0 <= k < |f| && f[k].id == x && d == |f[k].kids| < A.Length
        decreases |f|
      {
        m, f, slots, x, k := LinkSettled(A, x, d, m, f, f0, slots, rest, k);
        d := d + 1;
      }
      Settled(m, f, f0, slots, [x] + rest, k);
      A[d] := x;
      slots := slots[d := x];
      assert ([x] + rest)[1..] == rest;
    }

    /** The degree of the tree to do next is what its node says, and in range. */
    lemma Degree(m: Nodes<T>, f: Forest<T>, f0: Forest<T>, slots: map<nat, Node<T>>, x: Node<T>, rest: seq<Node<T>>) returns (k: nat)
      requires Kept(m) && Consolidating(m, f, f0, slots, [x] + rest)
      ensures k < |f| && f[k].id == x && x.degree == |f[k].kids| < |Bag(f0)| && x in m.degree
    {
      hide Bag, Items, Ring, Apart, Good;
      assert x in [x] + rest;
      k := TreeOf(f, x);
      assert f[k] in f && Stored(m, f[k]);
      DegreeBound(comparator, ItemOf, f, f[k]);
      DegreeStored(m, f, k);
    }

    lemma Settled(m: Nodes<T>, f: Forest<T>, f0: Forest<T>, slots: map<nat, Node<T>>, todo: seq<Node<T>>, k: nat)
      requires Consolidating(m, f, f0, slots, todo) && todo != [] && k < |f| && f[k].id == todo[0] && |f[k].kids| !in slots
      ensures Consolidating(m, f, f0, slots[|f[k].kids| := todo[0]], todo[1..])
    {
      hide Bag, Items, Ring, Good, Stored, Settling, Apart;
      ApartRoots(f);
      FibonacciConsolidation.Settle(f, slots, todo, k);
    }

    /** Links the tree to do next with the settled one of its degree. */
    method LinkSettled(A: array<Node?<T>>, node: Node<T>, d: nat, ghost m0: Nodes<T>, ghost f1: Forest<T>, ghost f0: Forest<T>,
                       ghost slots0: map<nat, Node<T>>, ghost rest: seq<Node<T>>, ghost k0: nat)
      returns (ghost m: Nodes<T>, ghost f: Forest<T>, ghost slots: map<nat, Node<T>>, x: Node<T>, ghost k: nat)
      requires TotalPreorder(comparator) && |Bag(f0)| <= A.Length
      requires Kept(m0) && Rooted(root, f1) && Consolidating(m0, f1, f0, slots0, [node] + rest) && Shows(A[..], slots0)
      requires k0 < |f1| && f1[k0].id == node && d == |f1[k0].kids| < A.Length && A[d] != null
      modifies this`root, this`links, A, m0.degree.Keys
      ensures Kept(m) && Rooted(root, f) && Consolidating(m, f, f0, slots, [x] + rest) && Shows(A[..], slots)
      ensures m.degree.Keys == m0.degree.Keys && |f| == |f1| - 1 && links == old(links) + 1
      ensures k < |f| && f[k].id == x && |f[k].kids| == d + 1 < A.Length
    {
      hide Kept, Shaped, AllGood, Bag, Items, Settling, Linked, TotalPreorder;
      x := node;
      var y := A[d];
      ghost var j := SlotTree(m0, f1, f0, slots0, node, rest, d, k0);
      ghost var kx, ky := k0, j;
      if comparator(x.item, y.item) > 0 {
        Totality(x.item, y.item);
        x, y := y, x;
        kx, ky := j, k0;
      }
      LinkKeeps(m0, f1, f0, slots0, node, rest, d, ky, kx);
      m := Link(y, x, m0, f1, ky, kx);
      f, slots, k := Linked(f1, ky, kx), slots0 - {d}, Shifted(kx, ky);
      A[d] := null;
    }

    lemma Totality(a: T, b: T)
      requires TotalPreorder(comparator) && comparator(a, b) > 0
      ensures comparator(b, a) <= 0
    {
    }

    /** The settled tree of the same degree. */
    lemma SlotTree(m: Nodes<T>, f: Forest<T>, f0: Forest<T>, slots: map<nat, Node<T>>, node: Node<T>, rest: seq<Node<T>>, d: nat, k: nat)
      returns (j: nat)
      requires Consolidating(m, f, f0, slots, [node] + rest) && d in slots
      requires k < |f| && f[k].id == node && |f[k].kids| == d
      ensures j < |f| && f[j].id == slots[d] && |f[j].kids| == d && j != k
    {
      hide Bag, Items, Forested;
      j := SettledTree(f, slots, [node] + rest, d);
      assert node in [node] + rest;
    }

    /** Linking keeps all but the memory of a consolidation. */
    lemma LinkKeeps(m: Nodes<T>, f: Forest<T>, f0: Forest<T>, slots: map<nat, Node<T>>, node: Node<T>, rest: seq<Node<T>>, d: nat, ky: nat, kx: nat)
      requires TotalPreorder(comparator) && Consolidating(m, f, f0, slots, [node] + rest) && d in slots
      requires kx < |f| && ky < |f| && kx != ky && |f[kx].kids| == |f[ky].kids| == d
      requires (f[kx].id == node && f[ky].id == slots[d]) || (f[ky].id == node && f[kx].id == slots[d])
      requires comparator(f[kx].id.item, f[ky].id.item) <= 0
      ensures var f', k := Linked(f, ky, kx), Shifted(kx, ky);
              && AllGood(comparator, ItemOf, f') && Bag(f') == Bag(f0) && Items(ItemOf, f') == Items(ItemOf, f0)
              && Settling(f', slots - {d}, [f[kx].id] + rest)
              && k < |f'| == |f| - 1 && f'[k].id == f[kx].id && |f'[k].kids| == d + 1 < |Bag(f0)|
    {
      hide Bag, Items, Ring, Good, Stored, Settling, Apart, TotalPreorder;
      ApartRoots(f);
      LinkedBag(ItemOf, f, ky, kx);
      LinkedMembers(f, ky, kx);
      assert f[kx] in f && f[ky] in f;
      GrownIsGood(comparator, ItemOf, f[kx], f[ky]);
      assert ([node] + rest)[1..] == rest;
      Resettle(f, slots, [node] + rest, ky, kx, d);
      var f', k := Linked(f, ky, kx), Shifted(kx, ky);
      assert f'[k] == Grown(f[kx], f[ky]);
      SecondLength(f[kx], f[ky]);
      DegreeBound(comparator, ItemOf, f', f'[k]);
    }

    lemma SecondLength(x: Tree<Node<T>>, y: Tree<Node<T>>)
      ensures Grown(x, y).id == x.id && |Grown(x, y).kids| == |x.kids| + 1
    {
    }

    /** Links trees of the same degree until there are none, then finds the least root. */
    method Consolidate(ghost m0: Nodes<T>, ghost f0: Forest<T>) returns (ghost m: Nodes<T>, ghost f: Forest<T>)
      requires TotalPreorder(comparator) && Kept(m0) && Forested(comparator, m0, f0) && Rooted(root, f0) && f0 != []
      requires |Bag(f0)| <= size && min != null && min in Bag(f0)
      modifies this`root, this`min, this`links, m0.degree.Keys
      ensures Kept(m) && Forested(comparator, m, f) && Rooted(root, f) && f != [] && links + |f| == old(links) + |f0|
      ensures m.degree.Keys == m0.degree.Keys
      ensures Bag(f) == Bag(f0) && Items(ItemOf, f) == Items(ItemOf, f0)
      ensures DegreesDiffer(f) && IsLeast(min, f)
    {
      hide Kept, Shaped, Bag, Items, Settling, TotalPreorder, AllGood, IsLeast;
      var A := new Node?<T>[size](_ => null);
      ForestIds(m0, f0);
      var nodes := ConsumeLinkedList(root, m0, Ids(f0));
      m, f := m0, f0;
      ghost var slots: map<nat, Node<T>> := map[];
      NothingSettled(f0);
      var i, l := 0, |nodes|;
      assert nodes[0..] == nodes;
      while i < l
        invariant 0 <= i <= l
        invariant Kept(m) && Rooted(root, f) && Consolidating(m, f, f0, slots, nodes[i..]) && Shows(A[..], slots)
        invariant m.degree.Keys == m0.degree.Keys && min == old(min) && links + |f| == old(links) + |f0|
      {
        assert nodes[i..] == [nodes[i]] + nodes[i + 1..];
        m, f, slots := SettleTree(A, nodes[i], f0, m, f, slots, nodes[i + 1..]);
        i := i + 1;
      }
      assert nodes[l..] == [];
      AllSettled(f, slots);
      FindLeast(A, m, f, slots);
    }

    lemma ForestIds(m: Nodes<T>, f: Forest<T>)
      requires Shaped(m, f, {}) && f != []
      ensures Ring(m, Ids(f)) && Distinct(Ids(f)) && Ids(f) != [] && Ids(f)[0] == f[0].id
    {
      hide Apart, Stored, Ring;
      ApartRoots(f);
    }

    /** Finds the least root; the first candidate may have been buried in a tree. */
    method FindLeast(A: array<Node?<T>>, ghost m: Nodes<T>, ghost f: Forest<T>, ghost slots: map<nat, Node<T>>)
      requires TotalPreorder(comparator) && AllGood(comparator, ItemOf, f) && f != []
      requires A.Length == size && Shows(A[..], slots) && Settling(f, slots, [])
      requires min != null && min in Bag(f)
      modifies this`min
      ensures IsLeast(min, f)
    {
      hide Bag, TotalPreorder, Good, Settling;
      ghost var least := RootBefore(comparator, ItemOf, f, min);
      AllSettled(f, slots);
      var i := 0;
      while i < size
        invariant 0 <= i <= size && min != null
        invariant forall d :: 0 <= d < i && A[d] != null ==> comparator(min.item, A[d].item) <= 0
        invariant min in Ids(f) || (|least.kids| >= i && comparator(least.id.item, min.item) <= 0)
      {
        if A[i] != null && comparator(A[i].item, min.item) <= 0 {
          Closer(A[..i], min.item, A[i].item);
          SlotRoot(f, slots, i);
          min := A[i];
        } else if A[i] != null {
          Totality(A[i].item, min.item);
        }
        i := i + 1;
      }
      assert min in Ids(f) by {
        assert InSlot(slots, least);
      }
      forall t | t in f
        ensures comparator(min.item, t.id.item) <= 0
      {
        assert InSlot(slots, t);
      }
    }

    lemma SlotRoot(f: Forest<T>, slots: map<nat, Node<T>>, d: nat)
      requires Settling(f, slots, []) && d in slots
      ensures slots[d] in Ids(f)
    {
      var k := SettledTree(f, slots, [], d);
      IdOf(f, f[k]);
    }

    /** Whatever goes before a lower bound is a lower bound. */
    lemma Closer(A: seq<Node?<T>>, a: T, b: T)
      requires TotalPreorder(comparator) && comparator(b, a) <= 0
      ensures comparator(b, b) <= 0
      ensures forall d :: 0 <= d < |A| && A[d] != null && comparator(a, A[d].item) <= 0 ==> comparator(b, A[d].item) <= 0
    {
      Reflexive(comparator, b);
      forall d | 0 <= d < |A| && A[d] != null && comparator(a, A[d].item) <= 0
        ensures comparator(b, A[d].item) <= 0
      {
        Transitive(comparator, b, a, A[d].item);
      }
    }

    // ----- Popping -----

    /** Removes the first item and returns it; nothing from an empty heap. */
    method Pop() returns (item: Option<T>)
      requires Valid()
      modifies this, memory.degree.Keys
      ensures Valid() && memory.degree.Keys == old(memory).degree.Keys
      ensures item == None <==> old(Contents()) == multiset{}
      ensures item == None ==> Contents() == old(Contents()) && links == old(links) && pops == old(pops) && released == old(released)
      ensures item.Some? ==> item.value in old(Contents()) && Contents() == old(Contents()) - multiset{item.value}
      ensures item.Some? ==> forall x :: x in old(Contents()) ==> comparator(item.value, x) <= 0
      ensures item.Some? ==> DegreesDiffer(forest) && size == old(size) - 1
      ensures item.Some? ==> pops == old(pops) + 1 && old(min) != null && released == old(released) + old(min.degree)
      ensures item.Some? ==> links + |forest| + 1 == old(links) + |old(forest)| + old(min.degree)
      ensures pushes == old(pushes) && highest == old(highest)
    {
      hide Kept, Forested, Bag, Items, TotalPreorder, IsLeast, DegreesDiffer, ReleaseBounded, Rooted;
      EmptyForest(forest);
      if size == 0 {
        return None;
      }
      ghost var k, degree := Top();
      var z := min;
      ghost var m, f := Extract(z, memory, forest, k);
      size := size - 1;
      OneMoreRelease(released, pops, degree, size + 1, highest);
      Become(f, m, pushes, pops + 1, released + degree);
      item := Some(z.item);
    }

    /** Takes the top out of the lists and consolidates what is left. */
    method Extract(z: Node<T>, ghost m0: Nodes<T>, ghost f0: Forest<T>, ghost k0: nat)
      returns (ghost m: Nodes<T>, ghost f: Forest<T>)
      requires TotalPreorder(comparator) && Kept(m0) && Forested(comparator, m0, f0) && Rooted(root, f0)
      requires k0 < |f0| && f0[k0].id == z && size == |Bag(f0)|
      modifies this`root, this`min, this`links, m0.degree.Keys
      ensures Kept(m) && Forested(comparator, m, f) && Rooted(root, f) && m.degree.Keys == m0.degree.Keys
      ensures IsLeast(min, f) && DegreesDiffer(f)
      ensures |Bag(f)| == size - 1 && Items(ItemOf, f) == Items(ItemOf, f0) - multiset{z.item}
      ensures links + |f| + 1 == old(links) + |f0| + |f0[k0].kids|
    {
      hide *;
      m, f := Unlist(z, m0, f0, k0);
      NoForest(m);
      if z == z.right {
        min := null;
        root := null;
      } else {
        min := z.right;
        m, f := Consolidate(m, f);
      }
    }

    /** Takes the top out of the list of roots and puts its children into it. */
    method Unlist(z: Node<T>, ghost m0: Nodes<T>, ghost f0: Forest<T>, ghost k0: nat)
      returns (ghost m: Nodes<T>, ghost f: Forest<T>)
      requires Kept(m0) && Forested(comparator, m0, f0) && Rooted(root, f0) && k0 < |f0| && f0[k0].id == z
      modifies this`root, m0.degree.Keys
      ensures Kept(m) && m.degree.Keys == m0.degree.Keys && |f| + 1 == |f0| + |f0[k0].kids|
      ensures |Bag(f)| == |Bag(f0)| - 1 && Items(ItemOf, f) == Items(ItemOf, f0) - multiset{z.item}
      ensures z == z.right <==> f == []
      ensures f != [] ==> Forested(comparator, m, f) && Rooted(root, f) && z.right in Bag(f)
    {
      hide Kept, Shaped, Bag, Items, AllGood, Rooted;
      ghost var k;
      m, f, k := FreeChildren(z, m0, f0, k0);
      m := RemoveTop(z, m, f, k);
      TopGone(f, k);
      f := Without(f, k);
    }

    /** The least root in the forest, its degree and its item. */
    lemma Top() returns (k: nat, degree: nat)
      requires Valid() && size > 0
      ensures k < |forest| && min != null && forest[k].id == min && degree == |forest[k].kids| == min.degree
      ensures Pow2(degree) <= size
      ensures min.item in Contents() && forall x :: x in Contents() ==> comparator(min.item, x) <= 0
    {
      hide Kept, Shaped, Bag, Items, TotalPreorder, Good;
      EmptyForest(forest);
      LeastOfAll(forest, min);
      k := TreeOf(forest, min);
      degree := |forest[k].kids|;
      DegreeBound(comparator, ItemOf, forest, forest[k]);
      DegreeStored(memory, forest, k);
    }

    lemma DegreeStored(m: Nodes<T>, f: Forest<T>, k: nat)
      requires Kept(m) && Shaped(m, f, {}) && k < |f|
      ensures f[k].id.degree == |f[k].kids|
    {
      hide Bag, Items, Ring, Apart, Good;
      assert f[k] in f && Stored(m, f[k]);
      hide Kept;
      NodeHeld(m, f[k].id);
    }

    /** Puts the children of the top into the list of roots. */
    method FreeChildren(z: Node<T>, ghost m0: Nodes<T>, ghost f0: Forest<T>, ghost k0: nat)
      returns (ghost m: Nodes<T>, ghost f: Forest<T>, ghost k: nat)
      requires Kept(m0) && Forested(comparator, m0, f0) && Rooted(root, f0) && k0 < |f0| && f0[k0].id == z
      modifies this`root, m0.degree.Keys
      ensures Kept(m) && Shaped(m, f, {z}) && AllGood(comparator, ItemOf, f) && Rooted(root, f)
      ensures k < |f| && f[k] == Tree(z, []) && |f| == |f0| + |f0[k0].kids|
      ensures Bag(f) == Bag(f0) && Items(ItemOf, f) == Items(ItemOf, f0) && m.degree.Keys == m0.degree.Keys
    {
      hide Kept, Shaped, Bag, Items, AllGood, Stored, Freeing;
      ghost var kids := f0[k0].kids;
      m, f, k := m0, f0[k0 := Tree(z, [])], k0;
      Loosened(comparator, ItemOf, m, f0, k0);
      NodeHeld(m, z);
      if z.child != null {
        var nodes := ConsumeLinkedList(z.child, m, Ids(kids));
        var i, l := 0, |nodes|;
        assert kids[0..] == kids;
        while i < l
          invariant 0 <= i <= l && |kids| == l && nodes == Ids(kids)
          invariant Kept(m) && Freeing(comparator, ItemOf, m, f, kids[i..], f0, z) && Rooted(root, f) && m.degree.Keys == m0.degree.Keys
          invariant 0 <= k < |f| && f[k] == Tree(z, []) && |f| == |f0| + i
        {
          assert kids[i..] == [kids[i]] + kids[i + 1..];
          m, f, k := FreeOne(nodes[i], z, m, f, kids[i], kids[i + 1..], f0, k);
          i := i + 1;
        }
        assert kids[l..] == [];
      }
      AllFreed(comparator, ItemOf, m, f, f0, z);
    }

    method FreeOne(node: Node<T>, z: Node<T>, ghost m0: Nodes<T>, ghost f0: Forest<T>, ghost t: Tree<Node<T>>, ghost rest: Forest<T>,
                   ghost whole: Forest<T>, ghost k0: nat)
      returns (ghost m: Nodes<T>, ghost f: Forest<T>, ghost k: nat)
      requires Kept(m0) && Freeing(comparator, ItemOf, m0, f0, [t] + rest, whole, z) && Rooted(root, f0) && node == t.id
      requires k0 < |f0| && f0[k0] == Tree(z, [])
      modifies this`root, m0.degree.Keys
      ensures Kept(m) && Freeing(comparator, ItemOf, m, f, rest, whole, z) && Rooted(root, f) && m.degree.Keys == m0.degree.Keys
      ensures k < |f| && f[k] == Tree(z, []) && |f| == |f0| + 1
    {
      hide Kept, Shaped, Bag, Items, AllGood, Stored, Beside;
      FreeNext(comparator, ItemOf, m0, f0, t, rest, whole, z);
      m := MergeWithRoot(node, m0, f0, t, {z});
      SetParent(node, null, m);
      FreedNext(comparator, ItemOf, m0, m, f0, t, rest, whole, z);
      f, k := Second(f0, t), if k0 == 0 then 0 else k0 + 1;
    }

    lemma TopGone(f: Forest<T>, k: nat)
      requires k < |f| && f[k].kids == [] && AllGood(comparator, ItemOf, f)
      ensures Bag(f) == Bag(Without(f, k)) + multiset{f[k].id} && |Bag(f)| == |Bag(Without(f, k))| + 1
      ensures Items(ItemOf, f) == Items(ItemOf, Without(f, k)) + multiset{f[k].id.item}
      ensures AllGood(comparator, ItemOf, Without(f, k)) && |Without(f, k)| == |f| - 1
    {
      hide Bag, Items, Good;
      BagAt(ItemOf, f, k);
      LeafBag(ItemOf, f[k]);
      WithoutMembers(f, k);
    }

    lemma NoForest(m: Nodes<T>)
      ensures Forested(comparator, m, []) && Rooted<T>(null, []) && IsLeast(null, []) && DegreesDiffer<T>([])
    {
    }

    /** Takes the top, whose children are gone, out of the list of roots. */
    method RemoveTop(z: Node<T>, ghost m: Nodes<T>, ghost f: Forest<T>, ghost k: nat) returns (ghost m': Nodes<T>)
      requires Kept(m) && Shaped(m, f, {z}) && Rooted(root, f) && k < |f| && f[k] == Tree(z, [])
      modifies this`root, m.degree.Keys
      ensures Kept(m') && m'.degree.Keys == m.degree.Keys
      ensures z.right == z <==> |f| == 1
      ensures |f| > 1 ==> Shaped(m', Without(f, k), {}) && Rooted(root, Without(f, k)) && z.right in Bag(Without(f, k))
    {
      hide Kept, Shaped, Bag, Bypassed;
      TopInList(m, f, k);
      RingHeld(m, z);
      m' := RemoveFromRoot(z, m);
      NodeHeld(m', z);
    }

    lemma TopInList(m: Nodes<T>, f: Forest<T>, k: nat)
      requires k < |f| && Shaped(m, f, {f[k].id})
      ensures f[k].id in m.left && f[k].id in m.right
      ensures var z, m' := f[k].id, Bypassed(m, f[k].id);
              && z in m'.right
              && (m'.right[z] == z <==> |f| == 1)
              && (f[0].id == z <==> k == 0)
              && (|f| > 1 ==> Shaped(m', Without(f, k), {}) && m'.right[z] in Bag(Without(f, k)) && Without(f, k) != [])
              && (|f| > 1 ==> Without(f, k)[0].id == if k == 0 then m.right[z] else f[0].id)
    {
      hide Bag, Apart, Stored;
      ApartRoots(f);
      assert RingAt(m, Ids(f), k);
      assert Ids(f)[0] == f[0].id && Ids(f)[k] == f[k].id;
      if |f| > 1 {
        SpliceOut(m, f, k, {f[k].id});
        ApartAt(f, k);
        WithoutMembers(f, k);
        var n := Next(k, |f|);
        assert Ids(f)[n] != Ids(f)[k];
        assert f[n] in f && f[n] != f[k];
        BagHasTree(Without(f, k), f[n]);
        forall t | t in Without(f, k)
          ensures t.id != f[k].id
        {
          BagHasTree(Without(f, k), t);
        }
      }
    }
  }
}
