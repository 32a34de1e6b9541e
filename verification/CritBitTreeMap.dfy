/** The crit-bit tree map of linked nodes. */
module CritBitTreeMaps {
  import opened Options
  import opened CritBits
  import opened CritBitTrees
  import opened CritBitMemory

  // ----- Packed critical bits -----

  /** The mask that addresses a bit: all ones but that bit. */
  function Mask(r: nat): bv8 {
    !BitMask(r)
  }

  /** Byte index and mask in one number. */
  function Pack(index: nat, mask: bv8): nat {
    index * 256 + mask as int
  }

  function Packed(p: Pos): nat {
    Pack(p.index, Mask(p.bit))
  }

  /** 0 to go left, 1 to go right. */
  function GetDirection(key: Key, critbit: nat): int {
    var byteIndex := critbit / 256;
    if byteIndex > |key| - 1 then 0
    else
      var byte, mask := key[byteIndex], (critbit % 256) as bv8;
      (1 + (byte | mask) as int) / 256
  }

  function CriticalBit8Mask(a: bv8, b: bv8): bv8 {
    !Msb8(a ^ b)
  }

  /** The packed position at which two keys differ first, or -1 when they are identical. */
  method FindCriticalBit(a: Key, b: Key) returns (critbit: int, ghost p: Pos)
    ensures critbit == -1 <==> a == b
    ensures critbit != -1 ==> critbit == Packed(p) && Splits(a, b, p)
  {
    // Swapping so the first is the shortest
    if |a| > |b| {
      critbit, p := ShortestFirst(b, a);
      if critbit != -1 {
        SplitsEitherWay(b, a, p);
      }
    } else {
      critbit, p := ShortestFirst(a, b);
    }
  }

  method ShortestFirst(a: Key, b: Key) returns (critbit: int, ghost p: Pos)
    requires |a| <= |b|
    ensures critbit == -1 <==> a == b
    ensures critbit != -1 ==> critbit == Packed(p) && Splits(a, b, p)
  {
    hide Splits, Msb8, Pack, BitMask;
    var i, l := 0, |a|;
    while i < l
      invariant 0 <= i <= l && a[..i] == b[..i]
    {
      if a[i] != b[i] {
        p := SplitAtByte(a, b, i);
        var mask := CriticalBit8Mask(a[i], b[i]);
        assert mask == Mask(p.bit);
        return Pack(i, mask), p;
      }
      i := i + 1;
    }
    assert a == a[..l];
    // Strings are identical
    if |a| == |b| {
      assert b == b[..l];
      return -1, Pos(0, 0);
    }
    p := SplitAtEnd(a, b);
    var mask := !Msb8(b[i]);
    assert mask == Mask(p.bit);
    return Pack(i, mask), p;
  }

  lemma MaskValues()
    ensures Mask(0) as int == 127 && Mask(1) as int == 191 && Mask(2) as int == 223 && Mask(3) as int == 239
    ensures Mask(4) as int == 247 && Mask(5) as int == 251 && Mask(6) as int == 253 && Mask(7) as int == 254
    ensures Mask(8) as int == 255
  {
  }

  lemma MasksAscend(q: nat, r: nat)
    requires q <= EXISTS && r <= EXISTS
    ensures (Mask(q) as int < Mask(r) as int) == (q < r)
  {
    MaskValues();
  }

  /** Packed positions are ordered like the positions. */
  lemma PackedOrder(p: Pos, q: Pos)
    requires p.bit <= EXISTS && q.bit <= EXISTS
    ensures Packed(p) < Packed(q) <==> Before(p, q)
  {
    MasksAscend(p.bit, q.bit);
  }

  lemma IntoParts(index: nat, m: nat)
    requires m < 256
    ensures (index * 256 + m) / 256 == index && (index * 256 + m) % 256 == m
  {
  }

  lemma BackToByte(m: bv8)
    ensures (m as int) as bv8 == m
  {
  }

  lemma Unpacked(p: Pos)
    ensures Packed(p) / 256 == p.index && (Packed(p) % 256) as bv8 == Mask(p.bit)
  {
    hide Mask;
    IntoParts(p.index, Mask(p.bit) as int);
    BackToByte(Mask(p.bit));
  }

  lemma FullByte(x: bv8)
    ensures (1 + x as int) / 256 == if x == 0xff then 1 else 0
  {
  }

  lemma MaskedByte(x: bv8, r: nat)
    ensures x | Mask(r) == 0xff <==> r >= EXISTS || HasBit(x, r)
  {
    var m := BitMask(r);
    assert x | !m == 0xff <==> x & m == m;
    assert r == 0 || r == 1 || r == 2 || r == 3 || r == 4 || r == 5 || r == 6 || r == 7 || m == 0;
  }

  /** The direction is the key's bit at the position. */
  lemma DirectionIsBit(key: Key, p: Pos)
    ensures GetDirection(key, Packed(p)) == if Bit(key, p) then 1 else 0
  {
    hide Packed, Mask, HasBit, GetDirection;
    Unpacked(p);
    DirectionOf(key, Packed(p), p.index, Mask(p.bit));
    if p.index < |key| {
      FullByte(key[p.index] | Mask(p.bit));
      MaskedByte(key[p.index], p.bit);
    }
  }

  lemma DirectionOf(key: Key, critbit: nat, index: nat, mask: bv8)
    requires critbit / 256 == index && (critbit % 256) as bv8 == mask
    ensures GetDirection(key, critbit) == if index < |key| then (1 + (key[index] | mask) as int) / 256 else 0
  {
  }

  // ----- The map -----

  class InternalNode<V> {
    const critbit: nat
    ghost const at: Pos
    var left: Ptr<InternalNode<V>, ExternalNode<V>>
    var right: Ptr<InternalNode<V>, ExternalNode<V>>

    constructor (critbit: nat, ghost at: Pos)
      requires critbit == Packed(at)
      ensures this.critbit == critbit && this.at == at && left == Null && right == Null
    {
      this.critbit := critbit;
      this.at := at;
      left := Null;
      right := Null;
    }
  }

  class ExternalNode<V> {
    const key: Key
    var value: V

    constructor (key: Key, value: V)
      ensures this.key == key && this.value == value
    {
      this.key := key;
      this.value := value;
    }
  }

  type Nodes<!V> = Memory<InternalNode<V>, ExternalNode<V>, V>

  twostate predicate NodesOnlyAdded<V>(m: Nodes<V>, new m': Nodes<V>) {
    fresh(m'.links.Keys - m.links.Keys) && fresh(m'.entries.Keys - m.entries.Keys)
  }

  /** The memory says what the node holds, and its critical bit is its packed position. */
  ghost predicate Held<V>(m: Nodes<V>, n: InternalNode<V>)
    requires n in m.links && n in m.crits
    reads n
  {
    m.links[n] == Pair(n.left, n.right) && m.crits[n] == n.at && n.critbit == Packed(n.at) && n.at.bit <= EXISTS
  }

  type Pointer<V> = Ptr<InternalNode<V>, ExternalNode<V>>

  /** The memory says what every one of its nodes holds. */
  ghost predicate Synced<V>(m: Nodes<V>)
    reads m.links.Keys, m.entries.Keys
  {
    && m.links.Keys == m.crits.Keys
    && (forall n :: n in m.links ==> Held(m, n))
    && (forall n :: n in m.entries ==> m.entries[n] == Entry(n.key, n.value))
  }

  class CritBitTreeMap<V> {
    var root: Pointer<V>
    var size: nat
    ghost var tree: Option<Tree<InternalNode<V>, ExternalNode<V>>>
    ghost var contents: map<Key, V>
    /** What all nodes ever created hold. */
    ghost var memory: Nodes<V>

    ghost predicate Valid()
      reads this, memory.links.Keys, memory.entries.Keys
    {
      && size == |contents|
      && Synced(memory)
      && match tree
         case None => root == Null && contents == map[]
         case Some(t) => size > 0 && Holds(t, root, memory, contents)
    }

    /** The tree as a value: what decides every later behaviour of the map. */
    ghost function Shape(): Option<CritTree<V>>
      reads this, memory.links.Keys, memory.entries.Keys
      requires Valid()
    {
      match tree
      case None => None
      case Some(t) => Some(View(t, root, memory))
    }

    constructor ()
      ensures Valid() && contents == map[] && fresh(memory.links.Keys) && fresh(memory.entries.Keys)
    {
      root := Null;
      size := 0;
      tree := None;
      contents := map[];
      memory := Memory(map[], map[], map[]);
    }

    method Clear()
      modifies this
      ensures Valid() && contents == map[] && memory == old(memory)
      requires Valid()
    {
      root := Null;
      size := 0;
      tree := None;
      contents := map[];
    }

    /** The leaf where the key's bits lead; nothing in an empty tree. */
    method Descend(key: Key) returns (node: Pointer<V>)
      requires Valid()
      ensures tree == None ==> node == Null
      ensures tree.Some? ==> node.External? && node.e in memory.entries
      ensures tree.Some? ==> (key in contents <==> node.e.key == key)
      ensures key in contents ==> node.External? && contents[key] == node.e.value
    {
      hide Walked, Bit, GetDirection, Packed, Apart, Linked, Good, Contents;
      node := root;
      if tree.Some? {
        WalkStarts(tree.value, root, memory, key);
        WalkNode(tree.value, root, memory, key, [], [], root);
      }
      if node == Null {
        return;
      }
      ghost var t, m := tree.value, memory;
      ghost var path: seq<bool>, ancestors: seq<InternalNode<V>> := [], [];
      WalkStarts(t, root, m, key);
      WalkNode(t, root, m, key, path, ancestors, node);
      while node.Internal?
        invariant m == memory && OnPath(t, path)
        invariant Walked(t, root, m, key, path, ancestors, node) && !node.Null?
        decreases SubAt(t, path)
      {
        WalkNode(t, root, m, key, path, ancestors, node);
        var n := node.i;
        var dir := GetDirection(key, n.critbit);
        DirectionIsBit(key, n.at);
        assert Held(memory, n);
        WalkGoesOn(t, root, m, key, path, ancestors, node, Bit(key, n.at));
        path, ancestors := path + [Bit(key, n.at)], ancestors + [n];
        node := if dir != 0 then n.right else n.left;
      }
      WalkEnds(t, root, m, contents, key, path, ancestors, node);
    }

    /** The value stored under the key, if any. */
    method Get(key: Key) returns (value: Option<V>)
      requires Valid()
      ensures value == if key in contents then Some(contents[key]) else None
    {
      var node := Descend(key);
      if node.Null? || node.e.key != key {
        return None;
      }
      return Some(node.e.value);
    }

    method Has(key: Key) returns (found: bool)
      requires Valid()
      ensures found <==> key in contents
    {
      var node := Descend(key);
      found := !node.Null? && node.e.key == key;
    }

    /** Walks down to the leaf where the key's bits lead. */
    method Walk(key: Key) returns (node: Pointer<V>, ancestors: seq<InternalNode<V>>, path: seq<bool>)
      requires Valid() && tree.Some?
      ensures Walked(tree.value, root, memory, key, path, ancestors, node) && node.External?
    {
      hide Walked, Bit, GetDirection, Packed, Apart, Linked, Good, Contents;
      ghost var t, m := tree.value, memory;
      node, ancestors, path := root, [], [];
      WalkStarts(t, root, m, key);
      WalkNode(t, root, m, key, path, ancestors, node);
      while node.Internal?
        invariant m == memory && OnPath(t, path)
        invariant Walked(t, root, m, key, path, ancestors, node) && !node.Null?
        decreases SubAt(t, path)
      {
        WalkNode(t, root, m, key, path, ancestors, node);
        var n := node.i;
        var dir := GetDirection(key, n.critbit);
        DirectionIsBit(key, n.at);
        assert Held(memory, n);
        WalkGoesOn(t, root, m, key, path, ancestors, node, Bit(key, n.at));
        ancestors := ancestors + [n];
        if dir == 0 {
          path := path + [false];
          node := n.left;
        } else {
          path := path + [true];
          node := n.right;
        }
        // The source creates a missing child here; there never is one.
        if node.Null? {
          assert false;
        }
      }
    }

    /** Stores the value under the key. */
    method Set(key: Key, value: V)
      requires Valid()
      modifies this, memory.links.Keys, memory.entries.Keys
      ensures Valid() && contents == old(contents)[key := value]
      ensures NodesOnlyAdded(old(memory), memory)
    {
      hide Walked, Bit, Packed, Apart, Linked, Good, Contents, Holds;
      if size == 0 {
        SetFirst(key, value);
        return;
      }
      var node, ancestors, path := Walk(key);
      WalkEnds(tree.value, root, memory, contents, key, path, ancestors, node);
      var critbit;
      ghost var p;
      critbit, p := FindCriticalBit(key, node.e.key);
      // Key is identical, we just replace the value
      if critbit == -1 {
        Overwrite(node.e, value, path);
        return;
      }
      SetBeside(key, value, node, ancestors, path, critbit, p);
    }

    /** Bubbles up from the leaf reached and inserts the new key. */
    method SetBeside(key: Key, value: V, node: Pointer<V>, ancestors: seq<InternalNode<V>>, path: seq<bool>, critbit: nat, ghost p: Pos)
      requires Valid() && tree.Some?
      requires Walked(tree.value, root, memory, key, path, ancestors, node) && node.External?
      requires node.e in memory.entries && critbit == Packed(p) && p.bit <= EXISTS && Splits(key, node.e.key, p)
      requires |ancestors| == |path| && forall j :: 0 <= j < |ancestors| ==> ancestors[j] in Inners(tree.value)
      modifies this, memory.links.Keys
      ensures Valid() && contents == old(contents)[key := value]
      ensures NodesOnlyAdded(old(memory), memory)
    {
      hide Walked, Bit, Packed, Splits, Before, Holds, Synced;
      ghost var m := memory;
      HeldNodes(tree.value, root, m, contents);
      EntryHeld(node.e);
      var best := Bubble(ancestors, critbit, p, m);
      var internal, added := Insert(key, value, node, ancestors, path, critbit, best, p);
      assert memory.links.Keys - m.links.Keys <= {internal} && memory.entries.Keys - m.entries.Keys <= {added};
    }

    /** Puts a new leaf and a new inner node below ancestor `best`. */
    method Insert(key: Key, value: V, node: Pointer<V>, ancestors: seq<InternalNode<V>>, path: seq<bool>,
                  critbit: nat, best: int, ghost p: Pos)
      returns (internal: InternalNode<V>, added: ExternalNode<V>)
      requires Valid() && tree.Some?
      requires Walked(tree.value, root, memory, key, path, ancestors, node) && node.External?
      requires node.e in memory.entries && critbit == Packed(p) && p.bit <= EXISTS && Splits(key, memory.entries[node.e].key, p)
      requires -1 <= best < |ancestors| == |path| && forall j :: 0 <= j < |ancestors| ==> ancestors[j] in memory.links
      requires best >= 0 ==> ancestors[best] in memory.crits && !Before(p, memory.crits[ancestors[best]])
      requires best + 1 < |ancestors| ==> ancestors[best + 1] in memory.crits && Before(p, memory.crits[ancestors[best + 1]])
      modifies this, memory.links.Keys
      ensures Valid() && contents == old(contents)[key := value]
      ensures fresh(internal) && fresh(added)
      ensures memory.links.Keys == old(memory).links.Keys + {internal} && memory.entries.Keys == old(memory).entries.Keys + {added}
    {
      hide Walked, Splits, Before, Packed, Bit, Holds, Grown, Held, Above, Displaced, Synced;
      ghost var t, m, was := tree.value, memory, root;
      size := size + 1;
      ghost var m';
      internal, added, m' := Attach(key, value, node, ancestors, path, critbit, best, p, m);
      ghost var t' := InsertedAt(t, was, m, m', contents, key, value, m.entries[node.e].key, path, ancestors, node, p, best, internal, added, root);
      KeyAdded(contents, key, value);
      Become(t', contents[key := value], m');
    }

    /** Records the new ghost state of a map that has changed in memory. */
    ghost method Become(t: Tree<InternalNode<V>, ExternalNode<V>>, contents': map<Key, V>, m: Nodes<V>)
      requires Synced(m) && Holds(t, root, m, contents') && size == |contents'| > 0
      modifies this`tree, this`contents, this`memory
      ensures Valid() && tree == Some(t) && contents == contents' && memory == m
    {
      hide Holds, Synced;
      tree, contents, memory := Some(t), contents', m;
    }

    /** Creates the nodes of the new key and wires them in. */
    method Attach(key: Key, value: V, node: Pointer<V>, ancestors: seq<InternalNode<V>>, path: seq<bool>,
                  critbit: nat, best: int, ghost p: Pos, ghost m: Nodes<V>)
      returns (internal: InternalNode<V>, added: ExternalNode<V>, ghost m': Nodes<V>)
      requires Synced(m) && critbit == Packed(p) && p.bit <= EXISTS
      requires -1 <= best < |ancestors| == |path| && forall j :: 0 <= j < |ancestors| ==> ancestors[j] in m.links
      modifies this`root, m.links.Keys
      ensures Synced(m') && fresh(internal) && fresh(added)
      ensures best >= 0 ==> ancestors[best] in m.links
      ensures m' == Grown(m, internal, added, p, Entry(key, value), Displaced(node, ancestors, best), Above(ancestors, best), best >= 0 && path[best],
                          Bit(key, p))
      ensures m'.links.Keys == m.links.Keys + {internal} && m'.entries.Keys == m.entries.Keys + {added}
      ensures root == if best < 0 then Internal(internal) else old(root)
    {
      hide Synced, Held, Packed, Bit, Displaced, Grown, LinkedIn;
      var left := IsLeft(key, critbit, p);
      internal, added, m' := NewNodes(key, value, critbit, p, m);
      ghost var made := m';
      m' := Wire(internal, added, left, node, ancestors, path, best, m');
      GrownInSteps(m, made, internal, added, p, Entry(key, value), Displaced(node, ancestors, best), Above(ancestors, best), best >= 0 && path[best],
                   Bit(key, p), Pair(Null, Null));
    }

    method IsLeft(key: Key, critbit: nat, ghost p: Pos) returns (left: bool)
      requires critbit == Packed(p)
      ensures left == !Bit(key, p)
    {
      DirectionIsBit(key, p);
      left := GetDirection(key, critbit) == 0;
    }

    /** Creates the nodes of a new key; they are not wired yet. */
    static method NewNodes(key: Key, value: V, critbit: nat, ghost p: Pos, ghost m: Nodes<V>)
      returns (internal: InternalNode<V>, added: ExternalNode<V>, ghost m': Nodes<V>)
      requires Synced(m) && critbit == Packed(p) && p.bit <= EXISTS
      ensures Synced(m') && fresh(internal) && fresh(added) && internal !in m.links
      ensures m' == Memory(m.links[internal := Pair(Null, Null)], m.crits[internal := p], m.entries[added := Entry(key, value)])
    {
      internal := new InternalNode<V>(critbit, p);
      added := new ExternalNode<V>(key, value);
      m' := Memory(m.links[internal := Pair(Null, Null)], m.crits[internal := p], m.entries[added := Entry(key, value)]);
    }

    /** Turns one pointer of a node. */
    static method Link(n: InternalNode<V>, right: bool, q: Pointer<V>, ghost m: Nodes<V>) returns (ghost m': Nodes<V>)
      requires Synced(m) && n in m.links
      modifies n
      ensures Synced(m') && m' == Relinked(m, n, right, q) && m'.links.Keys == m.links.Keys
    {
      assert Held(m, n);
      if right {
        n.right := q;
      } else {
        n.left := q;
      }
      m' := Relinked(m, n, right, q);
    }

    /** The children of a new inner node, before bubbling up. */
    static method LinkNew(internal: InternalNode<V>, added: ExternalNode<V>, left: bool, node: Pointer<V>, ghost m: Nodes<V>)
      returns (ghost m': Nodes<V>)
      requires Synced(m) && internal in m.links
      modifies internal
      ensures Synced(m') && m'.links.Keys == m.links.Keys
      ensures m' == m.(links := m.links[internal := if left then Pair(External(added), node) else Pair(node, External(added))])
    {
      hide Synced, Held, Relinked;
      ghost var pair := if left then Pair(External(added), node) else Pair(node, External(added));
      LinkBoth(m, internal, pair.left, pair.right);
      if left {
        m' := Link(internal, false, External(added), m);
        m' := Link(internal, true, node, m');
      } else {
        m' := Link(internal, false, node, m);
        m' := Link(internal, true, External(added), m');
      }
    }

    /** Wires a new inner node in below ancestor `best`. */
    method Wire(internal: InternalNode<V>, added: ExternalNode<V>, left: bool, node: Pointer<V>,
                ancestors: seq<InternalNode<V>>, path: seq<bool>, best: int, ghost m: Nodes<V>)
      returns (ghost m': Nodes<V>)
      requires Synced(m) && -1 <= best < |ancestors| == |path| && internal !in ancestors
      requires internal in m.links && forall j :: 0 <= j < |ancestors| ==> ancestors[j] in m.links
      modifies this`root, m.links.Keys
      ensures Synced(m')
      ensures best >= 0 ==> ancestors[best] in m.links
      ensures m' == m.(links := LinkedIn(m.links, internal,
                if left then Pair(External(added), Displaced(node, ancestors, best)) else Pair(Displaced(node, ancestors, best), External(added)),
                Above(ancestors, best), best >= 0 && path[best]))
      ensures root == if best < 0 then Internal(internal) else old(root)
    {
      hide Synced, Held, Relinked, LinkedIn;
      ghost var pair := if left then Pair(External(added), node) else Pair(node, External(added));
      m' := LinkNew(internal, added, left, node, m);
      var l := |ancestors|;
      // Do we need to attach to the root?
      if best < 0 {
        NothingAbove(m.links, internal);
        root := Internal(internal);
        // Need to rewire parent as child?
        if l > 0 {
          LinkAgain(m, internal, pair, left, Internal(ancestors[0]));
          m' := Link(internal, left, Internal(ancestors[0]), m');
        }
      }
      // Simple case without rotation
      else if best == l - 1 {
        LinkAbove(m, internal, pair, ancestors[best], path[best]);
        m' := Link(ancestors[best], path[best], Internal(internal), m');
      }
      // Full rotation
      else {
        LinkAbove(m, internal, pair, ancestors[best], path[best]);
        m' := Link(ancestors[best], path[best], Internal(internal), m');
        m' := Link(internal, left, Internal(ancestors[best + 1]), m');
      }
    }

    method SetFirst(key: Key, value: V)
      requires Valid() && size == 0
      modifies this
      ensures Valid() && contents == map[key := value]
      ensures NodesOnlyAdded(old(memory), memory)
    {
      var node := new ExternalNode(key, value);
      root := External(node);
      size := size + 1;
      tree := Some(Leaf(node));
      contents := map[key := value];
      memory := memory.(entries := memory.entries[node := Entry(key, value)]);
    }

    method Overwrite(node: ExternalNode<V>, value: V, ghost path: seq<bool>)
      requires Valid() && tree.Some? && OnPath(tree.value, path) && SubAt(tree.value, path) == Leaf(node)
      requires node in memory.entries
      modifies this`tree, this`contents, this`memory, node
      ensures Valid() && contents == old(contents)[node.key := value] && node.key in old(contents)
      ensures NodesOnlyAdded(old(memory), memory)
    {
      hide Linked, Apart, Good, Contents;
      ghost var t, m := tree.value, memory;
      LinkedNodes(t, root, m);
      assert Holds(t, root, m, contents);
      ghost var m' := m.(entries := m.entries[node := Entry(node.key, value)]);
      Overwritten(t, root, m, m', contents, path, node, node.key, value);
      hide Holds;
      node.value := value;
      Become(t, contents[node.key := value], m');
    }

    /** The last ancestor whose critical bit is not past the given one, or -1. */
    static method Bubble(ancestors: seq<InternalNode<V>>, critbit: nat, ghost p: Pos, ghost m: Nodes<V>) returns (best: int)
      requires Synced(m) && critbit == Packed(p) && p.bit <= EXISTS
      requires forall j :: 0 <= j < |ancestors| ==> ancestors[j] in m.links
      ensures -1 <= best < |ancestors| && forall j :: 0 <= j < |ancestors| ==> ancestors[j] in m.crits
      ensures best >= 0 ==> !Before(p, m.crits[ancestors[best]])
      ensures best + 1 < |ancestors| ==> Before(p, m.crits[ancestors[best + 1]])
    {
      hide Packed;
      best := -1;
      var i := |ancestors| - 1;
      while i >= 0
        invariant -1 <= i < |ancestors|
        invariant i + 1 < |ancestors| ==> Before(p, m.crits[ancestors[i + 1]])
      {
        assert Held(m, ancestors[i]);
        PackedOrder(p, ancestors[i].at);
        if ancestors[i].critbit <= critbit {
          return i;
        }
        i := i - 1;
      }
    }

    /** Removes the key and returns whether it was there. */
    method Delete(key: Key) returns (deleted: bool)
      requires Valid()
      modifies this, memory.links.Keys
      ensures Valid() && deleted == (key in old(contents)) && contents == old(contents) - {key}
      ensures memory.links.Keys == old(memory).links.Keys && memory.entries == old(memory).entries
    {
      hide Walked, Linked, Apart, Good, Contents, Holds, Synced, Remembers;
      if root.Null? {
        RootIsNull();
        return false;
      }
      var node, parent, grandParent, wentLeftForParent, wentLeftForGrandparent;
      ghost var path, ancestors;
      node, parent, grandParent, wentLeftForParent, wentLeftForGrandparent, path, ancestors := WalkToDelete(key);
      WalkEnds(tree.value, root, memory, contents, key, path, ancestors, node);
      EntryHeld(node.e);
      if key != node.e.key {
        return false;
      }
      size := size - 1;
      Unlink(key, node, parent, grandParent, wentLeftForParent, wentLeftForGrandparent, path, ancestors);
      deleted := true;
    }

    lemma RootIsNull()
      requires Valid()
      ensures root.Null? <==> tree == None
    {
    }

    lemma EntryHeld(n: ExternalNode<V>)
      requires Synced(memory) && n in memory.entries
      ensures memory.entries[n] == Entry(n.key, n.value)
    {
    }

    /** Walks down to the leaf where the key's bits lead, remembering the last two nodes passed. */
    method WalkToDelete(key: Key)
      returns (node: Pointer<V>, parent: Pointer<V>, grandParent: Pointer<V>, wentLeftForParent: bool, wentLeftForGrandparent: bool,
               ghost path: seq<bool>, ghost ancestors: seq<InternalNode<V>>)
      requires Valid() && !root.Null?
      ensures tree.Some? && node.External?
      ensures Walked(tree.value, root, memory, key, path, ancestors, node)
      ensures Remembers(path, ancestors, parent, wentLeftForParent, grandParent, wentLeftForGrandparent)
    {
      hide Walked, Bit, GetDirection, Packed, Apart, Linked, Good, Contents, Holds;
      node, parent, grandParent := root, Null, Null;
      wentLeftForParent, wentLeftForGrandparent := false, false;
      path, ancestors := [], [];
      ghost var t, m := tree.value, memory;
      HeldNodes(t, root, m, contents);
      WalkStarts(t, root, m, key);
      WalkNode(t, root, m, key, path, ancestors, node);
      while node.Internal?
        invariant m == memory && OnPath(t, path)
        invariant Walked(t, root, m, key, path, ancestors, node) && !node.Null?
        invariant Remembers(path, ancestors, parent, wentLeftForParent, grandParent, wentLeftForGrandparent)
        decreases SubAt(t, path)
      {
        WalkNode(t, root, m, key, path, ancestors, node);
        var n := node.i;
        var dir := GetDirection(key, n.critbit);
        DirectionIsBit(key, n.at);
        assert Held(memory, n);
        WalkGoesOn(t, root, m, key, path, ancestors, node, Bit(key, n.at));
        path, ancestors := path + [Bit(key, n.at)], ancestors + [n];
        grandParent := parent;
        wentLeftForGrandparent := wentLeftForParent;
        parent := node;
        if dir == 0 {
          wentLeftForParent := true;
          node := n.left;
        } else {
          wentLeftForParent := false;
          node := n.right;
        }
      }
    }

    /** The last two nodes passed, and the turns taken there. */
    static ghost predicate Remembers(path: seq<bool>, ancestors: seq<InternalNode<V>>, parent: Pointer<V>, wentLeftForParent: bool,
                                     grandParent: Pointer<V>, wentLeftForGrandparent: bool) {
      && |ancestors| == |path|
      && parent == (if |path| > 0 then Internal(ancestors[|path| - 1]) else Null)
      && (|path| > 0 ==> wentLeftForParent == !path[|path| - 1])
      && grandParent == (if |path| > 1 then Internal(ancestors[|path| - 2]) else Null)
      && (|path| > 1 ==> wentLeftForGrandparent == !path[|path| - 2])
    }

    /** Puts the sibling of the leaf reached in the place of their parent. */
    method Unlink(key: Key, node: Pointer<V>, parent: Pointer<V>, grandParent: Pointer<V>, wentLeftForParent: bool, wentLeftForGrandparent: bool,
                  ghost path: seq<bool>, ghost ancestors: seq<InternalNode<V>>)
      requires tree.Some? && Synced(memory) && Holds(tree.value, root, memory, contents)
      requires Walked(tree.value, root, memory, key, path, ancestors, node) && node.External?
      requires Remembers(path, ancestors, parent, wentLeftForParent, grandParent, wentLeftForGrandparent)
      requires node.e in memory.entries && memory.entries[node.e].key == key && size + 1 == |contents|
      modifies this`root, this`memory, this`tree, this`contents, memory.links.Keys
      ensures Valid() && contents == old(contents) - {key} && key in old(contents)
      ensures memory.links.Keys == old(memory).links.Keys && memory.entries == old(memory).entries
    {
      hide Walked, Linked, Apart, Good, Contents, Holds, Synced, Relinked, Side;
      ghost var t, m := tree.value, memory;
      if parent.Null? {
        UnlinkLast(key, node, path, ancestors);
      } else {
        ghost var t', root', m' := UnlinkedAt(t, root, m, contents, key, path, ancestors, node,
                                              parent, grandParent, wentLeftForParent, wentLeftForGrandparent);
        m' := Splice(parent.i, grandParent, wentLeftForParent, wentLeftForGrandparent, m);
        Become(t', contents - {key}, m');
      }
    }

    method UnlinkLast(key: Key, node: Pointer<V>, ghost path: seq<bool>, ghost ancestors: seq<InternalNode<V>>)
      requires tree.Some? && Synced(memory) && Holds(tree.value, root, memory, contents)
      requires Walked(tree.value, root, memory, key, path, ancestors, node) && node.External? && path == []
      requires node.e in memory.entries && memory.entries[node.e].key == key && size + 1 == |contents|
      modifies this`root, this`tree, this`contents
      ensures Valid() && contents == old(contents) - {key} && key in old(contents)
    {
      hide Walked, Holds, Synced;
      LastDeleted(tree.value, root, memory, contents, key, ancestors, node);
      KeyRemoved(contents, key);
      root := Null;
      tree, contents := None, contents - {key};
    }

    /** The value-level account of the deletion. */
    static lemma UnlinkedAt(t: Tree<InternalNode<V>, ExternalNode<V>>, root: Pointer<V>, m: Nodes<V>, contents: map<Key, V>,
                            key: Key, path: seq<bool>, ancestors: seq<InternalNode<V>>, node: Pointer<V>,
                            parent: Pointer<V>, grandParent: Pointer<V>, wentLeftForParent: bool, wentLeftForGrandparent: bool)
      returns (t': Tree<InternalNode<V>, ExternalNode<V>>, root': Pointer<V>, m': Nodes<V>)
      requires Holds(t, root, m, contents) && Walked(t, root, m, key, path, ancestors, node) && node.External?
      requires node.e in m.entries && m.entries[node.e].key == key
      requires Remembers(path, ancestors, parent, wentLeftForParent, grandParent, wentLeftForGrandparent) && !parent.Null?
      ensures parent.Internal? && parent.i in m.links
      ensures grandParent.Null? || (grandParent.Internal? && grandParent.i in m.links)
      ensures root' == if grandParent.Null? then Side(m.links[parent.i], wentLeftForParent) else root
      ensures m' == if grandParent.Null? then m else Relinked(m, grandParent.i, !wentLeftForGrandparent, Side(m.links[parent.i], wentLeftForParent))
      ensures Holds(t', root', m', contents - {key}) && key in contents && 0 < |contents - {key}| == |contents| - 1
    {
      hide Walked, Linked, Apart, Good, Contents, Holds, Relinked;
      var sibling := SiblingFound(t, root, m, contents, key, path, ancestors, node);
      root' := if grandParent.Null? then sibling else root;
      m' := if grandParent.Null? then m else Relinked(m, grandParent.i, !wentLeftForGrandparent, sibling);
      t' := DeletedAt(t, root, m, m', contents, key, path, ancestors, node, sibling);
      HeldNotEmpty(t', root', m', contents - {key});
      KeyRemoved(contents, key);
    }

    /** Rewires the grandparent, or the root, to the other child of the parent. */
    method Splice(parent: InternalNode<V>, grandParent: Pointer<V>, wentLeftForParent: bool, wentLeftForGrandparent: bool, ghost m: Nodes<V>)
      returns (ghost m': Nodes<V>)
      requires Synced(m) && parent in m.links
      requires grandParent.Null? || (grandParent.Internal? && grandParent.i in m.links)
      modifies this`root, m.links.Keys
      ensures Synced(m') && m'.links.Keys == m.links.Keys && m'.entries == m.entries
      ensures root == if grandParent.Null? then Side(m.links[parent], wentLeftForParent) else old(root)
      ensures m' == if grandParent.Null? then m else Relinked(m, grandParent.i, !wentLeftForGrandparent, Side(m.links[parent], wentLeftForParent))
    {
      assert Held(m, parent);
      m' := m;
      if grandParent.Null? {
        if wentLeftForParent {
          root := parent.right;
        } else {
          root := parent.left;
        }
      } else {
        if wentLeftForGrandparent {
          if wentLeftForParent {
            m' := Link(grandParent.i, false, parent.right, m);
          } else {
            m' := Link(grandParent.i, false, parent.left, m);
          }
        } else {
          if wentLeftForParent {
            m' := Link(grandParent.i, true, parent.right, m);
          } else {
            m' := Link(grandParent.i, true, parent.left, m);
          }
        }
      }
    }

    /** Visits the entries in key order; the log is what the callback is given. */
    method ForEach() returns (log: seq<Entry<V>>)
      requires Valid()
      ensures Ascending(log) && Lists(log, contents) && |log| == size
      ensures forall i :: 0 <= i < |log| ==> log[i].key in contents && contents[log[i].key] == log[i].value
      ensures forall k :: k in contents ==> exists i :: 0 <= i < |log| && log[i].key == k
      ensures forall i, j :: 0 <= i < j < |log| ==> Less(log[i].key, log[j].key)
      ensures log == Visits(Shape())
    {
      hide Linked, Apart, Good, Held, At, Rest, Work, LeftOf, RightOf, Ascending, Lists, Holds;
      var current, stack: seq<Pointer<V>> := root, [];
      ghost var m, cur, todo: seq<Tree<InternalNode<V>, ExternalNode<V>>> := memory, tree, [];
      log := [];
      if tree.Some? {
        HeldNodes(tree.value, root, m, contents);
      }
      TraversalStarts(tree, root, m);
      while true
        invariant m == memory && At(cur, todo, current, stack, m)
        invariant log + Rest(cur, todo, m) == Rest(tree, [], m)
        decreases Work(cur, todo)
      {
        if !current.Null? {
          Descends(cur, todo, current, stack, m);
          if current.Internal? { assert Held(m, current.i); }
          ghost var t := cur.value;
          cur, todo := LeftOf(t), todo + [t];
          stack := stack + [current];
          current := LeftPointer(current, m);
        } else if |stack| > 0 {
          Ascends(cur, todo, current, stack, m);
          ghost var t := todo[|todo| - 1];
          current, stack := stack[|stack| - 1], stack[..|stack| - 1];
          cur, todo := RightOf(t), todo[..|todo| - 1];
          if current.External? {
            EntryHeld(current.e);
            log := log + [Entry(current.e.key, current.e.value)];
          }
          current := RightPointer(current, m);
        } else {
          NothingLeft(cur, todo, current, stack, m);
          break;
        }
      }
      TraversalEnds(tree, root, m, log);
      ListsInOrder(tree, root, m, contents, log);
      Listed(log, contents);
    }

    static method LeftPointer(current: Pointer<V>, ghost m: Nodes<V>) returns (left: Pointer<V>)
      requires Synced(m) && (current.Internal? ==> current.i in m.links)
      ensures left == if current.Internal? then m.links[current.i].left else Null
    {
      if current.Internal? {
        assert Held(m, current.i);
      }
      left := if current.Internal? then current.i.left else Null;
    }

    static method RightPointer(current: Pointer<V>, ghost m: Nodes<V>) returns (right: Pointer<V>)
      requires Synced(m) && (current.Internal? ==> current.i in m.links)
      ensures right == if current.Internal? then m.links[current.i].right else Null
    {
      if current.Internal? {
        assert Held(m, current.i);
      }
      right := if current.Internal? then current.i.right else Null;
    }

    lemma ShapeIsOfContents()
      requires Valid()
      ensures ShapeOf(Shape(), contents)
    {
      hide Good, Contents, Linked, Apart;
    }

    /** Two maps with the same contents have the same tree, whatever their histories. */
    static lemma SameShape(a: CritBitTreeMap<V>, b: CritBitTreeMap<V>)
      requires a.Valid() && b.Valid() && a.contents == b.contents
      ensures a.Shape() == b.Shape()
    {
      a.ShapeIsOfContents();
      b.ShapeIsOfContents();
      ShapeIsUnique(a.Shape(), b.Shape(), a.contents);
    }

    /** Setting a fresh key and deleting it again restores the tree exactly. */
    method SetThenDelete(key: Key, value: V)
      requires Valid() && key !in contents
      modifies this, memory.links.Keys, memory.entries.Keys
      ensures Valid() && Shape() == old(Shape()) && contents == old(contents)
    {
      hide Valid, Shape;
      ShapeIsOfContents();
      ghost var before, kept := Shape(), contents;
      Set(key, value);
      var deleted := Delete(key);
      assert kept[key := value] - {key} == kept;
      ShapeIsOfContents();
      ShapeIsUnique(before, Shape(), kept);
    }
  }
}
