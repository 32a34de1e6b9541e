/** The crit-bit tree map in preallocated arrays: a positive pointer n is inner slot n - 1, a negative
    one -n is key slot n - 1, and 0 is no pointer. Its critical bits are packed without complement. */
module FixedCritBitTreeMaps {
  import opened Options
  import opened CritBits
  import opened CritBitTrees
  import opened CritBitMemory
  import CritBitTreeMaps

  // ----- Packed critical bits -----

  /** A byte index and a byte in one number. */
  function Pack(index: nat, mask: bv8): nat {
    index * 256 + mask as int
  }

  function Packed(p: Pos): nat {
    Pack(p.index, BitMask(p.bit))
  }

  /** 0 to go left, anything else to go right. */
  function GetDirection(key: Key, critbit: nat): bv8 {
    var byteIndex := critbit / 256;
    if byteIndex > |key| - 1 then 0
    else
      var byte, mask := key[byteIndex], (critbit % 256) as bv8;
      byte & mask
  }

  method FindCriticalBit(a: Key, b: Key) returns (critbit: int, ghost p: Pos)
    ensures critbit == -1 <==> a == b
    ensures critbit != -1 ==> critbit == Packed(p) && Splits(a, b, p)
  {
    // Swapping so the first is the shortest
    if |a| > |b| {
      critbit, p := ShortestFirst(b, a);
      if critbit != -1 {
        SplitsEitherWay(b, a, p);
      }
    } else {
      critbit, p := ShortestFirst(a, b);
    }
  }

  method ShortestFirst(a: Key, b: Key) returns (critbit: int, ghost p: Pos)
    requires |a| <= |b|
    ensures critbit == -1 <==> a == b
    ensures critbit != -1 ==> critbit == Packed(p) && Splits(a, b, p)
  {
    hide Splits, Msb8, Pack, BitMask;
    var i, l := 0, |a|;
    while i < l
      invariant 0 <= i <= l && a[..i] == b[..i]
    {
      if a[i] != b[i] {
        p := SplitAtByte(a, b, i);
        return Pack(i, Msb8(a[i] ^ b[i])), p;
      }
      i := i + 1;
    }
    assert a == a[..l];
    // Strings are identical
    if |a| == |b| {
      assert b == b[..l];
      return -1, Pos(0, 0);
    }
    p := SplitAtEnd(a, b);
    return Pack(i, Msb8(b[i])), p;
  }

  lemma Unpacked(p: Pos)
    ensures Packed(p) / 256 == p.index && (Packed(p) % 256) as bv8 == BitMask(p.bit) && Packed(p) % 256 == BitMask(p.bit) as int
  {
    hide BitMask;
    CritBitTreeMaps.IntoParts(p.index, BitMask(p.bit) as int);
    CritBitTreeMaps.BackToByte(BitMask(p.bit));
  }

  /** The direction is the key's bit at the position, unless the position is a byte's existence:
      then it is always left. */
  lemma DirectionIsBit(key: Key, p: Pos)
    ensures (GetDirection(key, Packed(p)) != 0) == Turns(key, p)
  {
    hide Packed;
    Unpacked(p);
    assert p.bit >= EXISTS ==> BitMask(p.bit) == 0;
    assert p.index < |key| ==> key[p.index] & 0 == 0;
  }

  lemma BitMasks()
    ensures BitMask(0) as int == 128 && BitMask(1) as int == 64 && BitMask(2) as int == 32 && BitMask(3) as int == 16
    ensures BitMask(4) as int == 8 && BitMask(5) as int == 4 && BitMask(6) as int == 2 && BitMask(7) as int == 1
    ensures BitMask(8) as int == 0
  {
  }

  lemma BitMasksDescend(q: nat, r: nat)
    requires q <= EXISTS && r <= EXISTS
    ensures (BitMask(q) as int < BitMask(r) as int) == (q > r)
  {
    BitMasks();
  }

  /** Whether the ancestor's position is past the new one. */
  predicate PastBit(ancestor: nat, critbit: nat) {
    ancestor / 256 > critbit / 256 || (ancestor / 256 == critbit / 256 && ancestor % 256 < critbit % 256)
  }

  lemma PackedOrder(p: Pos, q: Pos)
    requires p.bit <= EXISTS && q.bit <= EXISTS
    ensures PastBit(Packed(q), Packed(p)) <==> Before(p, q)
  {
    hide Packed;
    Unpacked(p);
    Unpacked(q);
    BitMasksDescend(q.bit, p.bit);
  }

  // ----- The map -----

  type Pointer = Ptr<nat, nat>

  type Nodes<V> = Memory<nat, nat, V>

  function Decode(pointer: int): Pointer {
    if pointer > 0 then Internal(pointer - 1) else if pointer < 0 then External(-pointer - 1) else Null
  }

  // ----- Which keys the array version can tell apart -----

  /** b goes on after a, first with a NUL byte. */
  predicate NulExtends(a: Key, b: Key) {
    |a| < |b| && b[..|a|] == a && b[|a|] == 0
  }

  /** Neither the key nor a stored one goes on after the other with a NUL byte. */
  ghost predicate Distinguishable<V>(key: Key, contents: map<Key, V>) {
    forall k :: k in contents ==> !NulExtends(key, k) && !NulExtends(k, key)
  }

  ghost predicate NulFree(key: Key) {
    forall i :: 0 <= i < |key| ==> key[i] != 0
  }

  lemma NulFreeAreDistinguishable<V>(key: Key, contents: map<Key, V>)
    requires NulFree(key) && forall k :: k in contents ==> NulFree(k)
    ensures Distinguishable(key, contents)
  {
    forall k | k in contents
      ensures !NulExtends(key, k) && !NulExtends(k, key)
    {
      assert NulFree(k);
    }
  }

  /** Two keys differ first in the existence of a byte exactly if one goes on after the other with a NUL byte. */
  lemma SplitsAtExistence(a: Key, b: Key, p: Pos)
    requires Splits(a, b, p)
    ensures p.bit == EXISTS <==> NulExtends(a, b) || NulExtends(b, a)
  {
    if |a| <= |b| {
      ShorterSplits(a, b, p);
    } else {
      SplitsEitherWay(a, b, p);
      ShorterSplits(b, a, p);
    }
  }

  lemma ShorterSplits(a: Key, b: Key, p: Pos)
    requires Splits(a, b, p) && |a| <= |b|
    ensures p.bit == EXISTS <==> NulExtends(a, b)
  {
    hide Splits;
    if a == b[..|a|] {
      SplitsDiffer(a, b, p);
      var q := SplitAtEnd(a, b);
      SplitIsUnique(a, b, p, q);
      NulMask(b[|a|], q.bit);
    } else {
      var i := FirstDifference(a, b);
      var q := SplitAtByte(a, b, i);
      SplitIsUnique(a, b, p, q);
    }
  }

  lemma NulMask(x: bv8, r: nat)
    requires r <= EXISTS && Msb8(x) == BitMask(r) && (x != 0 ==> r < EXISTS)
    ensures r == EXISTS <==> x == 0
  {
    NoBits();
    BitMasks();
  }

  lemma {:induction false} FirstDifference(a: Key, b: Key) returns (i: nat)
    requires |a| <= |b| && a != b[..|a|]
    ensures i < |a| && a[..i] == b[..i] && a[i] != b[i]
  {
    i := 0;
    while i < |a| && a[i] == b[i]
      invariant i <= |a| && a[..i] == b[..i]
    {
      i := i + 1;
    }
    assert a[..|a|] == a;
  }

  lemma SplitsDiffer(a: Key, b: Key, p: Pos)
    requires Splits(a, b, p)
    ensures a != b
  {
  }

  // ----- Where walks end -----

  /** The turn taken at a node: to the right if the key has the bit, but never for the existence of a byte. */
  ghost predicate Turns(key: Key, at: Pos) {
    at.bit < EXISTS && Bit(key, at)
  }

  /** Where the walk for a key ends. */
  ghost function Lookup<V>(t: CritTree<V>, key: Key): Entry<V> {
    match t
    case Leaf(e) => e
    case Node(at, left, right) => if Turns(key, at) then Lookup(right, key) else Lookup(left, key)
  }

  /** What looking a key up gives. */
  ghost function Looked<V>(shape: Option<CritTree<V>>, key: Key): Option<V> {
    match shape
    case None => None
    case Some(t) => if Lookup(t, key).key == key then Some(Lookup(t, key).value) else None
  }

  /** The path takes the turns of a walk for the key. */
  ghost predicate Leads<V>(t: CritTree<V>, path: seq<bool>, key: Key)
    requires OnPath(t, path)
    decreases path
  {
    path != [] ==> path[0] == Turns(key, t.i) && Leads(Child(t, path[0]), path[1..], key)
  }

  lemma {:induction false} LeadsOn<V>(t: CritTree<V>, path: seq<bool>, key: Key, d: bool)
    requires OnPath(t, path) && SubAt(t, path).Node? && Leads(t, path, key)
    requires d == Turns(key, SubAt(t, path).i)
    ensures OnPath(t, path + [d]) && Leads(t, path + [d], key)
    decreases path
  {
    hide Turns;
    PathExtends(t, path, d);
    if path != [] {
      assert (path + [d])[1..] == path[1..] + [d];
      LeadsOn(Child(t, path[0]), path[1..], key, d);
    } else {
      assert (path + [d])[1..] == [];
    }
  }

  lemma {:induction false} LeadsPrefix<V>(t: CritTree<V>, path: seq<bool>, key: Key, n: nat)
    requires OnPath(t, path) && n <= |path| && Leads(t, path, key)
    ensures OnPath(t, path[..n]) && Leads(t, path[..n], key)
    decreases path
  {
    hide Turns;
    if n > 0 {
      assert path[..n][1..] == path[1..][..n - 1];
      LeadsPrefix(Child(t, path[0]), path[1..], key, n - 1);
    }
  }

  /** A walk along a path ends where it would end from there, whatever stands there. */
  lemma {:induction false} LookupReplaced<V>(t: CritTree<V>, path: seq<bool>, sub: CritTree<V>, key: Key)
    requires OnPath(t, path) && Leads(t, path, key)
    ensures Lookup(Replaced(t, path, sub), key) == Lookup(sub, key)
    ensures Lookup(t, key) == Lookup(SubAt(t, path), key)
    decreases path
  {
    hide Turns;
    if path != [] {
      LookupReplaced(Child(t, path[0]), path[1..], sub, key);
    }
  }

  lemma LookupEnds<V>(t: CritTree<V>, path: seq<bool>, key: Key)
    requires OnPath(t, path) && Leads(t, path, key) && SubAt(t, path).Leaf?
    ensures Lookup(t, key) == SubAt(t, path).e
  {
    LookupReplaced(t, path, t, key);
  }

  /** What setting a new key makes of the tree. */
  ghost function AfterSet<V>(t: CritTree<V>, path: seq<bool>, key: Key, value: V, p: Pos): CritTree<V>
    requires OnPath(t, path)
  {
    Replaced(t, path, Joined(p, Turns(key, p), Entry(key, value), SubAt(t, path)))
  }

  /** Whatever the tree was, a key that has been set is found. */
  lemma SetIsFound<V>(t: CritTree<V>, path: seq<bool>, key: Key, value: V, p: Pos)
    requires OnPath(t, path) && Leads(t, path, key)
    ensures Lookup(AfterSet(t, path, key, value, p), key) == Entry(key, value)
  {
    hide Turns;
    LookupReplaced(t, path, Joined(p, Turns(key, p), Entry(key, value), SubAt(t, path)), key);
  }

  /** No position of the tree is the existence of a byte. */
  ghost predicate InBytes<V>(t: CritTree<V>) {
    t.Node? ==> t.i.bit < EXISTS && InBytes(t.left) && InBytes(t.right)
  }

  ghost predicate AllFound<V>(t: CritTree<V>, contents: map<Key, V>) {
    forall k :: k in contents ==> Lookup(t, k) == Entry(k, contents[k])
  }

  lemma {:induction false} LookupFinds<V>(t: CritTree<V>, key: Key)
    requires Good(t) && InBytes(t) && key in Contents(t)
    ensures Lookup(t, key) == Entry(key, Contents(t)[key])
  {
    if t.Node? {
      SidesOf(t);
      LookupFinds(Child(t, Bit(key, t.i)), key);
    }
  }

  lemma {:induction false} LookupIsHeld<V>(t: CritTree<V>, key: Key)
    ensures Lookup(t, key).key in Contents(t)
  {
    if t.Node? {
      hide Turns;
      LookupIsHeld(t.left, key);
      LookupIsHeld(t.right, key);
    }
  }

  /** In a good tree of bytes looking up is looking up in the map. */
  lemma LookedIsMap<V>(t: CritTree<V>, key: Key)
    requires Good(t) && InBytes(t)
    ensures Looked(Some(t), key) == if key in Contents(t) then Some(Contents(t)[key]) else None
  {
    hide Good, InBytes, Contents, Lookup;
    LookupIsHeld(t, key);
    if key in Contents(t) {
      LookupFinds(t, key);
    }
  }

  lemma {:induction false} InBytesAfterSet<V>(t: CritTree<V>, path: seq<bool>, sub: CritTree<V>)
    requires OnPath(t, path) && InBytes(t)
    ensures InBytes(Replaced(t, path, sub)) <==> InBytes(sub)
    decreases path
  {
    if path != [] {
      InBytesAfterSet(Child(t, path[0]), path[1..], sub);
    }
  }

  lemma {:induction false} SubInBytes<V>(t: CritTree<V>, path: seq<bool>)
    requires OnPath(t, path) && InBytes(t)
    ensures InBytes(SubAt(t, path))
    decreases path
  {
    if path != [] {
      SubInBytes(Child(t, path[0]), path[1..]);
    }
  }

  /** In a tree of bytes a walk goes by the key's bits. */
  lemma {:induction false} LeadsFollows<V>(t: CritTree<V>, path: seq<bool>, key: Key)
    requires OnPath(t, path) && InBytes(t)
    ensures Leads(t, path, key) <==> Follows(t, path, key)
    decreases path
  {
    if path != [] {
      LeadsFollows(Child(t, path[0]), path[1..], key);
    }
  }

  /** A key is on the way to itself. */
  lemma {:induction false} KeyFollows<V>(t: CritTree<V>, path: seq<bool>, key: Key)
    requires Good(t) && OnPath(t, path) && key in Contents(SubAt(t, path))
    ensures Follows(t, path, key)
    decreases path
  {
    if path != [] {
      SidesOf(t);
      SubIsGood(Child(t, path[0]), path[1..]);
      KeyFollows(Child(t, path[0]), path[1..], key);
    }
  }

  /** Where the new key leaves any stored key, it leaves its neighbour too, or it is at a node passed. */
  lemma {:induction false} NeighbourIsNearest<V>(t: CritTree<V>, path: seq<bool>, key: Key, near: Key, p: Pos, k: Key, q: Pos)
    requires Good(t) && InBytes(t) && OnPath(t, path) && Follows(t, path, key)
    requires near in Contents(SubAt(t, path)) && Splits(key, near, p) && Fits(t, path, p)
    requires k in Contents(t) && Splits(key, k, q)
    ensures q == p || q.bit < EXISTS
    decreases path
  {
    if path == [] {
      LeaveAt(t, key, near, p, k);
      SplitIsUnique(key, k, p, q);
    } else {
      hide Divides, Splits, Bit;
      FitsBelow(t, path, p);
      SidesOf(t);
      SubIsGood(Child(t, path[0]), path[1..]);
      PassedSameWay(t, key, near, p);
      if k in Contents(Child(t, path[0])) {
        NeighbourIsNearest(Child(t, path[0]), path[1..], key, near, p, k, q);
      } else {
        PassedNode(t, key, near, p, k);
        SplitIsUnique(key, k, t.i, q);
      }
    }
  }

  /** The new key can be told apart from all stored ones exactly if it can from its neighbour. */
  lemma NeighbourDecides<V>(t: CritTree<V>, path: seq<bool>, key: Key, near: Key, p: Pos)
    requires Good(t) && InBytes(t) && Belongs(t, path, key, near, p)
    ensures p.bit < EXISTS <==> Distinguishable(key, Contents(t))
    ensures key !in Contents(t) && near in Contents(t)
  {
    hide Good, InBytes, Contents, Splits, Bit, Fits, Follows, NulExtends;
    SubIsGood(t, path);
    SplitsAtExistence(key, near, p);
    assert p.bit <= EXISTS by {
      SplitInRange(key, near, p);
    }
    InsertIsGood(t, path, key, SomeValue(t), near, p);
    if p.bit < EXISTS {
      forall k | k in Contents(t)
        ensures !NulExtends(key, k) && !NulExtends(k, key)
      {
        var q := SplitOf(key, k);
        NeighbourIsNearest(t, path, key, near, p, k, q);
        SplitsAtExistence(key, k, q);
        SplitInRange(key, k, q);
      }
    }
  }

  lemma SplitInRange(a: Key, b: Key, p: Pos)
    requires Splits(a, b, p)
    ensures p.bit <= EXISTS
  {
  }

  ghost function SomeValue<V>(t: CritTree<V>): V {
    Contents(t)[SomeKey(t)]
  }

  /** Keys that differ do so first somewhere. */
  lemma SplitOf(a: Key, b: Key) returns (p: Pos)
    requires a != b
    ensures Splits(a, b, p)
  {
    var s, l := if |a| <= |b| then a else b, if |a| <= |b| then b else a;
    if s == l[..|s|] {
      assert l[..|l|] == l;
      p := SplitAtEnd(s, l);
    } else {
      var i := FirstDifference(s, l);
      p := SplitAtByte(s, l, i);
    }
    SplitsEitherWay(s, l, p);
  }

  /** Setting a key that can be told apart keeps the tree good, adds the entry and loses nothing. */
  lemma SetKeepsAll<V>(t: CritTree<V>, path: seq<bool>, key: Key, value: V, near: Key, p: Pos)
    requires Good(t) && InBytes(t) && Belongs(t, path, key, near, p) && p.bit < EXISTS
    ensures var t' := AfterSet(t, path, key, value, p);
            Good(t') && InBytes(t') && Contents(t') == Contents(t)[key := value] && AllFound(t', Contents(t'))
  {
    hide Good, Contents, Splits, Bit, Fits, Follows;
    var t' := AfterSet(t, path, key, value, p);
    SubIsGood(t, path);
    InsertIsGood(t, path, key, value, near, p);
    SubInBytes(t, path);
    InBytesAfterSet(t, path, Joined(p, Turns(key, p), Entry(key, value), SubAt(t, path)));
    forall k | k in Contents(t')
      ensures Lookup(t', k) == Entry(k, Contents(t')[k])
    {
      LookupFinds(t', k);
    }
  }

  /** Setting a key that cannot be told apart hides its neighbour: walks for both end at the new key. */
  lemma SetHides<V>(t: CritTree<V>, path: seq<bool>, key: Key, value: V, near: Key, p: Pos)
    requires Good(t) && InBytes(t) && Belongs(t, path, key, near, p) && p.bit == EXISTS
    ensures near in Contents(t) && near != key
    ensures var t' := AfterSet(t, path, key, value, p);
            Lookup(t', near) == Entry(key, value) && Looked(Some(t'), near) == None && !InBytes(t')
  {
    hide Good, Contents, Splits, Bit, Fits, Follows, Leads;
    SubIsGood(t, path);
    SplitsDiffer(key, near, p);
    KeyFollows(t, path, near);
    LeadsFollows(t, path, near);
    var sub := Joined(p, Turns(key, p), Entry(key, value), SubAt(t, path));
    LookupReplaced(t, path, sub, near);
    InBytesAfterSet(t, path, sub);
  }

  /** After setting a new key every key is found, exactly if the new key is distinguishable from the stored ones. */
  lemma AllFoundIffDistinguishable<V>(t: CritTree<V>, path: seq<bool>, key: Key, value: V, near: Key, p: Pos)
    requires Good(t) && InBytes(t) && Belongs(t, path, key, near, p)
    ensures AllFound(AfterSet(t, path, key, value, p), Contents(t)[key := value]) <==> Distinguishable(key, Contents(t))
  {
    hide Good, InBytes, Contents, Splits, Fits, Follows, Distinguishable, AfterSet;
    NeighbourDecides(t, path, key, near, p);
    SplitInRange(key, near, p);
    if p.bit < EXISTS {
      SetKeepsAll(t, path, key, value, near, p);
    } else {
      SetHides(t, path, key, value, near, p);
    }
  }

  /** The tree, if any, holds this map, and every lookup in it is right. */
  ghost predicate Represents<V>(shape: Option<CritTree<V>>, contents: map<Key, V>) {
    match shape
    case None => contents == map[]
    case Some(t) => Good(t) && InBytes(t) && Contents(t) == contents
  }

  /** The new key was put in front of a key from which it differs first in the existence of a byte. */
  ghost predicate Hides<V>(before: Option<CritTree<V>>, after: Option<CritTree<V>>, key: Key, value: V) {
    before.Some? && exists path, near, p ::
      Belongs(before.value, path, key, near, p) && p.bit == EXISTS && after == Some(AfterSet(before.value, path, key, value, p))
  }

  /** What setting a new key does to a tree that represents a map. */
  lemma SetJudged<V>(t: CritTree<V>, contents: map<Key, V>, path: seq<bool>, key: Key, value: V, near: Key, p: Pos)
    requires Represents(Some(t), contents) && Belongs(t, path, key, near, p)
    ensures key !in contents && near in contents
    ensures Represents(Some(AfterSet(t, path, key, value, p)), contents[key := value]) <==> Distinguishable(key, contents)
    ensures !Distinguishable(key, contents) ==>
              var after := Some(AfterSet(t, path, key, value, p)); Hides(Some(t), after, key, value) && Looked(after, near) == None
  {
    hide Good, InBytes, Contents, Splits, Fits, Follows, Distinguishable, AfterSet, Lookup;
    NeighbourDecides(t, path, key, near, p);
    SplitInRange(key, near, p);
    if p.bit < EXISTS {
      SetKeepsAll(t, path, key, value, near, p);
    } else {
      SetHides(t, path, key, value, near, p);
    }
  }

  class FixedCritBitTreeMap<V(0)> {
    const capacity: nat
    const keys: array<Key>
    const values: array<V>
    const lefts: array<int>
    const rights: array<int>
    const critbits: array<int>
    var offset: nat
    var root: int
    var size: nat
    ghost var tree: Option<Tree<nat, nat>>
    ghost var contents: map<Key, V>
    /** What all slots in use hold. */
    ghost var memory: Nodes<V>

    /** The arrays have room for `capacity` keys. */
    ghost predicate Sized() {
      && capacity > 0
      && keys.Length == values.Length == critbits.Length == capacity
      && lefts.Length == rights.Length == capacity - 1
      && lefts != rights && lefts != critbits && rights != critbits
      && values as object != keys && values as object != lefts && values as object != rights && values as object != critbits
    }

    /** The memory says what the slots in use hold. */
    ghost predicate Synced(m: Nodes<V>, inner: nat, outer: nat)
      reads keys, values, lefts, rights, critbits
    {
      && Sized() && inner <= capacity - 1 && outer <= capacity
      && (forall i: nat :: i in m.links <==> i < inner)
      && (forall i: nat :: i in m.crits <==> i < inner)
      && (forall j: nat :: j in m.entries <==> j < outer)
      && (forall i: nat :: i < inner ==> m.links[i] == Pair(Decode(lefts[i]), Decode(rights[i])))
      && (forall i: nat :: i < inner ==> critbits[i] == Packed(m.crits[i]) && m.crits[i].bit <= EXISTS)
      && (forall j: nat :: j < outer ==> m.entries[j] == Entry(keys[j], values[j]))
    }

    /** The arrays hold a tree, whose leaves may not all be found. */
    ghost predicate Sound()
      reads this, keys, values, lefts, rights, critbits
    {
      && Synced(memory, offset, size)
      && (size > 0 ==> offset == size - 1)
      && match tree
         case None => root == 0 && offset == 0 == size
         case Some(t) => size > 0 && Stored(t, Decode(root), memory)
    }

    ghost function Shape(): Option<CritTree<V>>
      reads this, keys, values, lefts, rights, critbits
      requires Sound()
    {
      match tree
      case None => None
      case Some(t) => Some(View(t, Decode(root), memory))
    }

    /** The tree is one in which everything that has been set is found. */
    ghost predicate Valid()
      reads this, keys, values, lefts, rights, critbits
    {
      Sound() && Represents(Shape(), contents) && size == |contents|
    }

    lemma SizeOfValid()
      requires Valid()
      ensures Sound() && size == |contents|
    {
    }

    constructor (capacity: nat)
      requires capacity > 0
      ensures Valid() && contents == map[] && this.capacity == capacity
      ensures fresh(keys) && fresh(values) && fresh(lefts) && fresh(rights) && fresh(critbits)
    {
      this.capacity := capacity;
      offset, root, size := 0, 0, 0;
      keys := new Key[capacity](_ => []);
      values := new V[capacity];
      lefts := new int[capacity - 1](_ => 0);
      rights := new int[capacity - 1](_ => 0);
      critbits := new int[capacity](_ => 0);
      tree, contents, memory := None, map[], Memory(map[], map[], map[]);
    }

    /** What an inner slot holds, read through the arrays. */
    lemma SlotHeld(m: Nodes<V>, inner: nat, outer: nat, i: nat)
      requires Synced(m, inner, outer) && i in m.links
      ensures i < inner <= capacity - 1 && i in m.crits && Sized()
      ensures m.links[i] == Pair(Decode(lefts[i]), Decode(rights[i])) && critbits[i] == Packed(m.crits[i]) && m.crits[i].bit <= EXISTS
    {
    }

    lemma EntryHeld(m: Nodes<V>, inner: nat, outer: nat, j: nat)
      requires Synced(m, inner, outer) && j in m.entries
      ensures j < outer <= capacity && Sized() && m.entries[j] == Entry(keys[j], values[j])
    {
    }

    /** The turn taken at an inner slot, and the pointer there. */
    method Turn(key: Key, slot: nat, ghost m: Nodes<V>, ghost inner: nat, ghost outer: nat) returns (right: bool, pointer: int)
      requires Synced(m, inner, outer) && slot in m.links && slot in m.crits
      ensures right == Turns(key, m.crits[slot]) && Decode(pointer) == Side(m.links[slot], right)
    {
      hide Bit, Turns, GetDirection, Packed;
      SlotHeld(m, inner, outer, slot);
      var dir := GetDirection(key, critbits[slot]);
      DirectionIsBit(key, m.crits[slot]);
      right := dir != 0;
      pointer := if dir == 0 then lefts[slot] else rights[slot];
    }

    /** The key slot where the walk for the key ends, as a pointer; 0 in an empty tree. */
    method Descend(key: Key) returns (pointer: int)
      requires Sound()
      ensures tree == None ==> pointer == 0
      ensures tree.Some? ==> pointer < 0 && -pointer - 1 < size <= keys.Length == values.Length
      ensures tree.Some? ==> Entry(keys[-pointer - 1], values[-pointer - 1]) == Lookup(Shape().value, key)
    {
      hide Reached, Turns, GetDirection, Packed, Apart, Linked, Synced, Leads;
      pointer := root;
      if tree.Some? {
        WalkStarts(tree.value, Decode(root), memory, key);
        ReachedNode(tree.value, Decode(root), memory, [], [], Decode(root));
      }
      if pointer == 0 {
        return;
      }
      ghost var t, m, path, ancestors: seq<nat> := tree.value, memory, [], [];
      NoTurns(Shape().value, key);
      while pointer > 0
        invariant m == memory && OnPath(t, path) && OnPath(Shape().value, path) && Leads(Shape().value, path, key)
        invariant Reached(t, Decode(root), m, path, ancestors, Decode(pointer)) && pointer != 0
        decreases SubAt(t, path)
      {
        ReachedNode(t, Decode(root), m, path, ancestors, Decode(pointer));
        var slot := pointer - 1;
        ghost var node := Decode(pointer);
        var right;
        right, pointer := Turn(key, slot, m, offset, size);
        ReachesOn(t, Decode(root), m, path, ancestors, node, right);
        LeadsOn(Shape().value, path, key, right);
        path, ancestors := path + [right], ancestors + [slot];
      }
      ReachedLeaf(t, Decode(root), m, path, ancestors, Decode(pointer));
      LookupEnds(Shape().value, path, key);
      EntryHeld(m, offset, size, -pointer - 1);
    }

    static lemma NoTurns(t: CritTree<V>, key: Key)
      ensures Leads(t, [], key)
    {
    }

    /** What looking up in the arrays gives is what the map gives, unless keys have been lost. */
    lemma LookedUp(key: Key)
      requires Valid()
      ensures Looked(Shape(), key) == if key in contents then Some(contents[key]) else None
    {
      hide Good, Contents, InBytes, Synced, Linked, Apart;
      if tree.Some? {
        LookedIsMap(Shape().value, key);
      }
    }

    /** The value found under the key, if any. */
    method Get(key: Key) returns (value: Option<V>)
      requires Sound()
      ensures value == Looked(Shape(), key)
      ensures Valid() ==> value == if key in contents then Some(contents[key]) else None
    {
      hide Valid, Lookup, Linked, Apart;
      if Valid() {
        LookedUp(key);
      }
      var pointer := Descend(key);
      if pointer == 0 || keys[-pointer - 1] != key {
        return None;
      }
      return Some(values[-pointer - 1]);
    }

    method Has(key: Key) returns (found: bool)
      requires Sound()
      ensures found <==> Looked(Shape(), key).Some?
      ensures Valid() ==> (found <==> key in contents)
    {
      hide Valid, Lookup, Linked, Apart;
      if Valid() {
        LookedUp(key);
      }
      var pointer := Descend(key);
      found := pointer != 0 && keys[-pointer - 1] == key;
    }

    /** Walks down to a key slot. */
    method Walk(key: Key) returns (pointer: int, ancestors: seq<nat>, path: seq<bool>)
      requires Sound() && tree.Some?
      ensures Reached(tree.value, Decode(root), memory, path, ancestors, Decode(pointer)) && pointer < 0
      ensures OnPath(Shape().value, path) && Leads(Shape().value, path, key)
    {
      hide Reached, Turns, GetDirection, Packed, Apart, Linked, Synced, Leads;
      ghost var t, m := tree.value, memory;
      pointer, ancestors, path := root, [], [];
      WalkStarts(t, Decode(root), m, key);
      ReachedNode(t, Decode(root), m, [], [], Decode(root));
      NoTurns(Shape().value, key);
      while pointer > 0
        invariant m == memory && OnPath(t, path) && OnPath(Shape().value, path) && Leads(Shape().value, path, key)
        invariant Reached(t, Decode(root), m, path, ancestors, Decode(pointer)) && pointer != 0
        decreases SubAt(t, path)
      {
        ReachedNode(t, Decode(root), m, path, ancestors, Decode(pointer));
        var slot := pointer - 1;
        ghost var node := Decode(pointer);
        var right, newPointer := Turn(key, slot, m, offset, size);
        ReachesOn(t, Decode(root), m, path, ancestors, node, right);
        LeadsOn(Shape().value, path, key, right);
        // The source fills an empty pointer here; there never is one.
        if newPointer == 0 {
          assert false;
        }
        ancestors := ancestors + [slot];
        path := path + [right];
        pointer := newPointer;
      }
    }

    /** Stores the value under the key. The key is found from then on; whether all others still are depends
        on whether it can be told apart from them. */
    method Set(key: Key, value: V)
      requires Sound() && (size < capacity || Looked(Shape(), key).Some?)
      modifies this, keys, values, lefts, rights, critbits
      ensures Sound() && Looked(Shape(), key) == Some(value)
      ensures contents == old(contents)[key := value]
      ensures old(Valid()) ==> (Valid() <==> key in old(contents) || Distinguishable(key, old(contents)))
      ensures old(Valid()) && !Valid() ==> Hides(old(Shape()), Shape(), key, value) && exists k :: k in old(contents) && Looked(Shape(), k) == None
    {
      hide Reached, Turns, Packed, Apart, Linked, Synced, Splits, Represents, Leads, Valid, Distinguishable, Hides, Lookup;
      if size == 0 {
        SetFirst(key, value);
        return;
      }
      var pointer, ancestors, path := Walk(key);
      ReachedLeaf(tree.value, Decode(root), memory, path, ancestors, Decode(pointer));
      EntryHeld(memory, offset, size, -pointer - 1);
      LookupEnds(Shape().value, path, key);
      var critbit;
      ghost var p;
      critbit, p := FindCriticalBit(key, keys[-pointer - 1]);
      // Key is identical, we just replace the value
      if critbit == -1 {
        Overwrite(-pointer - 1, key, value, ancestors, path);
        return;
      }
      Insert(key, value, pointer, ancestors, path, critbit, p);
    }

    /** Puts a new key slot and a new inner slot where bubbling up stops. */
    method Insert(key: Key, value: V, pointer: int, ancestors: seq<nat>, path: seq<bool>, critbit: nat, ghost p: Pos)
      requires Sound() && tree.Some? && size < capacity
      requires Reached(tree.value, Decode(root), memory, path, ancestors, Decode(pointer)) && pointer < 0
      requires OnPath(Shape().value, path) && Leads(Shape().value, path, key)
      requires -pointer - 1 in memory.entries && critbit == Packed(p) && Splits(key, memory.entries[-pointer - 1].key, p)
      modifies this, keys, values, lefts, rights, critbits
      ensures Sound() && Looked(Shape(), key) == Some(value)
      ensures contents == old(contents)[key := value]
      ensures old(Valid()) ==> key !in old(contents) && (Valid() <==> Distinguishable(key, old(contents)))
      ensures old(Valid()) && !Valid() ==> Hides(old(Shape()), Shape(), key, value) && exists k :: k in old(contents) && Looked(Shape(), k) == None
    {
      hide *;
      ShapeOfTree();
      DecodeOuter(-pointer - 1);
      ghost var t, m, was, valid, held := tree.value, memory, Decode(root), Valid(), contents;
      ghost var v, near := Shape().value, memory.entries[-pointer - 1].key;
      if valid {
        ValidRepresents();
      }
      ghost var best := InsertAt(key, value, pointer, ancestors, path, critbit, p);
      LeadsPrefix(v, path, key, best + 1);
      SetIsFound(v, path[..best + 1], key, value, p);
      FoundIsLooked(AfterSet(v, path[..best + 1], key, value, p), key, value);
      if valid {
        NewKeyBelongs(t, was, m, held, key, path, ancestors, Decode(pointer), p, best);
        SetJudged(v, held, path[..best + 1], key, value, near, p);
        KeyAdded(held, key, value);
      }
    }

    lemma ShapeOfTree()
      requires Sound() && tree.Some?
      ensures Stored(tree.value, Decode(root), memory) && Shape() == Some(View(tree.value, Decode(root), memory))
    {
      hide Apart, Linked, Synced;
    }

    lemma ValidRepresents()
      requires Valid()
      ensures Represents(Shape(), contents) && size == |contents|
    {
      hide Apart, Linked, Synced, Represents;
    }

    static lemma FoundIsLooked(t: CritTree<V>, key: Key, value: V)
      requires Lookup(t, key) == Entry(key, value)
      ensures Looked(Some(t), key) == Some(value)
    {
      hide Lookup;
    }

    /** Fills the new slots and wires them in where bubbling stops. */
    method InsertAt(key: Key, value: V, pointer: int, ancestors: seq<nat>, path: seq<bool>, critbit: nat, ghost p: Pos)
      returns (ghost best: int)
      requires Sound() && tree.Some? && size < capacity
      requires Reached(tree.value, Decode(root), memory, path, ancestors, Decode(pointer)) && pointer < 0
      requires OnPath(Shape().value, path) && -pointer - 1 in memory.entries && critbit == Packed(p)
      requires Splits(key, memory.entries[-pointer - 1].key, p)
      modifies this, keys, values, lefts, rights, critbits
      ensures Sound() && contents == old(contents)[key := value] && size == old(size) + 1
      ensures -1 <= best < |ancestors| == |path| && OnPath(old(Shape()).value, path[..best + 1])
      ensures best >= 0 ==> ancestors[best] in old(memory).crits && !Before(p, old(memory).crits[ancestors[best]])
      ensures best + 1 < |ancestors| ==> ancestors[best + 1] in old(memory).crits && Before(p, old(memory).crits[ancestors[best + 1]])
      ensures Shape() == Some(AfterSet(old(Shape()).value, path[..best + 1], key, value, p))
      ensures Valid() <==> Represents(Shape(), contents) && size == |contents|
    {
      hide Reached, Turns, Packed, Splits, Before, Synced, Grown, Above, Displaced, Linked, Apart, Represents;
      ghost var t, m, was := tree.value, memory, Decode(root);
      LinkedNodes(t, was, m);
      ReachedNode(t, was, m, path, ancestors, Decode(pointer));
      var internal, newPointer := offset, size;
      SlotsInUse(m, internal, newPointer);
      SplitInRange(key, m.entries[-pointer - 1].key, p);
      offset := offset + 1;
      size := size + 1;
      ghost var m';
      m', best := Attach(key, value, pointer, ancestors, path, critbit, p, internal, newPointer, m);
      ghost var t' := GrownAt(t, was, m, m', key, value, path, ancestors, Decode(pointer), p, best, internal, newPointer, Decode(root), Turns(key, p));
      Become(t', contents[key := value], m');
    }

    static lemma NewKeyBelongs(t: Tree<nat, nat>, was: Pointer, m: Nodes<V>, contents: map<Key, V>, key: Key, path: seq<bool>,
                               ancestors: seq<nat>, node: Pointer, p: Pos, best: int)
      requires Stored(t, was, m) && Represents(Some(View(t, was, m)), contents) && Reached(t, was, m, path, ancestors, node) && node.External?
      requires OnPath(View(t, was, m), path) && Leads(View(t, was, m), path, key)
      requires node.e in m.entries && Splits(key, m.entries[node.e].key, p) && -1 <= best < |ancestors| == |path|
      requires best >= 0 ==> ancestors[best] in m.crits && !Before(p, m.crits[ancestors[best]])
      requires best + 1 < |ancestors| ==> ancestors[best + 1] in m.crits && Before(p, m.crits[ancestors[best + 1]])
      ensures Belongs(View(t, was, m), path[..best + 1], key, m.entries[node.e].key, p)
    {
      hide Reached, Turns, Good, InBytes, Contents, Splits, Before, Linked, Apart, Belongs;
      LeadsFollows(View(t, was, m), path, key);
      BubbleStops(t, was, m, contents, key, path, ancestors, node, p, best + 1);
    }

    lemma SlotsInUse(m: Nodes<V>, inner: nat, outer: nat)
      requires Synced(m, inner, outer)
      ensures Sized() && inner < capacity && outer <= capacity
      ensures forall i: nat :: (i in m.links <==> i < inner) && (i in m.crits <==> i < inner) && (i in m.entries <==> i < outer)
    {
    }

    /** Records the new ghost state of a map that has changed in its arrays. */
    ghost method Become(t: Tree<nat, nat>, contents': map<Key, V>, m: Nodes<V>)
      requires Synced(m, offset, size) && Stored(t, Decode(root), m) && offset + 1 == size
      modifies this`tree, this`contents, this`memory
      ensures Sound() && contents == contents' && Shape() == Some(View(t, Decode(root), m))
      ensures Valid() <==> Represents(Shape(), contents) && size == |contents|
    {
      hide Apart, Linked, Synced, Represents;
      tree, contents, memory := Some(t), contents', m;
    }

    /** Fills the new slots, bubbles up and wires the new inner slot in. */
    method Attach(key: Key, value: V, pointer: int, ancestors: seq<nat>, path: seq<bool>, critbit: nat, ghost p: Pos,
                  internal: nat, newPointer: nat, ghost m: Nodes<V>)
      returns (ghost m': Nodes<V>, ghost best: int)
      requires Synced(m, internal, newPointer) && internal < capacity - 1 && newPointer < capacity
      requires pointer < 0 && critbit == Packed(p) && p.bit <= EXISTS && |ancestors| == |path|
      requires forall j :: 0 <= j < |ancestors| ==> ancestors[j] in m.links
      modifies this`root, keys, values, lefts, rights, critbits
      ensures Synced(m', internal + 1, newPointer + 1)
      ensures -1 <= best < |ancestors| && (best >= 0 ==> ancestors[best] in m.links)
      ensures best >= 0 ==> ancestors[best] in m.crits && !Before(p, m.crits[ancestors[best]])
      ensures best + 1 < |ancestors| ==> ancestors[best + 1] in m.crits && Before(p, m.crits[ancestors[best + 1]])
      ensures m' == Grown(m, internal, newPointer, p, Entry(key, value), Displaced(Decode(pointer), ancestors, best),
                          Above(ancestors, best), best >= 0 && path[best], Turns(key, p))
      ensures Decode(root) == if best < 0 then Internal(internal) else old(Decode(root))
    {
      hide Packed, Turns, Before, Synced, Grown, LinkedIn, Displaced, GetDirection, Splits;
      SlotsInUse(m, internal, newPointer);
      DirectionIsBit(key, p);
      var dir := GetDirection(key, critbit);
      ghost var made := FillSlots(key, value, internal, newPointer, critbit, p, dir == 0, pointer, m);
      var stop := Bubble(ancestors, critbit, p, made, internal + 1, newPointer + 1);
      best := stop;
      m' := Wire(internal, newPointer, dir == 0, pointer, ancestors, path, stop, made);
      GrownInSteps(m, made, internal, newPointer, p, Entry(key, value), Displaced(Decode(pointer), ancestors, best), Above(ancestors, best),
                   best >= 0 && path[best], Turns(key, p),
                   if dir == 0 then Pair(External(newPointer), Decode(pointer)) else Pair(Decode(pointer), External(newPointer)));
    }

    /** Fills the slots of a new key; the inner slot is not wired in yet. */
    method FillSlots(key: Key, value: V, internal: nat, newPointer: nat, critbit: nat, ghost p: Pos, left: bool, pointer: int, ghost m: Nodes<V>)
      returns (ghost m': Nodes<V>)
      requires Synced(m, internal, newPointer) && internal < capacity - 1 && newPointer < capacity
      requires critbit == Packed(p) && p.bit <= EXISTS
      modifies keys, values, lefts, rights, critbits
      ensures Synced(m', internal + 1, newPointer + 1)
      ensures m' == Memory(m.links[internal := if left then Pair(External(newPointer), Decode(pointer)) else Pair(Decode(pointer), External(newPointer))],
                           m.crits[internal := p], m.entries[newPointer := Entry(key, value)])
    {
      hide Packed, Synced;
      m' := FillKey(key, value, internal, newPointer, m);
      m' := FillInner(internal, newPointer, critbit, p, left, pointer, m');
    }

    method FillKey(key: Key, value: V, internal: nat, newPointer: nat, ghost m: Nodes<V>) returns (ghost m': Nodes<V>)
      requires Synced(m, internal, newPointer) && newPointer < capacity
      modifies keys, values
      ensures Synced(m', internal, newPointer + 1) && m' == m.(entries := m.entries[newPointer := Entry(key, value)])
    {
      hide Packed, Decode;
      keys[newPointer] := key;
      values[newPointer] := value;
      m' := m.(entries := m.entries[newPointer := Entry(key, value)]);
    }

    static lemma DecodeOuter(j: nat)
      ensures Decode(-(j + 1)) == External(j)
    {
    }

    method FillInner(internal: nat, newPointer: nat, critbit: nat, ghost p: Pos, left: bool, pointer: int, ghost m: Nodes<V>)
      returns (ghost m': Nodes<V>)
      requires Synced(m, internal, newPointer + 1) && internal < capacity - 1
      requires critbit == Packed(p) && p.bit <= EXISTS
      modifies lefts, rights, critbits
      ensures Synced(m', internal + 1, newPointer + 1)
      ensures m' == Memory(m.links[internal := if left then Pair(External(newPointer), Decode(pointer)) else Pair(Decode(pointer), External(newPointer))],
                           m.crits[internal := p], m.entries)
    {
      hide Packed, Decode;
      DecodeOuter(newPointer);
      critbits[internal] := critbit;
      if left {
        lefts[internal] := -(newPointer + 1);
        rights[internal] := pointer;
      } else {
        rights[internal] := -(newPointer + 1);
        lefts[internal] := pointer;
      }
      m' := Memory(m.links[internal := if left then Pair(External(newPointer), Decode(pointer)) else Pair(Decode(pointer), External(newPointer))],
                   m.crits[internal := p], m.entries);
    }

    /** The last ancestor whose critical bit is not past the given one, or -1. */
    method Bubble(ancestors: seq<nat>, critbit: nat, ghost p: Pos, ghost m: Nodes<V>, ghost inner: nat, ghost outer: nat) returns (best: int)
      requires Synced(m, inner, outer) && critbit == Packed(p) && p.bit <= EXISTS
      requires forall j :: 0 <= j < |ancestors| ==> ancestors[j] in m.links && ancestors[j] in m.crits
      ensures -1 <= best < |ancestors|
      ensures best >= 0 ==> !Before(p, m.crits[ancestors[best]])
      ensures best + 1 < |ancestors| ==> Before(p, m.crits[ancestors[best + 1]])
    {
      hide Packed, Synced, Before;
      best := -1;
      var i := |ancestors| - 1;
      while i >= 0
        invariant -1 <= i < |ancestors|
        invariant i + 1 < |ancestors| ==> Before(p, m.crits[ancestors[i + 1]])
      {
        var ancestor := ancestors[i];
        SlotHeld(m, inner, outer, ancestor);
        PackedOrder(p, m.crits[ancestor]);
        if !PastBit(critbits[ancestor], critbit) {
          return i;
        }
        i := i - 1;
      }
    }

    /** Turns one pointer of an inner slot. */
    method Link(slot: nat, right: bool, pointer: int, ghost m: Nodes<V>, ghost inner: nat, ghost outer: nat) returns (ghost m': Nodes<V>)
      requires Synced(m, inner, outer) && slot in m.links
      modifies lefts, rights
      ensures m' == Relinked(m, slot, right, Decode(pointer)) && m'.links.Keys == m.links.Keys && Synced(m', inner, outer)
    {
      hide Packed;
      if right {
        rights[slot] := pointer;
      } else {
        lefts[slot] := pointer;
      }
      m' := Relinked(m, slot, right, Decode(pointer));
    }

    /** Wires a new inner slot in below ancestor `best`. */
    method Wire(internal: nat, newPointer: nat, left: bool, pointer: int, ancestors: seq<nat>, path: seq<bool>, best: int, ghost m: Nodes<V>)
      returns (ghost m': Nodes<V>)
      requires Synced(m, internal + 1, newPointer + 1) && -1 <= best < |ancestors| == |path|
      requires internal in m.links && internal !in ancestors && forall j :: 0 <= j < |ancestors| ==> ancestors[j] in m.links
      requires m.links[internal] == if left then Pair(External(newPointer), Decode(pointer)) else Pair(Decode(pointer), External(newPointer))
      modifies this`root, lefts, rights
      ensures Synced(m', internal + 1, newPointer + 1)
      ensures m' == m.(links := LinkedIn(m.links, internal,
                if left then Pair(External(newPointer), Displaced(Decode(pointer), ancestors, best)) else Pair(Displaced(Decode(pointer), ancestors, best), External(newPointer)),
                Above(ancestors, best), best >= 0 && path[best]))
      ensures Decode(root) == if best < 0 then Internal(internal) else old(Decode(root))
    {
      hide Synced, Relinked, LinkedIn;
      ghost var pair := m.links[internal];
      m' := m;
      assert m == m.(links := m.links[internal := pair]);
      var l := |ancestors|;
      // Do we need to attach to the root?
      if best < 0 {
        CritBitMemory.NothingAbove(m.links, internal);
        root := internal + 1;
        // Need to rewire parent as child?
        if l > 0 {
          LinkAgain(m, internal, pair, left, Internal(ancestors[0]));
          m' := Link(internal, left, ancestors[0] + 1, m, internal + 1, newPointer + 1);
        }
      }
      // Simple case without rotation
      else if best == l - 1 {
        LinkAbove(m, internal, pair, ancestors[best], path[best]);
        m' := Link(ancestors[best], path[best], internal + 1, m, internal + 1, newPointer + 1);
      }
      // Full rotation
      else {
        LinkAbove(m, internal, pair, ancestors[best], path[best]);
        m' := Link(ancestors[best], path[best], internal + 1, m, internal + 1, newPointer + 1);
        m' := Link(internal, left, ancestors[best + 1] + 1, m', internal + 1, newPointer + 1);
      }
    }

    method SetFirst(key: Key, value: V)
      requires Sound() && size == 0
      modifies this, keys, values
      ensures Sound() && Looked(Shape(), key) == Some(value) && contents == old(contents)[key := value]
      ensures old(Valid()) ==> Valid() && Distinguishable(key, old(contents))
    {
      hide Synced, Packed;
      SlotsInUse(memory, offset, size);
      ghost var m := FillKey(key, value, 0, 0, memory);
      size := size + 1;
      root := -1;
      Become(Leaf(0), contents[key := value], m);
    }

    method Overwrite(slot: nat, key: Key, value: V, ghost ancestors: seq<nat>, ghost path: seq<bool>)
      requires Sound() && tree.Some? && Reached(tree.value, Decode(root), memory, path, ancestors, External(slot))
      requires OnPath(Shape().value, path) && Leads(Shape().value, path, key)
      requires slot in memory.entries && memory.entries[slot].key == key
      modifies this`tree, this`contents, this`memory, values
      ensures Sound() && Looked(Shape(), key) == Some(value) && contents == old(contents)[key := value]
      ensures old(Valid()) ==> Valid() && key in old(contents)
    {
      hide Reached, Linked, Apart, Leads, Synced, Packed, Represents, Lookup;
      ghost var t, m, v, valid, held := tree.value, memory, Shape().value, Valid(), contents;
      LinkedNodes(t, Decode(root), m);
      ReachedNode(t, Decode(root), m, path, ancestors, External(slot));
      ReachedLeaf(t, Decode(root), m, path, ancestors, External(slot));
      ghost var m' := m.(entries := m.entries[slot := Entry(key, value)]);
      OverwrittenView(t, Decode(root), m, m', path, slot);
      StoreValue(slot, value, m);
      Become(t, contents[key := value], m');
      LeafReplaced(v, path, key, value);
      if valid {
        OverwriteJudged(v, held, path, key, value);
      }
    }

    static lemma LeafReplaced(t: CritTree<V>, path: seq<bool>, key: Key, value: V)
      requires OnPath(t, path) && Leads(t, path, key)
      ensures Looked(Some(Replaced(t, path, Leaf(Entry(key, value)))), key) == Some(value)
    {
      LookupReplaced(t, path, Leaf(Entry(key, value)), key);
    }

    static lemma OverwriteJudged(t: CritTree<V>, contents: map<Key, V>, path: seq<bool>, key: Key, value: V)
      requires Represents(Some(t), contents) && OnPath(t, path) && SubAt(t, path).Leaf? && SubAt(t, path).e.key == key
      ensures key in contents && Represents(Some(Replaced(t, path, Leaf(Entry(key, value)))), contents[key := value])
      ensures |contents[key := value]| == |contents|
    {
      hide Good, Contents;
      OverwriteIsGood(t, path, key, value);
      InBytesAfterSet(t, path, Leaf(Entry(key, value)));
      assert contents[key := value].Keys == contents.Keys;
    }

    method StoreValue(slot: nat, value: V, ghost m: Nodes<V>)
      requires Synced(m, offset, size) && slot in m.entries
      modifies values
      ensures slot in m.entries && Synced(m.(entries := m.entries[slot := Entry(m.entries[slot].key, value)]), offset, size)
    {
      hide Packed;
      values[slot] := value;
    }

    /** Visits the leaves from left to right, and so the entries in key order unless keys have been lost; the log is what the callback is given. */
    method ForEach() returns (log: seq<Entry<V>>)
      requires Sound()
      ensures log == Visits(Shape())
      ensures Valid() ==> Ascending(log) && Lists(log, contents) && |log| == size
      ensures Valid() ==> forall i :: 0 <= i < |log| ==> log[i].key in contents && contents[log[i].key] == log[i].value
      ensures Valid() ==> forall k :: k in contents ==> exists i :: 0 <= i < |log| && log[i].key == k
      ensures Valid() ==> forall i, j :: 0 <= i < j < |log| ==> Less(log[i].key, log[j].key)
    {
      hide Linked, Apart, Good, Ascending, Lists, Holds, Synced, Less, Rest, Visits;
      log := Traverse();
      if Valid() {
        HoldsContents();
        ListsInOrder(tree, Decode(root), memory, contents, log);
        Listed(log, contents);
      }
    }

    /** Walks the tree from left to right with a stack of the nodes still to come back to. */
    method Traverse() returns (log: seq<Entry<V>>)
      requires Sound()
      ensures log == Visits(Shape()) && log == Rest(tree, [], memory)
    {
      hide Linked, Apart, Good, At, Rest, Work, LeftOf, RightOf, Synced;
      var current, stack: seq<int> := root, [];
      ghost var m, cur, todo: seq<Tree<nat, nat>>, pointers: seq<Pointer> := memory, tree, [], [];
      log := [];
      TraversalStarts(tree, Decode(root), m);
      while true
        invariant m == memory && At(cur, todo, Decode(current), pointers, m)
        invariant |stack| == |pointers| && forall j :: 0 <= j < |stack| ==> pointers[j] == Decode(stack[j])
        invariant log + Rest(cur, todo, m) == Rest(tree, [], m)
        decreases Work(cur, todo)
      {
        if current != 0 {
          Descends(cur, todo, Decode(current), pointers, m);
          ghost var t := cur.value;
          cur, todo, pointers := LeftOf(t), todo + [t], pointers + [Decode(current)];
          stack := stack + [current];
          current := LeftPointer(current, m);
        } else if |stack| > 0 {
          Ascends(cur, todo, Decode(current), pointers, m);
          ghost var t := todo[|todo| - 1];
          current, stack := stack[|stack| - 1], stack[..|stack| - 1];
          cur, todo, pointers := RightOf(t), todo[..|todo| - 1], pointers[..|pointers| - 1];
          if current < 0 {
            EntryHeld(m, offset, size, -current - 1);
            log := log + [Entry(keys[-current - 1], values[-current - 1])];
          }
          current := RightPointer(current, m);
        } else {
          NothingLeft(cur, todo, Decode(current), pointers, m);
          break;
        }
      }
      TraversalEnds(tree, Decode(root), m, log);
    }

    method LeftPointer(current: int, ghost m: Nodes<V>) returns (left: int)
      requires Synced(m, offset, size) && (current > 0 ==> current - 1 in m.links)
      ensures Decode(left) == if current > 0 then m.links[current - 1].left else Null
    {
      hide Packed;
      if current > 0 {
        SlotHeld(m, offset, size, current - 1);
      }
      left := if current > 0 then lefts[current - 1] else 0;
    }

    method RightPointer(current: int, ghost m: Nodes<V>) returns (right: int)
      requires Synced(m, offset, size) && (current > 0 ==> current - 1 in m.links)
      ensures Decode(right) == if current > 0 then m.links[current - 1].right else Null
    {
      hide Packed;
      if current > 0 {
        SlotHeld(m, offset, size, current - 1);
      }
      right := if current > 0 then rights[current - 1] else 0;
    }

    lemma HoldsContents()
      requires Valid()
      ensures if tree.Some? then Holds(tree.value, Decode(root), memory, contents) else contents == map[]
    {
      hide Good, Contents, Linked, Apart, Synced;
    }

    lemma ShapeIsOfContents()
      requires Valid()
      ensures ShapeOf(Shape(), contents)
    {
      hide Good, Contents, Linked, Apart, Synced;
    }

    /** The array map and the growable map with the same contents have the same tree. */
    static lemma SameShapeAsGrowable(a: FixedCritBitTreeMap<V>, b: CritBitTreeMaps.CritBitTreeMap<V>)
      requires a.Valid() && b.Valid() && a.contents == b.contents
      ensures a.Shape() == b.Shape()
    {
      a.ShapeIsOfContents();
      b.ShapeIsOfContents();
      ShapeIsUnique(a.Shape(), b.Shape(), a.contents);
    }

    /** The array map and the growable map with the same contents visit the same entries in the same order. */
    static method SameVisits(a: FixedCritBitTreeMap<V>, b: CritBitTreeMaps.CritBitTreeMap<V>) returns (log: seq<Entry<V>>, log': seq<Entry<V>>)
      requires a.Valid() && b.Valid() && a.contents == b.contents
      ensures log == log' && Lists(log, a.contents)
    {
      hide Less, Ascending, Lists, Visits, Represents;
      SameShapeAsGrowable(a, b);
      log := a.ForEach();
      log' := b.ForEach();
    }
  }

  lemma EmptyAndNul<V>(value: V)
    ensures Distinguishable<V>([], map[]) && !Distinguishable([0], map[[] := value])
  {
    assert NulExtends([], [0]);
  }

  /** Setting the empty key and then a lone NUL byte loses the empty key. */
  method EmptyKeyIsLost<V(0)>(first: V, second: V) returns (found: Option<V>, other: Option<V>)
    ensures found == None && other == Some(second)
  {
    hide *;
    var map' := new FixedCritBitTreeMap<V>(2);
    EmptyAndNul(first);
    map'.SizeOfValid();
    map'.Set([], first);
    map'.SizeOfValid();
    map'.Set([0], second);
    found := map'.Get([]);
    other := map'.Get([0]);
  }
}
