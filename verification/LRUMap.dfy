/** The least-recently-used map: a doubly linked list in two pointer arrays beside a key index. */
module LRUMaps {
  import opened Options
  import opened Permutations
  import opened IndexSets

  datatype Entry<K, V> = Entry(key: K, value: V)

  /** What SetPop reports: an overwritten or an evicted entry. */
  datatype Popped<K, V> = Overwritten(key: K, value: V) | Evicted(key: K, value: V)

  // ----- The recency list -----

  predicate HasKey<K(==), V>(list: seq<Entry<K, V>>, key: K) {
    exists i :: 0 <= i < |list| && list[i].key == key
  }

  /** Where the key is in the list. */
  function IndexOf<K(==), V>(list: seq<Entry<K, V>>, key: K): (i: nat)
    requires HasKey(list, key)
    ensures i < |list| && list[i].key == key
  {
    if list[0].key == key then 0 else IndexOf(list[1..], key) + 1
  }

  function ToFront<T>(s: seq<T>, i: nat): seq<T>
    requires i < |s|
  {
    [s[i]] + Without(s, i)
  }

  /** The list after a lookup: the entry found comes first. */
  function Touched<K(==), V>(list: seq<Entry<K, V>>, key: K): seq<Entry<K, V>> {
    if HasKey(list, key) then ToFront(list, IndexOf(list, key)) else list
  }

  /** The list after storing: the entry comes first; a full list drops its last entry for a new key. */
  function Stored<K(==), V>(list: seq<Entry<K, V>>, key: K, value: V, capacity: nat): seq<Entry<K, V>>
    requires capacity > 0
  {
    if HasKey(list, key) then [Entry(key, value)] + Without(list, IndexOf(list, key))
    else [Entry(key, value)] + if |list| < capacity then list else list[..capacity - 1]
  }

  ghost predicate DistinctKeys<K, V>(list: seq<Entry<K, V>>) {
    forall i, j :: 0 <= i < j < |list| ==> list[i].key != list[j].key
  }

  lemma {:induction false} IndexIsUnique<K, V>(list: seq<Entry<K, V>>, i: nat)
    requires DistinctKeys(list) && i < |list|
    ensures HasKey(list, list[i].key) && IndexOf(list, list[i].key) == i
  {
    if i > 0 {
      assert list[1..][i - 1] == list[i] && list[0].key != list[i].key;
      IndexIsUnique(list[1..], i - 1);
    }
  }

  /** A lookup moves the entry of the key, if there is one, in front of the others. */
  lemma TouchedIs<K, V>(list: seq<Entry<K, V>>, key: K)
    requires DistinctKeys(list)
    ensures forall i :: 0 <= i < |list| && list[i].key == key ==>
              HasKey(list, key) && i == IndexOf(list, key) && Touched(list, key) == [list[i]] + list[..i] + list[i + 1..]
    ensures (forall i :: 0 <= i < |list| ==> list[i].key != key) ==> !HasKey(list, key) && Touched(list, key) == list
  {
    hide IndexOf, Touched;
    forall i | 0 <= i < |list| && list[i].key == key
      ensures HasKey(list, key) && i == IndexOf(list, key) && Touched(list, key) == [list[i]] + list[..i] + list[i + 1..]
    {
      IndexIsUnique(list, i);
      TouchedFound(list, key);
      FrontAt(list, i, list[i]);
    }
    if !HasKey(list, key) {
      TouchedMissing(list, key);
    }
  }

  lemma FrontAt<T>(s: seq<T>, i: nat, x: T)
    requires i < |s|
    ensures [x] + Without(s, i) == [x] + s[..i] + s[i + 1..]
  {
  }

  lemma TouchedMissing<K, V>(list: seq<Entry<K, V>>, key: K)
    requires !HasKey(list, key)
    ensures Touched(list, key) == list
  {
  }

  lemma TouchedFound<K, V>(list: seq<Entry<K, V>>, key: K)
    requires HasKey(list, key)
    ensures Touched(list, key) == ToFront(list, IndexOf(list, key))
  {
  }

  /** A store puts the entry in front; the key's old entry goes, and when there is none and no room the last one. */
  lemma StoredIs<K, V>(list: seq<Entry<K, V>>, key: K, value: V, capacity: nat)
    requires DistinctKeys(list) && capacity > 0
    ensures forall i :: 0 <= i < |list| && list[i].key == key ==>
              HasKey(list, key) && i == IndexOf(list, key)
              && Stored(list, key, value, capacity) == [Entry(key, value)] + list[..i] + list[i + 1..]
    ensures (forall i :: 0 <= i < |list| ==> list[i].key != key) ==>
              !HasKey(list, key)
              && Stored(list, key, value, capacity) == [Entry(key, value)] + if |list| < capacity then list else list[..capacity - 1]
  {
    hide IndexOf, Stored;
    forall i | 0 <= i < |list| && list[i].key == key
      ensures HasKey(list, key) && i == IndexOf(list, key)
      ensures Stored(list, key, value, capacity) == [Entry(key, value)] + list[..i] + list[i + 1..]
    {
      IndexIsUnique(list, i);
      StoredCases(list, key, value, capacity);
      FrontAt(list, i, Entry(key, value));
    }
    StoredCases(list, key, value, capacity);
  }

  lemma StoredCases<K, V>(list: seq<Entry<K, V>>, key: K, value: V, capacity: nat)
    requires capacity > 0
    ensures Stored(list, key, value, capacity) == [Entry(key, value)] +
              if HasKey(list, key) then Without(list, IndexOf(list, key)) else if |list| < capacity then list else list[..capacity - 1]
  {
  }

  // ----- The pointer arrays -----

  /** Going forward from the head visits the slots in this order and ends at the tail; going backward
      from the tail visits them the other way round. What the tail's forward and the head's backward
      pointers hold does not matter. */
  ghost predicate Chained(order: seq<nat>, forward: seq<nat>, backward: seq<nat>, head: nat, tail: nat) {
    && |forward| == |backward| > 0 && |order| <= |forward|
    && Distinct(order) && (forall i :: 0 <= i < |order| ==> order[i] < |order|)
    && (forall p :: 0 <= p < |forward| ==> forward[p] < |forward| && backward[p] < |forward|)
    && (forall i :: 0 <= i < |order| - 1 ==> forward[order[i]] == order[i + 1] && backward[order[i + 1]] == order[i])
    && (if order == [] then head == tail == 0 else head == order[0] && tail == order[|order| - 1])
  }

  lemma StepForward(order: seq<nat>, forward: seq<nat>, backward: seq<nat>, head: nat, tail: nat, i: nat)
    requires Chained(order, forward, backward, head, tail) && i + 1 < |order|
    ensures order[i] < |forward| && forward[order[i]] == order[i + 1]
  {
  }

  /** A new slot goes in front. */
  lemma ChainGrows(order: seq<nat>, forward: seq<nat>, backward: seq<nat>, head: nat, tail: nat)
    requires Chained(order, forward, backward, head, tail) && |order| < |forward|
    ensures var p := |order|;
            head < |forward| && Chained([p] + order, forward[p := head], backward[head := p], p, tail)
  {
    var p, order' := |order|, [|order|] + order;
    forall i, j | 0 <= i < j < |order'|
      ensures order'[i] != order'[j]
    {
      if i > 0 {
        assert order[i - 1] != order[j - 1];
      }
    }
    forall i | 0 <= i < |order'| - 1
      ensures forward[p := head][order'[i]] == order'[i + 1] && backward[head := p][order'[i + 1]] == order'[i]
    {
      if i > 0 {
        assert order'[i] == order[i - 1] && order'[i + 1] == order[i] && order[0] != order[i];
      }
    }
  }

  /** The last slot is used again, in front. */
  lemma ChainTurns(order: seq<nat>, forward: seq<nat>, backward: seq<nat>, head: nat, tail: nat)
    requires Chained(order, forward, backward, head, tail) && |order| == |forward|
    ensures var n := |order| - 1;
            && head < |forward| && tail < |forward| && tail == order[n]
            && Chained([tail] + order[..n], forward[tail := head], backward[head := tail], tail, backward[tail])
  {
    var n := |order| - 1;
    var order' := [tail] + order[..n];
    assert order[n] == tail;
    if n == 0 {
      assert order' == order && backward[tail] == 0;
    } else {
      assert backward[order[n]] == order[n - 1];
    }
    forall i, j | 0 <= i < j < |order'|
      ensures order'[i] != order'[j]
    {
      assert i > 0 ==> order[i - 1] != order[j - 1];
      assert order[n] != order[j - 1];
    }
    forall i | 0 <= i < |order'| - 1
      ensures forward[tail := head][order'[i]] == order'[i + 1] && backward[head := tail][order'[i + 1]] == order'[i]
    {
      if i > 0 {
        assert order'[i] == order[i - 1] && order'[i + 1] == order[i] && order[0] != order[i] && order[i - 1] != order[n];
      }
    }
  }

  /** What moving a slot to the front makes of the arrays, unless it is in front already. */
  ghost predicate Splayed(order: seq<nat>, forward: seq<nat>, backward: seq<nat>, head: nat, tail: nat, i: nat,
                          forward': seq<nat>, backward': seq<nat>, tail': nat)
  {
    && 0 < i < |order| && order[i] < |forward| == |backward| && forward[order[i]] < |forward| && backward[order[i]] < |forward| && head < |forward|
    && var p, previous, next := order[i], backward[order[i]], forward[order[i]];
       && tail' == (if tail == p then previous else tail)
       && forward' == forward[previous := next][p := head]
       && backward' == (if tail == p then backward else backward[next := previous])[head := p]
  }

  lemma ChainSplays(order: seq<nat>, forward: seq<nat>, backward: seq<nat>, head: nat, tail: nat, i: nat,
                    forward': seq<nat>, backward': seq<nat>, tail': nat)
    requires Chained(order, forward, backward, head, tail)
    requires Splayed(order, forward, backward, head, tail, i, forward', backward', tail')
    ensures Chained(ToFront(order, i), forward', backward', order[i], tail')
  {
    var n, order' := |order|, ToFront(order, i);
    DistinctToFront(order, i);
    SplayedRange(order, forward, backward, head, tail, i, forward', backward', tail');
    hide Splayed, Distinct, ToFront;
    forall j | 0 <= j < n - 1
      ensures forward'[order'[j]] == order'[j + 1] && backward'[order'[j + 1]] == order'[j]
    {
      SplayedAt(order, forward, backward, head, tail, i, forward', backward', tail', j);
    }
  }

  lemma DistinctToFront(order: seq<nat>, i: nat)
    requires i < |order| && Distinct(order)
    ensures |ToFront(order, i)| == |order| && Distinct(ToFront(order, i)) && ToFront(order, i)[0] == order[i]
    ensures forall x :: x in ToFront(order, i) <==> x in order
    ensures i > 0 ==> ToFront(order, i)[|order| - 1] == if i == |order| - 1 then order[i - 1] else order[|order| - 1]
  {
    var order' := ToFront(order, i);
    WithoutMembers(order, i);
    forall j | 0 < j < |order|
      ensures order'[j] == order[if j <= i then j - 1 else j]
    {
    }
    forall j, k | 0 <= j < k < |order|
      ensures order'[j] != order'[k]
    {
    }
  }

  /** All pointers stay in range, and the new tail is the last slot. */
  lemma SplayedRange(order: seq<nat>, forward: seq<nat>, backward: seq<nat>, head: nat, tail: nat, i: nat,
                     forward': seq<nat>, backward': seq<nat>, tail': nat)
    requires Chained(order, forward, backward, head, tail)
    requires Splayed(order, forward, backward, head, tail, i, forward', backward', tail')
    ensures |forward'| == |backward'| == |forward|
    ensures forall p :: 0 <= p < |forward| ==> forward'[p] < |forward| && backward'[p] < |forward|
    ensures tail' == if i == |order| - 1 then order[i - 1] else order[|order| - 1]
  {
    assert forward[order[i - 1]] == order[i] && backward[order[i]] == order[i - 1];
  }

  lemma SplayedAt(order: seq<nat>, forward: seq<nat>, backward: seq<nat>, head: nat, tail: nat, i: nat,
                  forward': seq<nat>, backward': seq<nat>, tail': nat, j: nat)
    requires Chained(order, forward, backward, head, tail) && j + 1 < |order|
    requires Splayed(order, forward, backward, head, tail, i, forward', backward', tail')
    ensures var order' := ToFront(order, i);
            order'[j] < |forward'| && order'[j + 1] < |backward'| && forward'[order'[j]] == order'[j + 1] && backward'[order'[j + 1]] == order'[j]
  {
    var n, order' := |order|, ToFront(order, i);
    assert backward[order[i]] == order[i - 1];
    if i < n - 1 {
      assert forward[order[i]] == order[i + 1];
    }
    if j == 0 {
      assert order'[1] == order[0] == head && order[i] != order[0];
    } else {
      var a, b := if j <= i then j - 1 else j, if j + 1 <= i then j else j + 1;
      assert order'[j] == order[a] && order'[j + 1] == order[b];
      assert order[a] != order[i] && order[b] != order[i] && order[b] != order[0];
    }
  }

  // ----- The map -----

  class LRUMap<K(0,==), V(0)> {
    const capacity: nat
    /** What counts as true where the source tests a key as a condition. */
    const truthy: K -> bool
    const forward: array<nat>
    const backward: array<nat>
    const keys: array<K>
    const values: array<V>
    var size: nat
    var head: nat
    var tail: nat
    var items: map<K, nat>
    ghost var order: seq<nat>

    ghost predicate Separate() {
      && capacity > 0 && forward.Length == backward.Length == keys.Length == values.Length == capacity
      && forward != backward
      && keys as object != forward && keys as object != backward
      && values as object != forward && values as object != backward && values as object != keys
    }

    ghost predicate Valid()
      reads this, forward, backward, keys, values
    {
      && Separate()
      && Chained(order, forward[..], backward[..], head, tail)
      && |order| == size
      && Indexed(items, keys[..], size)
    }

    /** The recency list: the entries from most to least recently used. */
    ghost function Recency(): (list: seq<Entry<K, V>>)
      reads this, forward, backward, keys, values
      requires Valid()
    {
      ListOf(order, keys[..], values[..])
    }

    constructor (capacity: nat, truthy: K -> bool)
      requires capacity > 0
      ensures Valid() && Recency() == [] && this.capacity == capacity && this.truthy == truthy
      ensures fresh(forward) && fresh(backward) && fresh(keys) && fresh(values)
    {
      this.capacity := capacity;
      this.truthy := truthy;
      forward := new nat[capacity](_ => 0);
      backward := new nat[capacity](_ => 0);
      keys := new K[capacity];
      values := new V[capacity];
      size, head, tail := 0, 0, 0;
      items := map[];
      order := [];
    }

    method Clear()
      requires Valid()
      modifies this
      ensures Valid() && Recency() == []
    {
      size := 0;
      head := 0;
      tail := 0;
      items := map[];
      order := [];
    }

    /** Moves a slot to the front. */
    method SplayOnTop(pointer: nat, ghost i: nat)
      requires Valid() && i < |order| && order[i] == pointer
      modifies this`head, this`tail, this`order, forward, backward
      ensures Valid() && order == ToFront(old(order), i)
    {
      hide Indexed;
      ghost var f: seq<nat>, b: seq<nat>, h, t := forward[..], backward[..], head, tail;
      var oldHead := head;
      if head == pointer {
        FrontAlready(order, i);
        return;
      }
      InTheMiddle(order, f, b, h, t, i);
      var previous, next := backward[pointer], forward[pointer];
      if tail == pointer {
        tail := previous;
      } else {
        backward[next] := previous;
      }
      forward[previous] := next;
      backward[oldHead] := pointer;
      head := pointer;
      forward[pointer] := oldHead;
      assert forward[..] == f[previous := next][pointer := oldHead];
      assert backward[..] == (if t == pointer then b else b[next := previous])[oldHead := pointer];
      ChainSplays(order, f, b, h, t, i, forward[..], backward[..], tail);
      order := ToFront(order, i);
    }

    static lemma FrontAlready(order: seq<nat>, i: nat)
      requires i < |order| && Distinct(order) && order[i] == order[0]
      ensures ToFront(order, i) == order
    {
    }

    static lemma InTheMiddle(order: seq<nat>, forward: seq<nat>, backward: seq<nat>, head: nat, tail: nat, i: nat)
      requires Chained(order, forward, backward, head, tail) && i < |order| && order[i] != head
      ensures i > 0 && head < |forward| && order[i] < |forward| && backward[order[i]] < |forward| && forward[order[i]] < |forward|
    {
    }

    /** The key index and the recency list know the same keys, at matching places. */
    lemma Found(key: K) returns (i: nat)
      requires Valid()
      ensures key in items <==> HasKey(Recency(), key)
      ensures DistinctKeys(Recency()) && |Recency()| == size <= capacity && capacity > 0
      ensures key in items ==> i < |order| && order[i] == items[key] < size && i == IndexOf(Recency(), key)
    {
      hide Chained;
      Ordered();
      ListIsIndexed(order, items, keys[..], values[..], size);
      i := 0;
      if key in items {
        i := PlaceOf(order, items[key]);
        IndexIsUnique(Recency(), i);
      }
      forall j | 0 <= j < size
        ensures Recency()[j].key in items
      {
        assert keys[order[j]] in items;
      }
    }

    lemma Ordered()
      requires Valid()
      ensures Distinct(order) && |order| == size && (forall i :: 0 <= i < size ==> order[i] < size) && size <= capacity
    {
    }

    method Has(key: K) returns (found: bool)
      requires Valid()
      ensures found == HasKey(Recency(), key)
      ensures found <==> exists i :: 0 <= i < |Recency()| && Recency()[i].key == key
    {
      ghost var i := Found(key);
      found := key in items;
    }

    /** The value of a key; the list stays as it is. */
    method Peek(key: K) returns (value: Option<V>)
      requires Valid()
      ensures value == if HasKey(Recency(), key) then Some(Recency()[IndexOf(Recency(), key)].value) else None
      ensures forall i :: 0 <= i < |Recency()| && Recency()[i].key == key ==> value == Some(Recency()[i].value)
      ensures (forall i :: 0 <= i < |Recency()| ==> Recency()[i].key != key) ==> value == None
    {
      ghost var i := Found(key);
      TouchedIs(Recency(), key);
      if key !in items {
        return None;
      }
      return Some(values[items[key]]);
    }

    /** The value of a key, which comes first from now on. */
    method Get(key: K) returns (value: Option<V>)
      requires Valid()
      modifies this`head, this`tail, this`order, forward, backward
      ensures Valid() && Recency() == Touched(old(Recency()), key)
      ensures value == old(if HasKey(Recency(), key) then Some(Recency()[IndexOf(Recency(), key)].value) else None)
      ensures var list := old(Recency());
              forall i :: 0 <= i < |list| && list[i].key == key ==>
                value == Some(list[i].value) && Recency() == [list[i]] + list[..i] + list[i + 1..]
      ensures var list := old(Recency());
              (forall i :: 0 <= i < |list| ==> list[i].key != key) ==> value == None && Recency() == list
    {
      hide Chained, HasKey, IndexOf, Distinct, Touched, DistinctKeys;
      ghost var i := Found(key);
      TouchedIs(Recency(), key);
      if key !in items {
        return None;
      }
      var pointer := items[key];
      Ordered();
      ListToFront(order, keys[..], values[..], i);
      TouchedFound(Recency(), key);
      SplayOnTop(pointer, i);
      return Some(values[pointer]);
    }

    /** Stores a value; its key comes first. */
    method Set(key: K, value: V)
      requires Valid()
      modifies this, forward, backward, keys, values
      ensures Valid() && Recency() == Stored(old(Recency()), key, value, capacity)
      ensures var list := old(Recency());
              forall i :: 0 <= i < |list| && list[i].key == key ==> Recency() == [Entry(key, value)] + list[..i] + list[i + 1..]
      ensures var list := old(Recency());
              (forall i :: 0 <= i < |list| ==> list[i].key != key) ==>
                Recency() == [Entry(key, value)] + if |list| < capacity then list else list[..capacity - 1]
    {
      hide Valid, HasKey, IndexOf, Stored, DistinctKeys;
      ghost var i := Found(key);
      StoredIs(Recency(), key, value, capacity);
      // The key already exists, we just need to update the value and splay on top
      if key in items {
        var oldValue := Overwrite(key, value);
        return;
      }
      var full, oldKey, oldValue := Admit(key, value);
    }

    /** Stores a value and reports the entry overwritten or evicted, unless the key evicted is not truthy. */
    method SetPop(key: K, value: V) returns (popped: Option<Popped<K, V>>)
      requires Valid()
      modifies this, forward, backward, keys, values
      ensures Valid() && Recency() == Stored(old(Recency()), key, value, capacity)
      ensures var list := old(Recency());
              popped == if HasKey(list, key) then Some(Overwritten(key, list[IndexOf(list, key)].value))
                        else if |list| == capacity && truthy(list[capacity - 1].key) then Some(Evicted(list[capacity - 1].key, list[capacity - 1].value))
                        else None
      ensures var list := old(Recency());
              forall i :: 0 <= i < |list| && list[i].key == key ==>
                Recency() == [Entry(key, value)] + list[..i] + list[i + 1..] && popped == Some(Overwritten(key, list[i].value))
      ensures var list := old(Recency());
              (forall i :: 0 <= i < |list| ==> list[i].key != key) ==>
                && Recency() == [Entry(key, value)] + (if |list| < capacity then list else list[..capacity - 1])
                && popped == if |list| < capacity || !truthy(list[capacity - 1].key) then None
                             else Some(Evicted(list[capacity - 1].key, list[capacity - 1].value))
    {
      hide Valid, HasKey, IndexOf, Stored, DistinctKeys;
      ghost var i := Found(key);
      StoredIs(Recency(), key, value, capacity);
      // The key already exists, we just need to update the value and splay on top
      if key in items {
        var oldValue := Overwrite(key, value);
        return Some(Overwritten(key, oldValue));
      }
      var full, oldKey, oldValue := Admit(key, value);
      // Return object if eviction took place, otherwise return null
      if full && truthy(oldKey) {
        return Some(Evicted(oldKey, oldValue));
      }
      return None;
    }

    method Overwrite(key: K, value: V) returns (oldValue: V)
      requires Valid() && key in items
      modifies this`head, this`tail, this`order, forward, backward, values
      ensures Valid() && old(HasKey(Recency(), key)) && Recency() == Stored(old(Recency()), key, value, capacity)
      ensures oldValue == old(Recency()[IndexOf(Recency(), key)].value)
    {
      hide Chained, HasKey, IndexOf, Distinct, Indexed;
      ghost var i := Found(key);
      var pointer := items[key];
      Ordered();
      ListToFront(order, keys[..], values[..], i);
      SplayOnTop(pointer, i);
      oldValue := values[pointer];
      Ordered();
      FrontChanges(order, keys[..], values[..], key, value);
      ghost var before := values[..];
      values[pointer] := value;
      assert values[..] == before[pointer := value];
    }

    /** Stores an entry with a new key, dropping the last one when there is no room. */
    method Admit(key: K, value: V) returns (full: bool, oldKey: K, oldValue: V)
      requires Valid() && key !in items
      modifies this, forward, backward, keys, values
      ensures Valid() && !old(HasKey(Recency(), key)) && Recency() == Stored(old(Recency()), key, value, capacity)
      ensures full == (|old(Recency())| == capacity)
      ensures full ==> old(Recency())[capacity - 1] == Entry(oldKey, oldValue)
    {
      hide Chained, Indexed, HasKey, IndexOf, Distinct, Stored, DistinctKeys;
      ghost var i := Found(key);
      Ordered();
      InRange();
      StoredCases(Recency(), key, value, capacity);
      oldKey, oldValue := key, value;
      ghost var was, list := order, Recency();
      ListPrefix(was, keys[..], values[..]);
      var pointer;
      // The cache is not yet full
      if size < capacity {
        ChainGrows(order, forward[..], backward[..], head, tail);
        IndexedGrows(items, keys[..], size, key);
        Absent(was, size);
        pointer := size;
        size := size + 1;
        full := false;
      }
      // Cache is full, we need to drop the last value
      else {
        ChainTurns(order, forward[..], backward[..], head, tail);
        IndexedReplaced(items, keys[..], tail, key);
        Absent(was, was[size - 1]);
        pointer := tail;
        tail := backward[pointer];
        oldValue := values[pointer];
        oldKey := keys[pointer];
        items := items - {oldKey};
        full := true;
      }
      PutFront(key, value, pointer, if full then was[..capacity - 1] else was);
    }

    /** Fills a slot and puts it in front of the rest of the list. */
    method PutFront(key: K, value: V, pointer: nat, ghost rest: seq<nat>)
      requires Separate() && pointer < capacity && head < capacity && |rest| + 1 == size && pointer !in rest
      requires forall i :: 0 <= i < |rest| ==> rest[i] < capacity
      requires Indexed(items[key := pointer], keys[..][pointer := key], size)
      requires Chained([pointer] + rest, forward[..][pointer := head], backward[..][head := pointer], pointer, tail)
      modifies this`head, this`items, this`order, forward, backward, keys, values
      ensures Valid() && Recency() == [Entry(key, value)] + old(ListOf(rest, keys[..], values[..]))
    {
      hide Chained, Indexed;
      ghost var f, b, ks, vs, h := forward[..], backward[..], keys[..], values[..], head;
      ListWithFront(rest, pointer, ks, vs, key, value);
      // Storing key & value
      items := items[key := pointer];
      keys[pointer] := key;
      values[pointer] := value;
      // Moving the item at the front of the list
      forward[pointer] := head;
      backward[head] := pointer;
      head := pointer;
      order := [pointer] + rest;
      assert forward[..] == f[pointer := h] && backward[..] == b[h := pointer];
      assert keys[..] == ks[pointer := key] && values[..] == vs[pointer := value];
    }

    /** Visits the entries from most to least recently used; the log is what the callback is given. */
    method ForEach() returns (log: seq<Entry<K, V>>)
      requires Valid()
      ensures log == Recency()
    {
      var i, l, pointer := 0, size, head;
      log := [];
      while i < l
        invariant 0 <= i <= l && log == Recency()[..i] && (i < l ==> pointer == order[i])
      {
        log := log + [Entry(keys[pointer], values[pointer])];
        if i + 1 < l {
          StepForward(order, forward[..], backward[..], head, tail, i);
        }
        pointer := forward[pointer];
        i := i + 1;
      }
    }

    lemma InRange()
      requires Valid()
      ensures head < capacity && tail < capacity && forall p :: 0 <= p < capacity ==> backward[p] < capacity && forward[p] < capacity
    {
    }
  }

  // ----- Keys, slots and the list -----

  /** Every slot in use is indexed by its key, and nothing else is. */
  ghost predicate Indexed<K>(items: map<K, nat>, keys: seq<K>, size: nat) {
    && size <= |keys|
    && (forall k :: k in items ==> items[k] < size && keys[items[k]] == k)
    && (forall p :: 0 <= p < size ==> keys[p] in items && items[keys[p]] == p)
  }

  ghost function ListOf<K, V>(order: seq<nat>, keys: seq<K>, values: seq<V>): (list: seq<Entry<K, V>>)
    requires forall i :: 0 <= i < |order| ==> order[i] < |keys| && order[i] < |values|
    ensures |list| == |order| && forall i :: 0 <= i < |order| ==> list[i] == Entry(keys[order[i]], values[order[i]])
  {
    seq(|order|, i requires 0 <= i < |order| => Entry(keys[order[i]], values[order[i]]))
  }

  lemma ListIsIndexed<K, V>(order: seq<nat>, items: map<K, nat>, keys: seq<K>, values: seq<V>, size: nat)
    requires Indexed(items, keys, size) && |keys| == |values| && Distinct(order) && forall i :: 0 <= i < |order| ==> order[i] < size
    ensures DistinctKeys(ListOf(order, keys, values))
  {
    var list := ListOf(order, keys, values);
    forall i, j | 0 <= i < j < |list|
      ensures list[i].key != list[j].key
    {
      assert items[keys[order[i]]] == order[i] && items[keys[order[j]]] == order[j];
    }
  }

  /** All slots in use are in the list. */
  lemma PlaceOf(order: seq<nat>, p: nat) returns (i: nat)
    requires Distinct(order) && p < |order| && forall i :: 0 <= i < |order| ==> order[i] < |order|
    ensures i < |order| && order[i] == p
  {
    DistinctCovers(order, |order|);
    assert p in All(|order|);
    assert p in order;
    i :| 0 <= i < |order| && order[i] == p;
  }

  lemma ListToFront<K, V>(order: seq<nat>, keys: seq<K>, values: seq<V>, i: nat)
    requires i < |order| && forall j :: 0 <= j < |order| ==> order[j] < |keys| == |values|
    ensures forall j :: 0 <= j < |order| ==> ToFront(order, i)[j] < |keys|
    ensures ListOf(ToFront(order, i), keys, values) == ToFront(ListOf(order, keys, values), i)
  {
  }

  /** Overwriting the value of the first slot. */
  lemma FrontChanges<K, V>(order: seq<nat>, keys: seq<K>, values: seq<V>, key: K, value: V)
    requires order != [] && Distinct(order) && forall j :: 0 <= j < |order| ==> order[j] < |keys| == |values|
    requires keys[order[0]] == key
    ensures ListOf(order, keys, values[order[0] := value]) == [Entry(key, value)] + ListOf(order, keys, values)[1..]
  {
  }

  lemma IndexedGrows<K>(items: map<K, nat>, keys: seq<K>, size: nat, key: K)
    requires Indexed(items, keys, size) && size < |keys| && key !in items
    ensures Indexed(items[key := size], keys[size := key], size + 1)
  {
  }

  lemma IndexedReplaced<K>(items: map<K, nat>, keys: seq<K>, p: nat, key: K)
    requires Indexed(items, keys, |keys|) && p < |keys| && key !in items
    ensures Indexed((items - {keys[p]})[key := p], keys[p := key], |keys|)
  {
  }

  /** A slot beyond the used ones, or the last one, is not in the (rest of the) list. */
  lemma Absent(order: seq<nat>, p: nat)
    requires Distinct(order) && forall i :: 0 <= i < |order| ==> order[i] < |order|
    ensures p >= |order| ==> p !in order
    ensures order != [] && p == order[|order| - 1] ==> p !in order[..|order| - 1]
  {
  }

  lemma ListWithFront<K, V>(rest: seq<nat>, p: nat, keys: seq<K>, values: seq<V>, key: K, value: V)
    requires p !in rest && p < |keys| == |values| && forall i :: 0 <= i < |rest| ==> rest[i] < |keys|
    ensures ListOf([p] + rest, keys[p := key], values[p := value]) == [Entry(key, value)] + ListOf(rest, keys, values)
  {
    forall i | 0 <= i < |rest|
      ensures keys[p := key][rest[i]] == keys[rest[i]] && values[p := value][rest[i]] == values[rest[i]]
    {
      assert rest[i] in rest;
    }
  }

  lemma ListPrefix<K, V>(order: seq<nat>, keys: seq<K>, values: seq<V>)
    requires forall i :: 0 <= i < |order| ==> order[i] < |keys| == |values|
    ensures order != [] ==> ListOf(order[..|order| - 1], keys, values) == ListOf(order, keys, values)[..|order| - 1]
  {
  }
}
