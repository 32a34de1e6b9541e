/** What a least-recently-used map holds after a run of stores, told without the map. */
module LRURuns {
  import opened Options
  import opened Permutations
  import opened IndexSets
  import opened LRUMaps

  /** The first n entries, or all when there are fewer. */
  function FirstOnes<T>(s: seq<T>, n: nat): seq<T> {
    if |s| <= n then s else s[..n]
  }

  function OtherThan<K(==), V>(key: K): Entry<K, V> -> bool {
    (e: Entry<K, V>) => e.key != key
  }

  /** The last store of every key, latest first: what a map without bounds would remember. */
  function Latest<K(==), V>(stores: seq<Entry<K, V>>): seq<Entry<K, V>> {
    if stores == [] then []
    else
      var last := stores[|stores| - 1];
      [last] + Filter(OtherThan(last.key), Latest(stores[..|stores| - 1]))
  }

  /** The recency list after a run of stores into an empty map. */
  function AfterStores<K(==), V>(stores: seq<Entry<K, V>>, capacity: nat): seq<Entry<K, V>>
    requires capacity > 0
  {
    if stores == [] then []
    else
      var last := stores[|stores| - 1];
      Stored(AfterStores(stores[..|stores| - 1], capacity), last.key, last.value, capacity)
  }

  // ----- Storing and the entries it keeps -----

  lemma {:induction false} FilterNone<K, V>(list: seq<Entry<K, V>>, key: K)
    requires !HasKey(list, key)
    ensures Filter(OtherThan(key), list) == list
  {
    if list != [] {
      assert forall i :: 0 <= i < |list[1..]| ==> list[1..][i] == list[i + 1];
      FilterNone(list[1..], key);
      assert list == [list[0]] + list[1..];
    }
  }

  lemma {:induction false} FilterAt<K, V>(list: seq<Entry<K, V>>, i: nat)
    requires DistinctKeys(list) && i < |list|
    ensures Filter(OtherThan(list[i].key), list) == Without(list, i)
  {
    var rest := list[1..];
    assert forall j :: 0 <= j < |rest| ==> rest[j] == list[j + 1];
    if i == 0 {
      FilterNone(rest, list[0].key);
      assert Without(list, 0) == rest;
    } else {
      FilterAt(rest, i - 1);
      assert Without(list, i) == [list[0]] + Without(rest, i - 1);
    }
  }

  lemma FilterOthers<K, V>(list: seq<Entry<K, V>>, key: K)
    requires DistinctKeys(list)
    ensures Filter(OtherThan(key), list) == if HasKey(list, key) then Without(list, IndexOf(list, key)) else list
  {
    if HasKey(list, key) {
      FilterAt(list, IndexOf(list, key));
    } else {
      FilterNone(list, key);
    }
  }

  lemma FilterDistinct<K, V>(list: seq<Entry<K, V>>, key: K)
    requires DistinctKeys(list)
    ensures DistinctKeys(Filter(OtherThan(key), list)) && !HasKey(Filter(OtherThan(key), list), key)
  {
    FilterOthers(list, key);
    if HasKey(list, key) {
      WithoutDistinct(list, IndexOf(list, key));
    }
  }

  lemma WithoutDistinct<K, V>(list: seq<Entry<K, V>>, i: nat)
    requires DistinctKeys(list) && i < |list|
    ensures DistinctKeys(Without(list, i)) && !HasKey(Without(list, i), list[i].key)
  {
    var others := Without(list, i);
    forall j | 0 <= j < |others|
      ensures others[j] == list[if j < i then j else j + 1]
    {
    }
    hide Without;
  }

  lemma {:induction false} LatestDistinct<K, V>(stores: seq<Entry<K, V>>)
    ensures DistinctKeys(Latest(stores))
  {
    if stores != [] {
      var n := |stores| - 1;
      LatestDistinct(stores[..n]);
      FilterDistinct(Latest(stores[..n]), stores[n].key);
    }
  }

  /** Storing into the first entries of a longer list gives the first entries of what storing into that list gives. */
  lemma StoredOnFirst<K, V>(list: seq<Entry<K, V>>, key: K, value: V, capacity: nat)
    requires DistinctKeys(list) && capacity > 0
    ensures Stored(FirstOnes(list, capacity), key, value, capacity)
         == FirstOnes([Entry(key, value)] + Filter(OtherThan(key), list), capacity)
  {
    var first := FirstOnes(list, capacity);
    FilterOthers(list, key);
    FirstHas(list, key, capacity);
    if HasKey(first, key) {
      WithoutOfFirst(list, IndexOf(first, key), capacity);
    } else if HasKey(list, key) {
      WithoutBeyond(list, IndexOf(list, key), capacity);
    }
    hide HasKey, IndexOf, Without, DistinctKeys, Filter;
  }

  lemma InFirst<K, V>(list: seq<Entry<K, V>>, i: nat, capacity: nat)
    requires i < |FirstOnes(list, capacity)|
    ensures HasKey(FirstOnes(list, capacity), list[i].key)
  {
    assert FirstOnes(list, capacity)[i] == list[i];
  }

  /** Where a key is in the first entries of a list. */
  lemma FirstHas<K, V>(list: seq<Entry<K, V>>, key: K, capacity: nat)
    requires DistinctKeys(list)
    ensures var first := FirstOnes(list, capacity);
            if HasKey(first, key) then HasKey(list, key) && IndexOf(list, key) == IndexOf(first, key)
            else HasKey(list, key) ==> IndexOf(list, key) >= capacity
  {
    var first := FirstOnes(list, capacity);
    if HasKey(first, key) {
      var i := IndexOf(first, key);
      assert list[i] == first[i];
      IndexIsUnique(list, i);
    } else if HasKey(list, key) {
      var i := IndexOf(list, key);
      if i < |first| {
        InFirst(list, i, capacity);
      }
    }
  }

  lemma WithoutOfFirst<T>(list: seq<T>, i: nat, capacity: nat)
    requires i < |FirstOnes(list, capacity)|
    ensures Without(FirstOnes(list, capacity), i) == Without(list, i)[..|FirstOnes(list, capacity)| - 1]
  {
  }

  lemma WithoutBeyond<T>(list: seq<T>, i: nat, capacity: nat)
    requires 0 < capacity <= i < |list|
    ensures Without(list, i)[..capacity - 1] == list[..capacity - 1]
  {
  }

  /** After any run of stores the map holds the latest keys, as many as it has room for, latest first. */
  lemma {:induction false} HoldsTheLatest<K, V>(stores: seq<Entry<K, V>>, capacity: nat)
    requires capacity > 0
    ensures AfterStores(stores, capacity) == FirstOnes(Latest(stores), capacity)
  {
    if stores != [] {
      var n := |stores| - 1;
      HoldsTheLatest(stores[..n], capacity);
      LatestDistinct(stores[..n]);
      StoredOnFirst(Latest(stores[..n]), stores[n].key, stores[n].value, capacity);
    }
  }

  lemma AfterNone<K, V>(capacity: nat)
    requires capacity > 0
    ensures AfterStores<K, V>([], capacity) == []
  {
  }

  lemma AfterNext<K, V>(stores: seq<Entry<K, V>>, n: nat, capacity: nat)
    requires capacity > 0 && n < |stores|
    ensures AfterStores(stores[..n + 1], capacity) == Stored(AfterStores(stores[..n], capacity), stores[n].key, stores[n].value, capacity)
  {
    assert stores[..n + 1][..n] == stores[..n];
  }

  /** A run of stores into an empty map leaves it with the entries stored last. */
  method StoreAll<K(0,==), V(0)>(cache: LRUMap<K, V>, stores: seq<Entry<K, V>>)
    requires cache.Valid() && cache.Recency() == []
    modifies cache, cache.forward, cache.backward, cache.keys, cache.values
    ensures cache.Valid() && cache.Recency() == AfterStores(stores, cache.capacity)
    ensures cache.Recency() == FirstOnes(Latest(stores), cache.capacity)
  {
    hide AfterStores, Stored, Latest, FirstOnes;
    assert cache.capacity > 0;
    AfterNone<K, V>(cache.capacity);
    for n := 0 to |stores|
      invariant cache.Valid() && cache.Recency() == AfterStores(stores[..n], cache.capacity)
    {
      cache.Set(stores[n].key, stores[n].value);
      AfterNext(stores, n, cache.capacity);
    }
    assert stores[..|stores|] == stores;
    HoldsTheLatest(stores, cache.capacity);
  }

  /** A smaller map holds the first entries of what a larger one holds. */
  lemma SmallerHoldsFirst<K, V>(stores: seq<Entry<K, V>>, small: nat, large: nat)
    requires 0 < small <= large
    ensures AfterStores(stores, small) == FirstOnes(AfterStores(stores, large), small)
  {
    HoldsTheLatest(stores, small);
    HoldsTheLatest(stores, large);
  }

  // ----- Runs of stores and lookups -----

  datatype Use<K, V> = Store(key: K, value: V) | Lookup(key: K)

  /** Use n is the last of its key. */
  ghost predicate LastUse<K, V>(used: seq<Use<K, V>>, key: K, n: nat) {
    n < |used| && used[n].key == key && forall m :: n < m < |used| ==> used[m].key != key
  }

  /** Use n stored the value that the key has had since. */
  ghost predicate LastStore<K, V>(used: seq<Use<K, V>>, key: K, value: V, n: nat) {
    && n < |used| && used[n] == Store(key, value)
    && forall m :: n < m < |used| && used[m].key == key ==> used[m].Lookup?
  }

  ghost predicate HasValue<K, V>(used: seq<Use<K, V>>, key: K, value: V) {
    exists n :: LastStore(used, key, value, n)
  }

  /** Entries last used at these places, latest first, each with its last value. */
  ghost predicate LastUsed<K, V>(list: seq<Entry<K, V>>, used: seq<Use<K, V>>, at: seq<nat>) {
    && |at| == |list|
    && (forall i, j :: 0 <= i < j < |at| ==> at[i] > at[j])
    && (forall i :: 0 <= i < |list| ==> LastUse(used, list[i].key, at[i]) && HasValue(used, list[i].key, list[i].value))
  }

  /** What is not listed was last used before everything that is, and there is no room for it. */
  ghost predicate RestIsOlder<K, V>(list: seq<Entry<K, V>>, used: seq<Use<K, V>>, at: seq<nat>, capacity: nat) {
    forall n :: 0 <= n < |used| && !HasKey(list, used[n].key) ==> |list| == capacity && forall i :: 0 <= i < |at| ==> n < at[i]
  }

  /** The list holds the keys last used, as many as there is room for, latest first, each with its last value. */
  ghost predicate HoldsLastUsed<K, V>(list: seq<Entry<K, V>>, used: seq<Use<K, V>>, at: seq<nat>, capacity: nat) {
    |list| <= capacity && LastUsed(list, used, at) && RestIsOlder(list, used, at, capacity)
  }

  lemma UsedStays<K, V>(used: seq<Use<K, V>>, u: Use<K, V>, e: Entry<K, V>, n: nat)
    requires u.key != e.key && LastUse(used, e.key, n) && HasValue(used, e.key, e.value)
    ensures LastUse(used + [u], e.key, n) && HasValue(used + [u], e.key, e.value)
  {
    var s :| LastStore(used, e.key, e.value, s);
    assert LastStore(used + [u], e.key, e.value, s);
  }

  lemma UsedLast<K, V>(used: seq<Use<K, V>>, u: Use<K, V>, e: Entry<K, V>)
    requires u.key == e.key && if u.Store? then u.value == e.value else HasValue(used, e.key, e.value)
    ensures LastUse(used + [u], e.key, |used|) && HasValue(used + [u], e.key, e.value)
  {
    if u.Store? {
      assert LastStore(used + [u], e.key, e.value, |used|);
    } else {
      var s :| LastStore(used, e.key, e.value, s);
      assert LastStore(used + [u], e.key, e.value, s);
    }
  }

  /** The entry just used comes before others that were last used in that order. */
  lemma UsedFirst<K, V>(first: Entry<K, V>, rest: seq<Entry<K, V>>, used: seq<Use<K, V>>, u: Use<K, V>, at: seq<nat>)
    requires LastUsed(rest, used, at) && !HasKey(rest, u.key) && u.key == first.key
    requires if u.Store? then u.value == first.value else HasValue(used, first.key, first.value)
    ensures LastUsed([first] + rest, used + [u], [|used|] + at)
  {
    var list', used', at' := [first] + rest, used + [u], [|used|] + at;
    forall j | 0 <= j < |list'|
      ensures LastUse(used', list'[j].key, at'[j]) && HasValue(used', list'[j].key, list'[j].value)
    {
      if j == 0 {
        UsedLast(used, u, first);
      } else {
        assert list'[j] == rest[j - 1];
        UsedStays(used, u, rest[j - 1], at[j - 1]);
      }
    }
    forall i, j | 0 <= i < j < |at'|
      ensures at'[i] > at'[j]
    {
      assert LastUse(used, rest[j - 1].key, at[j - 1]);
    }
  }

  lemma LastUsedWithout<K, V>(list: seq<Entry<K, V>>, used: seq<Use<K, V>>, at: seq<nat>, i: nat)
    requires LastUsed(list, used, at) && i < |list|
    ensures LastUsed(Without(list, i), used, Without(at, i))
  {
    hide LastUse, HasValue;
    forall j | 0 <= j < |list| - 1
      ensures Without(list, i)[j] == list[if j < i then j else j + 1] && Without(at, i)[j] == at[if j < i then j else j + 1]
    {
    }
    hide Without;
  }

  /** A key listed at i is used once more: its entry, with its new value if it has one, comes first. */
  lemma UsedAgain<K, V>(list: seq<Entry<K, V>>, used: seq<Use<K, V>>, at: seq<nat>, capacity: nat, i: nat, u: Use<K, V>, first: Entry<K, V>)
    requires DistinctKeys(list) && HoldsLastUsed(list, used, at, capacity) && i < |list| && u.key == list[i].key
    requires first == if u.Store? then Entry(u.key, u.value) else list[i]
    ensures HoldsLastUsed([first] + Without(list, i), used + [u], [|used|] + Without(at, i), capacity)
  {
    var rest := Without(list, i);
    WithoutDistinct(list, i);
    LastUsedWithout(list, used, at, i);
    UsedFirst(first, rest, used, u, Without(at, i));
    WithoutMembers(list, i);
    WithoutMembers(at, i);
    forall n | 0 <= n < |used + [u]| && !HasKey([first] + rest, (used + [u])[n].key)
      ensures |list| == capacity && forall j :: 0 <= j < |at| ==> n < ([|used|] + Without(at, i))[j]
    {
      assert ([first] + rest)[0].key == u.key;
      NotAmong(list, i, first, used[n].key);
      forall j | 0 <= j < |at|
        ensures n < ([|used|] + Without(at, i))[j]
      {
        if j > 0 {
          assert Without(at, i)[j - 1] in at;
        }
      }
    }
  }

  lemma NotAmong<K, V>(list: seq<Entry<K, V>>, i: nat, first: Entry<K, V>, key: K)
    requires i < |list| && first.key == list[i].key && !HasKey([first] + Without(list, i), key)
    ensures !HasKey(list, key)
  {
    var list' := [first] + Without(list, i);
    assert list'[0].key != key;
    forall j | 0 <= j < |list|
      ensures list[j].key != key
    {
      assert j != i ==> list'[if j < i then j + 1 else j] == list[j];
    }
  }

  /** A key not listed is stored: its entry comes first, and a full list drops the one last used longest ago. */
  lemma UsedFresh<K, V>(list: seq<Entry<K, V>>, used: seq<Use<K, V>>, at: seq<nat>, capacity: nat, u: Use<K, V>)
    requires HoldsLastUsed(list, used, at, capacity) && capacity > 0 && u.Store? && !HasKey(list, u.key)
    ensures var n := if |list| < capacity then |list| else capacity - 1;
            HoldsLastUsed([Entry(u.key, u.value)] + list[..n], used + [u], [|used|] + at[..n], capacity)
  {
    var n := if |list| < capacity then |list| else capacity - 1;
    var first, rest := Entry(u.key, u.value), list[..n];
    assert forall j :: 0 <= j < n ==> rest[j] == list[j] && at[..n][j] == at[j];
    assert LastUsed(rest, used, at[..n]) && !HasKey(rest, u.key);
    UsedFirst(first, rest, used, u, at[..n]);
    forall m | 0 <= m < |used + [u]| && !HasKey([first] + rest, (used + [u])[m].key)
      ensures n == capacity - 1 && forall j :: 0 <= j < n + 1 ==> m < ([|used|] + at[..n])[j]
    {
      assert ([first] + rest)[0].key == u.key && m < |used|;
      DroppedIsOldest(list, used, at, capacity, n, first, m);
    }
  }

  lemma DroppedIsOldest<K, V>(list: seq<Entry<K, V>>, used: seq<Use<K, V>>, at: seq<nat>, capacity: nat, n: nat, first: Entry<K, V>, m: nat)
    requires HoldsLastUsed(list, used, at, capacity) && capacity > 0 && n == (if |list| < capacity then |list| else capacity - 1)
    requires m < |used| && !HasKey([first] + list[..n], used[m].key)
    ensures n == capacity - 1 && forall j :: 0 <= j < n ==> m < at[j]
  {
    var list' := [first] + list[..n];
    forall j | 0 <= j < n
      ensures list[j].key != used[m].key
    {
      assert list'[j + 1] == list[j];
    }
    if i :| 0 <= i < |list| && list[i].key == used[m].key {
      assert LastUse(used, list[i].key, at[i]);
    }
  }

  /** The uses that count: lookups that find nothing do not. */
  function Counted<K, V>(uses: seq<Use<K, V>>, answers: seq<Option<V>>): seq<Use<K, V>>
    requires |uses| == |answers|
  {
    if uses == [] then []
    else
      var n := |uses| - 1;
      Counted(uses[..n], answers[..n]) + if uses[n].Lookup? && answers[n].None? then [] else [uses[n]]
  }

  lemma CountedNext<K, V>(uses: seq<Use<K, V>>, answers: seq<Option<V>>, u: Use<K, V>, answer: Option<V>)
    requires |uses| == |answers|
    ensures Counted(uses + [u], answers + [answer]) ==
              Counted(uses, answers) + if u.Lookup? && answer.None? then [] else [u]
  {
    assert (uses + [u])[..|uses|] == uses && (answers + [answer])[..|uses|] == answers;
  }

  /** After any run of stores and lookups on an empty map: it holds the keys last used, and a lookup that finds
      something finds the value stored last. */
  method UseAll<K(0,==), V(0)>(cache: LRUMap<K, V>, uses: seq<Use<K, V>>) returns (answers: seq<Option<V>>, ghost at: seq<nat>)
    requires cache.Valid() && cache.Recency() == []
    modifies cache, cache.forward, cache.backward, cache.keys, cache.values
    ensures cache.Valid() && |answers| == |uses|
    ensures HoldsLastUsed(cache.Recency(), Counted(uses, answers), at, cache.capacity)
    ensures forall n :: 0 <= n < |uses| && answers[n].Some? ==>
              uses[n].Lookup? && HasValue(Counted(uses[..n], answers[..n]), uses[n].key, answers[n].value)
  {
    hide HoldsLastUsed, Counted, HasValue;
    answers, at := [], [];
    NothingUsed<K, V>(cache.capacity);
    for n := 0 to |uses|
      invariant cache.Valid() && |answers| == n
      invariant HoldsLastUsed(cache.Recency(), Counted(uses[..n], answers), at, cache.capacity)
      invariant forall m :: 0 <= m < n && answers[m].Some? ==>
                  uses[m].Lookup? && HasValue(Counted(uses[..m], answers[..m]), uses[m].key, answers[m].value)
    {
      var answer;
      answer, at := UseOnce(cache, uses[n], Counted(uses[..n], answers), at);
      CountedNext(uses[..n], answers, uses[n], answer);
      ghost var before := answers;
      answers := answers + [answer];
      assert uses[..n + 1] == uses[..n] + [uses[n]];
      forall m | 0 <= m < n + 1 && answers[m].Some?
        ensures uses[m].Lookup? && HasValue(Counted(uses[..m], answers[..m]), uses[m].key, answers[m].value)
      {
        assert answers[..m] == before[..m];
        assert before[..n] == before;
      }
    }
    assert uses[..|uses|] == uses;
  }

  lemma NothingUsed<K, V>(capacity: nat)
    ensures HoldsLastUsed<K, V>([], Counted([], []), [], capacity)
  {
  }

  method UseOnce<K(0,==), V(0)>(cache: LRUMap<K, V>, u: Use<K, V>, ghost used: seq<Use<K, V>>, ghost at: seq<nat>)
    returns (answer: Option<V>, ghost at': seq<nat>)
    requires cache.Valid() && HoldsLastUsed(cache.Recency(), used, at, cache.capacity)
    modifies cache, cache.forward, cache.backward, cache.keys, cache.values
    ensures cache.Valid()
    ensures HoldsLastUsed(cache.Recency(), used + (if u.Lookup? && answer.None? then [] else [u]), at', cache.capacity)
    ensures answer.Some? ==> u.Lookup? && HasValue(used, u.key, answer.value)
  {
    hide HoldsLastUsed, Stored, Touched, HasValue;
    ghost var list := cache.Recency();
    ghost var i := cache.Found(u.key);
    match u {
      case Store(key, value) =>
        cache.Set(key, value);
        answer := None;
        at' := StoredUsed(list, used, at, cache.capacity, key, value);
      case Lookup(key) =>
        answer := cache.Get(key);
        at' := at;
        if answer.Some? {
          at' := LookedUp(list, used, at, cache.capacity, key, answer.value);
        } else {
          assert used + [] == used;
        }
    }
  }

  lemma StoredUsed<K, V>(list: seq<Entry<K, V>>, used: seq<Use<K, V>>, at: seq<nat>, capacity: nat, key: K, value: V)
    returns (at': seq<nat>)
    requires DistinctKeys(list) && HoldsLastUsed(list, used, at, capacity) && capacity > 0
    ensures HoldsLastUsed(Stored(list, key, value, capacity), used + [Store(key, value)], at', capacity)
  {
    hide HoldsLastUsed, Stored;
    SameLength(list, used, at, capacity);
    StoredCases(list, key, value, capacity);
    if HasKey(list, key) {
      var i := IndexOf(list, key);
      UsedAgain(list, used, at, capacity, i, Store(key, value), Entry(key, value));
      at' := [|used|] + Without(at, i);
    } else {
      UsedFresh(list, used, at, capacity, Store(key, value));
      var n := if |list| < capacity then |list| else capacity - 1;
      at' := [|used|] + at[..n];
      assert list[..|list|] == list;
    }
  }

  lemma SameLength<K, V>(list: seq<Entry<K, V>>, used: seq<Use<K, V>>, at: seq<nat>, capacity: nat)
    requires HoldsLastUsed(list, used, at, capacity)
    ensures |at| == |list| <= capacity
  {
  }

  lemma LookedUp<K, V>(list: seq<Entry<K, V>>, used: seq<Use<K, V>>, at: seq<nat>, capacity: nat, key: K, value: V)
    returns (at': seq<nat>)
    requires DistinctKeys(list) && HoldsLastUsed(list, used, at, capacity) && HasKey(list, key) && list[IndexOf(list, key)].value == value
    ensures HoldsLastUsed(Touched(list, key), used + [Lookup(key)], at', capacity) && HasValue(used, key, value)
  {
    SameLength(list, used, at, capacity);
    var i := IndexOf(list, key);
    assert HasValue(used, list[i].key, list[i].value);
    hide HoldsLastUsed, Touched, HasValue;
    TouchedFound(list, key);
    UsedAgain(list, used, at, capacity, i, Lookup(key), list[i]);
    at' := [|used|] + Without(at, i);
  }
}
