/** The trie map: token sequences to values, through nodes that hold one branch per token. */
module TrieMaps {
  import opened Options
  import opened TriePaths

  /** A node: its branches, and under the sentinel the value stored there. */
  class TrieNode<T(==), V> {
    var edges: map<T, TrieNode<T, V>>
    var stored: Option<V>

    constructor ()
      ensures edges == map[] && stored == None
    {
      edges := map[];
      stored := None;
    }

    /** The number of keys of the node object, the sentinel included. */
    function KeyCount(): nat
      reads this
    {
      |edges| + if stored.Some? then 1 else 0
    }
  }

  // ----- The nodes by their paths -----

  /** These are the branches of the node at p: one for each path that is longer by one token. */
  ghost predicate Branches<T(!new), V>(at: map<seq<T>, TrieNode<T, V>>, p: seq<T>, edges: map<T, TrieNode<T, V>>) {
    forall token: T ::
      && (token in edges <==> Child(p, token) in at)
      && (token in edges ==> edges[token] == at[Child(p, token)])
  }

  ghost predicate NodeLinked<T(!new), V>(at: map<seq<T>, TrieNode<T, V>>, p: seq<T>)
    requires p in at
    reads at.Values`edges
  {
    Branches(at, p, at[p].edges)
  }

  lemma NoBranches<T(!new), V>(at: map<seq<T>, TrieNode<T, V>>, q: seq<T>, child: TrieNode<T, V>)
    requires PrefixClosed(at.Keys) && q !in at
    ensures Branches(at[q := child], q, map[])
  {
    forall token: T
      ensures Child(q, token) !in at && Child(q, token) != q
    {
      assert Parent(Child(q, token)) == q;
    }
  }

  lemma BranchAdded<T(!new), V>(at: map<seq<T>, TrieNode<T, V>>, p: seq<T>, edges: map<T, TrieNode<T, V>>, token: T, child: TrieNode<T, V>)
    requires Branches(at, p, edges)
    ensures Branches(at[Child(p, token) := child], p, edges[token := child])
  {
    SameChild(p, token);
  }

  lemma BranchesStay<T(!new), V>(at: map<seq<T>, TrieNode<T, V>>, r: seq<T>, edges: map<T, TrieNode<T, V>>, p: seq<T>, token: T, child: TrieNode<T, V>)
    requires Branches(at, r, edges) && r != p
    ensures Branches(at[Child(p, token) := child], r, edges)
  {
    SameChild(p, token);
  }

  lemma SameChild<T(!new)>(p: seq<T>, token: T)
    ensures forall r: seq<T>, t: T :: Child(r, t) == Child(p, token) ==> r == p && t == token
  {
    forall r: seq<T>, t: T | Child(r, t) == Child(p, token)
      ensures r == p && t == token
    {
      assert Parent(Child(r, t)) == r && Parent(Child(p, token)) == p;
      assert Child(r, t)[|r|] == t && Child(p, token)[|p|] == token;
    }
  }

  ghost predicate Linked<T(!new), V>(at: map<seq<T>, TrieNode<T, V>>)
    reads at.Values`edges
  {
    && PrefixClosed(at.Keys)
    && (forall p, q :: p in at && q in at && at[p] == at[q] ==> p == q)
    && (forall p :: p in at ==> NodeLinked(at, p))
  }

  /** What the nodes store, by path. */
  ghost function Stored<T, V>(at: map<seq<T>, TrieNode<T, V>>): map<seq<T>, V>
    reads at.Values`stored
  {
    map p | p in at && at[p].stored.Some? :: at[p].stored.value
  }

  lemma StoredStays<T, V>(at: map<seq<T>, TrieNode<T, V>>, p: seq<T>, node: TrieNode<T, V>)
    requires p !in at && node.stored == None
    ensures Stored(at[p := node]) == Stored(at)
  {
  }

  // ----- Finding a branch to prune -----

  /** From depth j + 1 to depth i every node on the way has a single key, and no node above could be pruned along. */
  ghost predicate Prunable<T(!new), V>(at: map<seq<T>, TrieNode<T, V>>, key: seq<T>, i: nat, j: nat)
    reads at.Values
  {
    && j < i <= |key|
    && (forall k :: j <= k <= i ==> key[..k] in at)
    && (forall k :: j < k <= i ==> at[key[..k]].KeyCount() < 2)
    && (j == 0 || at[key[..j]].KeyCount() >= 2)
  }

  lemma StillPrunable<T(!new), V>(at: map<seq<T>, TrieNode<T, V>>, key: seq<T>, i: nat, j: nat)
    requires i < |key| && key[..i] in at && key[..i + 1] in at && at[key[..i + 1]].KeyCount() < 2
    ensures Prunable(at, key, i, j) ==> Prunable(at, key, i + 1, j)
    ensures i == 0 || at[key[..i]].KeyCount() >= 2 ==> Prunable(at, key, i + 1, i)
  {
  }

  lemma SoleElement<T>(s: set<T>, a: T, b: T)
    requires |s| < 2 && a in s && b in s
    ensures a == b
  {
    if a != b {
      var pair := {a, b};
      assert |s| == |pair| + |s - pair| by {
        assert s == pair + (s - pair);
      }
    }
  }

  lemma OtherElement<T>(s: set<T>, a: T) returns (b: T)
    requires |s| >= 2 && a in s
    ensures b in s && b != a
  {
    assert |s - {a}| == |s| - 1;
    b :| b in s - {a};
  }

  lemma EdgeOnTheWay<T(!new), V>(at: map<seq<T>, TrieNode<T, V>>, key: seq<T>, k: nat)
    requires Linked(at) && k < |key| && key in at
    ensures key[..k] in at && key[..k + 1] in at && key[k] in at[key[..k]].edges && at[key[..k]].edges[key[k]] == at[key[..k + 1]]
  {
    PrefixIsPath(at.Keys, key, k);
    PrefixIsPath(at.Keys, key, k + 1);
    assert Child(key[..k], key[k]) == key[..k + 1];
    assert NodeLinked(at, key[..k]);
  }

  /** The branch found prunable serves the key alone, and is the longest that does. */
  lemma PrunableIsChain<T(!new), V>(at: map<seq<T>, TrieNode<T, V>>, key: seq<T>, j: nat)
    requires Linked(at) && Prunable(at, key, |key|, j) && key in at && at[key].stored.Some?
    ensures Chain(at.Keys, Stored(at).Keys, key, j)
    ensures j == 0 || Forks(at.Keys, Stored(at).Keys, key, j)
  {
    assert key[..|key|] == key;
    forall k | j < k < |key|
      ensures key[..k] !in Stored(at).Keys
    {
      EdgeOnTheWay(at, key, k);
      assert at[key[..k]].edges.Keys != {};
    }
    forall k, token | j < k <= |key| && Child(key[..k], token) in at
      ensures k < |key| && token == key[k]
    {
      assert NodeLinked(at, key[..k]);
      assert token in at[key[..k]].edges.Keys;
      if k < |key| {
        EdgeOnTheWay(at, key, k);
        SoleElement(at[key[..k]].edges.Keys, token, key[k]);
      }
    }
    if j > 0 && !at[key[..j]].stored.Some? {
      EdgeOnTheWay(at, key, j);
      assert NodeLinked(at, key[..j]);
      var token := OtherElement(at[key[..j]].edges.Keys, key[j]);
      assert Child(key[..j], token) in at.Keys;
    }
  }

  /** A node with two keys, one of them the sentinel, has a branch. */
  lemma HasBranch<T(!new), V>(at: map<seq<T>, TrieNode<T, V>>, key: seq<T>)
    requires Linked(at) && key in at && at[key].stored.Some? && at[key].KeyCount() >= 2
    ensures exists token :: Child(key, token) in at.Keys
  {
    assert NodeLinked(at, key);
    assert at[key].edges.Keys != {};
    var token :| token in at[key].edges.Keys;
    assert Child(key, token) in at.Keys;
  }

  // ----- Listing entries -----

  /** The entries whose key extends the prefix. */
  ghost function Extending<T(!new), V>(entries: map<seq<T>, V>, prefix: seq<T>): map<seq<T>, V> {
    map p | p in entries && prefix <= p :: entries[p]
  }

  /** Every entry is listed exactly once. */
  ghost predicate ListsEntries<T(!new), V(!new)>(matches: seq<(seq<T>, V)>, entries: map<seq<T>, V>) {
    && (forall i :: 0 <= i < |matches| ==> matches[i].0 in entries && matches[i].1 == entries[matches[i].0])
    && (forall i, j :: 0 <= i < j < |matches| ==> matches[i].0 != matches[j].0)
    && (forall p :: p in entries ==> exists i :: 0 <= i < |matches| && matches[i].0 == p)
  }

  ghost function Among<T(!new), V>(entries: map<seq<T>, V>, visited: set<seq<T>>): map<seq<T>, V> {
    map p | p in entries && p in visited :: entries[p]
  }

  lemma OneMoreListed<T(!new), V(!new)>(matches: seq<(seq<T>, V)>, entries: map<seq<T>, V>, visited: set<seq<T>>, p: seq<T>)
    requires ListsEntries(matches, Among(entries, visited)) && p !in visited
    ensures var matches' := if p in entries then matches + [(p, entries[p])] else matches;
            ListsEntries(matches', Among(entries, visited + {p}))
  {
    var was, now := Among(entries, visited), Among(entries, visited + {p});
    var matches' := if p in entries then matches + [(p, entries[p])] else matches;
    forall q | q in now
      ensures exists i :: 0 <= i < |matches'| && matches'[i].0 == q
    {
      if q == p {
        assert matches'[|matches|].0 == q;
      } else {
        assert q in was;
        var i :| 0 <= i < |matches| && matches[i].0 == q;
        assert matches'[i].0 == q;
      }
    }
    forall i | 0 <= i < |matches'|
      ensures matches'[i].0 in now && matches'[i].1 == now[matches'[i].0]
    {
      if i < |matches| {
        assert matches[i].0 in was;
      }
    }
  }

  // ----- The map -----

  class TrieMap<T(==,!new), V(!new)> {
    var root: TrieNode<T, V>
    var size: nat
    ghost var at: map<seq<T>, TrieNode<T, V>>

    ghost predicate Rooted()
      reads this, at.Values`edges
    {
      Linked(at) && [] in at && at[[]] == root
    }

    ghost predicate Valid()
      reads this, at.Values
    {
      Rooted() && Alive(at.Keys, Stored(at).Keys) && size == |Stored(at)|
    }

    /** The nodes are those on the way to a key, so the shape of the trie is a function of its keys. */
    lemma NodesLeadToKeys(p: seq<T>)
      requires Valid()
      ensures p in at <==> p == [] || LeadsToKey(p, Entries().Keys)
    {
      if LeadsToKey(p, Entries().Keys) {
        var q :| q in Entries().Keys && p <= q;
        PrefixIsPath(at.Keys, q, |p|);
        assert q[..|p|] == p;
      }
    }

    /** The map from token sequences to values. */
    ghost function Entries(): map<seq<T>, V>
      reads this, at.Values`stored
    {
      Stored(at)
    }

    constructor ()
      ensures Valid() && Entries() == map[] && fresh(at.Values)
    {
      root := new TrieNode();
      size := 0;
      new;
      at := map[[] := root];
      NewTrie(root);
    }

    static lemma NewTrie(root: TrieNode<T, V>)
      requires root.edges == map[] && root.stored == None
      ensures Linked(map[[] := root]) && Stored(map[[] := root]) == map[]
    {
      var at: map<seq<T>, TrieNode<T, V>> := map[[] := root];
      assert NodeLinked(at, []);
    }

    method Clear()
      modifies this
      ensures Valid() && Entries() == map[] && fresh(at.Values)
    {
      root := new TrieNode();
      size := 0;
      at := map[[] := root];
      NewTrie(root);
    }

    /** The child for the token, created when missing. */
    method ChildFor(node: TrieNode<T, V>, token: T, ghost p: seq<T>) returns (child: TrieNode<T, V>)
      requires Rooted() && p in at && at[p] == node
      modifies node`edges, this`at
      ensures Rooted() && Stored(at) == old(Stored(at))
      ensures Child(p, token) in at && at[Child(p, token)] == child
      ensures at == if Child(p, token) in old(at) then old(at) else old(at)[Child(p, token) := child]
      ensures child in old(at.Values) || fresh(child)
    {
      assert NodeLinked(at, p);
      if token in node.edges {
        child := node.edges[token];
      } else {
        child := new TrieNode();
        Attach(node, token, child, p);
      }
    }

    method Attach(node: TrieNode<T, V>, token: T, child: TrieNode<T, V>, ghost p: seq<T>)
      requires Rooted() && p in at && at[p] == node && Child(p, token) !in at
      requires child !in at.Values && child.edges == map[] && child.stored == None
      modifies node`edges, this`at
      ensures Rooted() && Stored(at) == old(Stored(at))
      ensures at == old(at)[Child(p, token) := child]
    {
      hide PrefixClosed, Branches, Stored;
      ghost var was, q := at, Child(p, token);
      NoBranches(was, q, child);
      GrowsClosed(was.Keys, p, token);
      node.edges := node.edges[token := child];
      StoredStays(was, q, child);
      at := at[q := child];
      assert at.Keys == was.Keys + {q};
      forall r | r in at
        ensures NodeLinked(at, r)
      {
        if r != q {
          assert old(NodeLinked(was, r));
          if r == p {
            BranchAdded(was, p, old(node.edges), token, child);
          } else {
            BranchesStay(was, r, at[r].edges, p, token, child);
          }
        }
      }
    }

    method Set(prefix: seq<T>, value: V)
      requires Valid()
      modifies this, at.Values
      ensures Valid() && Entries() == old(Entries())[prefix := value]
      ensures fresh(at.Values - old(at.Values))
    {
      hide Linked, Alive, Stored;
      var node := Grow(prefix);
      AtStored(prefix);
      OneMore(Entries(), prefix, value);
      if !node.stored.Some? {
        size := size + 1;
      }
      Store(node, prefix, Some(value));
    }

    /** Changes what one node stores. */
    method Store(node: TrieNode<T, V>, ghost key: seq<T>, value: Option<V>)
      requires Rooted() && key in at && at[key] == node
      modifies node`stored
      ensures Rooted()
      ensures Stored(at) == if value.Some? then old(Stored(at))[key := value.value] else old(Stored(at)) - {key}
    {
      hide PrefixClosed, NodeLinked;
      OnlyThere(key);
      hide Linked;
      node.stored := value;
    }

    lemma OnlyThere(key: seq<T>)
      requires Rooted() && key in at
      ensures forall p :: p in at && at[p] == at[key] ==> p == key
    {
    }

    static lemma OneMore(entries: map<seq<T>, V>, prefix: seq<T>, value: V)
      ensures |entries[prefix := value]| == if prefix in entries then |entries| else |entries| + 1
      ensures entries[prefix := value].Keys == entries.Keys + {prefix}
    {
      assert entries[prefix := value].Keys == entries.Keys + {prefix};
    }

    /** Follows the tokens, creating the nodes that are missing. */
    method Grow(prefix: seq<T>) returns (node: TrieNode<T, V>)
      requires Valid()
      modifies this`at, at.Values
      ensures Rooted() && Stored(at) == old(Stored(at))
      ensures prefix in at && at[prefix] == node && Alive(at.Keys, Stored(at).Keys + {prefix})
      ensures fresh(at.Values - old(at.Values))
    {
      hide Linked, Alive, Stored;
      node := root;
      for i := 0 to |prefix|
        invariant Rooted() && Stored(at) == old(Stored(at))
        invariant prefix[..i] in at && at[prefix[..i]] == node
        invariant old(at).Keys <= at.Keys
        invariant forall p :: p in at ==> p in old(at) || p <= prefix
        invariant fresh(at.Values - old(at.Values))
      {
        assert Child(prefix[..i], prefix[i]) == prefix[..i + 1];
        node := ChildFor(node, prefix[i], prefix[..i]);
      }
      assert prefix[..|prefix|] == prefix;
      KeyAdded(old(at).Keys, Stored(at).Keys, at.Keys, prefix);
    }

    /** Where the walk goes next, and that the rest of the tokens lead nowhere if it cannot. */
    lemma NextNode(prefix: seq<T>, i: nat)
      requires Rooted() && i < |prefix| && prefix[..i] in at
      ensures prefix[i] in at[prefix[..i]].edges <==> prefix[..i + 1] in at
      ensures prefix[..i + 1] in at ==> at[prefix[..i]].edges[prefix[i]] == at[prefix[..i + 1]]
      ensures prefix[..i + 1] !in at ==> prefix !in at
    {
      assert Child(prefix[..i], prefix[i]) == prefix[..i + 1];
      assert NodeLinked(at, prefix[..i]);
      if prefix in at {
        PrefixIsPath(at.Keys, prefix, i + 1);
      }
    }

    /** Follows the tokens as far as they lead. */
    method Walk(prefix: seq<T>) returns (node: TrieNode?<T, V>)
      requires Rooted()
      ensures node == null <==> prefix !in at
      ensures node != null ==> at[prefix] == node
    {
      hide Linked;
      var current := root;
      for i := 0 to |prefix|
        invariant prefix[..i] in at && at[prefix[..i]] == current
      {
        var token := prefix[i];
        NextNode(prefix, i);
        if token !in current.edges {
          return null;
        }
        current := current.edges[token];
      }
      assert prefix[..|prefix|] == prefix;
      node := current;
    }

    method Get(prefix: seq<T>) returns (value: Option<V>)
      requires Valid()
      ensures value == if prefix in Entries() then Some(Entries()[prefix]) else None
    {
      var node := Walk(prefix);
      value := if node == null || !node.stored.Some? then None else node.stored;
    }

    method Has(prefix: seq<T>) returns (found: bool)
      requires Valid()
      ensures found <==> prefix in Entries()
    {
      var node := Walk(prefix);
      found := node != null && node.stored.Some?;
    }

    // ----- Deleting -----

    method Delete(prefix: seq<T>) returns (deleted: bool)
      requires Valid()
      modifies this, at.Values
      ensures Valid() && Entries() == old(Entries()) - {prefix}
      ensures deleted <==> prefix in old(Entries())
      ensures at.Values <= old(at.Values)
    {
      hide Linked, Alive, Prunable, Stored;
      var node, toPrune, tokenToPrune, j := WalkAndWatch(prefix);
      AtStored(prefix);
      if node == null || !node.stored.Some? {
        assert Stored(at) - {prefix} == Stored(at);
        return false;
      }
      OneLess(Stored(at), prefix);
      size := size - 1;
      if toPrune != null {
        PruneKey(toPrune, tokenToPrune.value, prefix, j);
      } else {
        Empty(node, prefix);
      }
      deleted := true;
    }

    /** Follows the tokens and keeps track of the highest branch that holds single-key nodes only. */
    method WalkAndWatch(prefix: seq<T>)
      returns (node: TrieNode?<T, V>, toPrune: TrieNode?<T, V>, tokenToPrune: Option<T>, ghost j: nat)
      requires Rooted()
      ensures node == null <==> prefix !in at
      ensures node != null ==> at[prefix] == node
      ensures node != null && toPrune != null ==>
                && j < |prefix| && prefix[..j] in at && at[prefix[..j]] == toPrune && tokenToPrune == Some(prefix[j])
                && Prunable(at, prefix, |prefix|, j)
      ensures node != null && toPrune == null ==> prefix == [] || node.KeyCount() >= 2
    {
      hide Linked, Prunable;
      var current := root;
      toPrune, tokenToPrune, j := null, None, 0;
      for i := 0 to |prefix|
        invariant prefix[..i] in at && at[prefix[..i]] == current
        invariant toPrune != null ==>
                    && j < i && prefix[..j] in at && at[prefix[..j]] == toPrune && tokenToPrune == Some(prefix[j])
                    && Prunable(at, prefix, i, j)
        invariant toPrune == null ==> i == 0 || current.KeyCount() >= 2
      {
        var token, parent := prefix[i], current;
        NextNode(prefix, i);
        if token !in current.edges {
          return null, null, None, 0;
        }
        current := current.edges[token];
        if toPrune != null {
          if current.KeyCount() > 1 {
            toPrune, tokenToPrune := null, None;
          }
        } else {
          if current.KeyCount() < 2 {
            toPrune, tokenToPrune, j := parent, Some(token), i;
          }
        }
        if current.KeyCount() < 2 {
          StillPrunable(at, prefix, i, j);
        }
      }
      assert prefix[..|prefix|] == prefix;
      node := current;
    }

    static lemma OneLess(entries: map<seq<T>, V>, key: seq<T>)
      requires key in entries
      ensures |entries - {key}| == |entries| - 1
    {
      assert (entries - {key}).Keys == entries.Keys - {key};
    }

    lemma AtStored(key: seq<T>)
      ensures key in Entries() <==> key in at && at[key].stored.Some?
      ensures if key in Entries() then at[key].stored == Some(Entries()[key]) else Entries() - {key} == Entries()
    {
    }

    /** Takes the branch that serves the key alone off its node. */
    method PruneKey(node: TrieNode<T, V>, token: T, ghost key: seq<T>, ghost j: nat)
      requires Rooted() && Alive(at.Keys, Stored(at).Keys) && key in at && at[key].stored.Some?
      requires Prunable(at, key, |key|, j) && at[key[..j]] == node && token == key[j]
      modifies node`edges, this`at
      ensures Rooted() && Alive(at.Keys, Stored(at).Keys)
      ensures Stored(at) == old(Stored(at)) - {key}
      ensures at.Values <= old(at.Values)
    {
      hide Linked, Alive, Chain, Forks, PrefixClosed;
      RootedIsClosed();
      PrunableIsChain(at, key, j);
      CutRemovesKey(at.Keys, Stored(at).Keys, key, j);
      Prune(node, token, key, j);
      assert Stored(at) == old(Stored(at)) - {key};
      assert Stored(at).Keys == old(Stored(at).Keys) - {key};
    }

    /** Takes a branch off its node. */
    method Prune(node: TrieNode<T, V>, token: T, ghost key: seq<T>, ghost j: nat)
      requires Rooted() && j < |key| && key[..j] in at && at[key[..j]] == node && token == key[j]
      modifies node`edges, this`at
      ensures Rooted()
      ensures at.Keys == Cut(old(at.Keys), key[..j + 1])
      ensures forall p :: p in at ==> at[p] == old(at)[p]
    {
      ghost var was, branch := at, key[..j + 1];
      node.edges := node.edges - {token};
      at := map p | p in at && !(branch <= p) :: at[p];
      assert at.Keys == Cut(was.Keys, branch);
      CutIsClosed(was.Keys, branch);
      forall p | p in at
        ensures NodeLinked(at, p)
      {
        assert old(NodeLinked(was, p));
        forall t: T
          ensures branch <= Child(p, t) <==> p == key[..j] && t == token
        {
          BranchStarts(key, j, p, t);
        }
      }
    }

    static lemma BranchStarts(key: seq<T>, j: nat, p: seq<T>, token: T)
      requires j < |key| && !(key[..j + 1] <= p)
      ensures key[..j + 1] <= Child(p, token) <==> p == key[..j] && token == key[j]
    {
      var branch := key[..j + 1];
      assert branch == key[..j] + [key[j]];
      if branch <= Child(p, token) {
        assert |branch| == |p| + 1;
        assert branch == Child(p, token);
        assert p == branch[..j] && token == branch[j];
      }
    }

    /** Removes the stored value of a node that has branches. */
    method Empty(node: TrieNode<T, V>, ghost key: seq<T>)
      requires Rooted() && key in at && at[key] == node && node.stored.Some?
      requires Alive(at.Keys, Stored(at).Keys) && (key == [] || node.KeyCount() >= 2)
      modifies node`stored
      ensures Rooted() && Stored(at) == old(Stored(at)) - {key}
      ensures Alive(at.Keys, Stored(at).Keys)
    {
      hide Linked, Alive;
      AtStored(key);
      if key != [] {
        HasBranch(at, key);
      }
      KeyWithBranches(at.Keys, Stored(at).Keys, key);
      Store(node, key, None);
      assert Stored(at).Keys == old(Stored(at).Keys) - {key};
    }

    // ----- Finding -----

    /** The entries whose key extends the prefix, each once. */
    method Find(prefix: seq<T>) returns (matches: seq<(seq<T>, V)>)
      requires Valid()
      ensures ListsEntries(matches, Extending(Entries(), prefix))
      ensures forall p, v :: (p, v) in matches <==> prefix <= p && p in Entries() && Entries()[p] == v
      ensures forall i, j :: 0 <= i < j < |matches| ==> matches[i].0 != matches[j].0
    {
      hide Walking, Rooted, Stored, Searching, Extending, ListsEntries, Alive;
      var start := Walk(prefix);
      if start == null {
        NothingExtends(prefix);
        matches := [];
        Matched(matches, Entries(), prefix);
        return;
      }
      var nodeStack: seq<TrieNode<T, V>>, prefixStack := [start], [prefix];
      ghost var visited: set<seq<T>> := {};
      matches := [];
      SearchStarts(prefix, start);
      while nodeStack != []
        invariant Searching(prefix, nodeStack, prefixStack, visited, matches)
        decreases |at.Keys - visited|
      {
        nodeStack, prefixStack, visited, matches := Round(prefix, nodeStack, prefixStack, visited, matches);
      }
      AllListed(prefix, nodeStack, prefixStack, visited, matches);
      Matched(matches, Entries(), prefix);
    }

    static lemma Matched(matches: seq<(seq<T>, V)>, entries: map<seq<T>, V>, prefix: seq<T>)
      requires ListsEntries(matches, Extending(entries, prefix))
      ensures forall p, v :: (p, v) in matches <==> prefix <= p && p in entries && entries[p] == v
      ensures forall i, j :: 0 <= i < j < |matches| ==> matches[i].0 != matches[j].0
    {
      forall p, v
        ensures (p, v) in matches <==> prefix <= p && p in entries && entries[p] == v
      {
        if prefix <= p && p in entries && entries[p] == v {
          assert p in Extending(entries, prefix);
          var i :| 0 <= i < |matches| && matches[i].0 == p;
          assert matches[i] == (p, v);
        }
      }
    }

    /** The stacks hold the nodes still to visit, and the visited ones are listed. */
    ghost predicate Searching(prefix: seq<T>, nodes: seq<TrieNode<T, V>>, paths: seq<seq<T>>, visited: set<seq<T>>, matches: seq<(seq<T>, V)>)
      reads this, at.Values`stored
    {
      && |nodes| == |paths| && (forall i :: 0 <= i < |nodes| ==> paths[i] in at && at[paths[i]] == nodes[i])
      && Walking(at.Keys, prefix, paths, visited)
      && ListsEntries(matches, Among(Entries(), visited))
    }

    lemma SearchStarts(prefix: seq<T>, start: TrieNode<T, V>)
      requires prefix in at && at[prefix] == start
      ensures Searching(prefix, [start], [prefix], {}, [])
    {
      hide Walking, Stored;
      WalkStarts(at.Keys, prefix);
    }

    /** Visits the node on top of the stack. */
    method Round(ghost start: seq<T>, nodes0: seq<TrieNode<T, V>>, paths0: seq<seq<T>>, ghost visited0: set<seq<T>>, matches0: seq<(seq<T>, V)>)
      returns (nodes: seq<TrieNode<T, V>>, paths: seq<seq<T>>, ghost visited: set<seq<T>>, matches: seq<(seq<T>, V)>)
      requires Rooted() && nodes0 != [] && Searching(start, nodes0, paths0, visited0, matches0)
      ensures Searching(start, nodes, paths, visited, matches)
      ensures |at.Keys - visited| < |at.Keys - visited0|
    {
      hide Walking, Rooted, Stored, Among, ListsEntries;
      var n := |nodes0| - 1;
      var p, node := paths0[n], nodes0[n];
      ghost var tokens;
      nodes, paths, tokens := Descend(node, p, nodes0, paths0, start, visited0);
      OneMoreListed(matches0, Entries(), visited0, p);
      AtStored(p);
      matches := if node.stored.Some? then matches0 + [(p, node.stored.value)] else matches0;
      FewerLeft(at.Keys, visited0, p);
      visited := visited0 + {p};
    }

    static lemma FewerLeft(paths: set<seq<T>>, visited: set<seq<T>>, p: seq<T>)
      requires p in paths && p !in visited
      ensures |paths - (visited + {p})| < |paths - visited|
    {
      assert paths - visited == (paths - (visited + {p})) + {p};
    }

    lemma AllListed(prefix: seq<T>, nodes: seq<TrieNode<T, V>>, paths: seq<seq<T>>, visited: set<seq<T>>, matches: seq<(seq<T>, V)>)
      requires Searching(prefix, nodes, paths, visited, matches) && nodes == []
      ensures ListsEntries(matches, Extending(Entries(), prefix))
    {
      hide ListsEntries;
      assert Among(Entries(), visited) == Extending(Entries(), prefix);
    }

    /** The path on top of the stack gives way to its children. */
    method Descend(node: TrieNode<T, V>, p: seq<T>, nodes0: seq<TrieNode<T, V>>, paths0: seq<seq<T>>, ghost start: seq<T>, ghost visited: set<seq<T>>)
      returns (nodes: seq<TrieNode<T, V>>, paths: seq<seq<T>>, ghost tokens: seq<T>)
      requires Rooted() && |nodes0| == |paths0| > 0 && nodes0[|nodes0| - 1] == node && paths0[|nodes0| - 1] == p
      requires forall i :: 0 <= i < |nodes0| ==> paths0[i] in at && at[paths0[i]] == nodes0[i]
      requires Walking(at.Keys, start, paths0, visited)
      ensures p in at && at[p] == node && p !in visited && Walking(at.Keys, start, paths, visited + {p})
      ensures |nodes| == |paths| && forall i :: 0 <= i < |nodes| ==> paths[i] in at && at[paths[i]] == nodes[i]
    {
      hide PrefixClosed, Walking, ListsBranches, NodeLinked, Children, Rooted;
      var n := |nodes0| - 1;
      assert paths0 == paths0[..n] + [p];
      assert PrefixClosed(at.Keys) by {
        RootedIsClosed();
      }
      nodes, paths, tokens := PushChildren(node, p, nodes0[..n], paths0[..n]);
      WalkDown(at.Keys, start, paths0[..n], p, tokens, visited);
    }

    lemma RootedIsClosed()
      requires Rooted()
      ensures PrefixClosed(at.Keys)
    {
    }

    lemma NothingExtends(prefix: seq<T>)
      requires Rooted() && prefix !in at
      ensures ListsEntries([], Extending(Entries(), prefix))
    {
      forall p | p in Entries()
        ensures !(prefix <= p)
      {
        if prefix <= p {
          assert p[..|prefix|] == prefix;
          PrefixIsPath(at.Keys, p, |prefix|);
        }
      }
    }

    /** Pushes every child of the node, in the order in which the node object lists its tokens. */
    method PushChildren(node: TrieNode<T, V>, p: seq<T>, nodes0: seq<TrieNode<T, V>>, paths0: seq<seq<T>>)
      returns (nodes: seq<TrieNode<T, V>>, paths: seq<seq<T>>, ghost tokens: seq<T>)
      requires Rooted() && p in at && at[p] == node
      requires |nodes0| == |paths0| && forall i :: 0 <= i < |nodes0| ==> paths0[i] in at && at[paths0[i]] == nodes0[i]
      ensures ListsBranches(at.Keys, p, tokens) && paths == paths0 + Children(p, tokens)
      ensures |nodes| == |paths| && forall i :: 0 <= i < |nodes| ==> paths[i] in at && at[paths[i]] == nodes[i]
    {
      assert NodeLinked(at, p);
      nodes, paths, tokens := nodes0, paths0, [];
      var left := node.edges.Keys;
      while left != {}
        invariant left <= node.edges.Keys
        invariant forall i, j :: 0 <= i < j < |tokens| ==> tokens[i] != tokens[j]
        invariant forall token :: token in tokens <==> token in node.edges.Keys - left
        invariant paths == paths0 + Children(p, tokens)
        invariant |nodes| == |paths| && forall i :: 0 <= i < |nodes| ==> paths[i] in at && at[paths[i]] == nodes[i]
        decreases |left|
      {
        var token :| token in left;
        assert token !in tokens;
        left := left - {token};
        nodes := nodes + [node.edges[token]];
        paths := paths + [Child(p, token)];
        tokens := tokens + [token];
      }
    }
  }
}
