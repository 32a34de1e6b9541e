/** The paths of a trie, as token sequences: what cutting a branch and walking down do to them. */
module TriePaths {

  function Parent<T>(p: seq<T>): seq<T>
    requires p != []
  {
    p[..|p| - 1]
  }

  function Child<T>(p: seq<T>, token: T): seq<T> {
    p + [token]
  }

  ghost predicate PrefixClosed<T(!new)>(paths: set<seq<T>>) {
    [] in paths && forall p {:trigger Parent(p)} :: p in paths && p != [] ==> Parent(p) in paths
  }

  /** Some key lies at or below the path. */
  ghost predicate LeadsToKey<T(!new)>(p: seq<T>, keys: set<seq<T>>) {
    exists q :: q in keys && p <= q
  }

  /** No branch is dead. */
  ghost predicate Alive<T(!new)>(paths: set<seq<T>>, keys: set<seq<T>>) {
    keys <= paths && forall p :: p in paths && p != [] ==> LeadsToKey(p, keys)
  }

  lemma {:induction false} PrefixIsPath<T(!new)>(paths: set<seq<T>>, p: seq<T>, k: nat)
    requires PrefixClosed(paths) && p in paths && k <= |p|
    ensures p[..k] in paths
    decreases |p|
  {
    if k == |p| {
      assert p[..k] == p;
    } else {
      assert Parent(p) in paths && Parent(p)[..k] == p[..k];
      PrefixIsPath(paths, Parent(p), k);
    }
  }

  lemma GrowsClosed<T(!new)>(paths: set<seq<T>>, p: seq<T>, token: T)
    requires PrefixClosed(paths) && p in paths
    ensures PrefixClosed(paths + {Child(p, token)})
  {
    assert Parent(Child(p, token)) == p;
  }

  // ----- Cutting a dead chain -----

  /** Below the first j tokens of the key there is nothing but the chain down to the key. */
  ghost predicate Chain<T(!new)>(paths: set<seq<T>>, keys: set<seq<T>>, key: seq<T>, j: nat) {
    && j < |key|
    && (forall k :: j < k < |key| ==> key[..k] !in keys)
    && (forall k, token :: j < k <= |key| && Child(key[..k], token) in paths ==> k < |key| && token == key[k])
  }

  /** The path has a key or a branch besides the way to the given key. */
  ghost predicate Forks<T(!new)>(paths: set<seq<T>>, keys: set<seq<T>>, key: seq<T>, j: nat) {
    && j < |key|
    && (key[..j] in keys || exists token :: token != key[j] && Child(key[..j], token) in paths)
  }

  ghost function Cut<T(!new)>(paths: set<seq<T>>, branch: seq<T>): set<seq<T>> {
    set p | p in paths && !(branch <= p)
  }

  lemma {:induction false} OnlyTheChain<T(!new)>(paths: set<seq<T>>, keys: set<seq<T>>, key: seq<T>, j: nat, p: seq<T>)
    requires PrefixClosed(paths) && Chain(paths, keys, key, j)
    requires p in paths && key[..j + 1] <= p
    ensures p <= key
    decreases |p|
  {
    if |p| > j + 1 {
      var k := |p| - 1;
      assert Parent(p) in paths && p == Child(Parent(p), p[k]);
      assert key[..j + 1] <= Parent(p);
      OnlyTheChain(paths, keys, key, j, Parent(p));
      assert Parent(p) == key[..k];
      assert p == key[..k] + [key[k]] == key[..k + 1];
    }
  }

  lemma CutIsClosed<T(!new)>(paths: set<seq<T>>, branch: seq<T>)
    requires PrefixClosed(paths) && branch != []
    ensures PrefixClosed(Cut(paths, branch))
  {
  }

  /** A path still there that led to the removed key leads to another one. */
  lemma StillLeads<T(!new)>(paths: set<seq<T>>, keys: set<seq<T>>, key: seq<T>, j: nat, p: seq<T>)
    requires Alive(paths, keys) && Forks(paths, keys, key, j) && p <= key[..j]
    ensures LeadsToKey(p, keys - {key})
  {
    if key[..j] in keys {
      assert key[..j] in keys - {key};
    } else {
      var token :| token != key[j] && Child(key[..j], token) in paths;
      var other := Child(key[..j], token);
      assert LeadsToKey(other, keys);
      var q :| q in keys && other <= q;
      assert q[j] == token;
      assert p <= q && q in keys - {key};
    }
  }

  /** Cutting the longest chain that serves the key alone removes that key, and leaves no dead branch. */
  lemma CutRemovesKey<T(!new)>(paths: set<seq<T>>, keys: set<seq<T>>, key: seq<T>, j: nat)
    requires PrefixClosed(paths) && Alive(paths, keys) && key in keys && Chain(paths, keys, key, j)
    requires j == 0 || Forks(paths, keys, key, j)
    ensures var paths' := Cut(paths, key[..j + 1]);
            PrefixClosed(paths') && Alive(paths', keys - {key})
            && forall q :: q in keys ==> (q in paths' <==> q != key)
  {
    var branch := key[..j + 1];
    var paths' := Cut(paths, branch);
    CutIsClosed(paths, branch);
    CutSparesOthers(paths, keys, key, j);
    forall p | p in paths' && p != []
      ensures LeadsToKey(p, keys - {key})
    {
      StillAlive(paths, keys, key, j, p);
    }
  }

  lemma CutSparesOthers<T(!new)>(paths: set<seq<T>>, keys: set<seq<T>>, key: seq<T>, j: nat)
    requires PrefixClosed(paths) && keys <= paths && Chain(paths, keys, key, j)
    ensures forall q :: q in keys ==> (q in Cut(paths, key[..j + 1]) <==> q != key)
  {
    forall q | q in keys
      ensures q in Cut(paths, key[..j + 1]) <==> q != key
    {
      if key[..j + 1] <= q {
        OnlyTheChain(paths, keys, key, j, q);
        assert q == key[..|q|];
      }
    }
  }

  lemma ShortOrBeyond<T(!new)>(key: seq<T>, p: seq<T>, j: nat)
    requires p <= key && j < |key|
    ensures p <= key[..j] || key[..j + 1] <= p
  {
    assert p == key[..|p|];
  }

  lemma StillAlive<T(!new)>(paths: set<seq<T>>, keys: set<seq<T>>, key: seq<T>, j: nat, p: seq<T>)
    requires Alive(paths, keys) && j < |key| && (j == 0 || Forks(paths, keys, key, j))
    requires p in Cut(paths, key[..j + 1]) && p != []
    ensures LeadsToKey(p, keys - {key})
  {
    hide Forks;
    assert LeadsToKey(p, keys);
    var q :| q in keys && p <= q;
    if q == key {
      ShortOrBeyond(key, p, j);
      StillLeads(paths, keys, key, j, p);
    } else {
      assert q in keys - {key};
    }
  }

  /** A key with branches below it leaves its path serving those. */
  lemma KeyWithBranches<T(!new)>(paths: set<seq<T>>, keys: set<seq<T>>, key: seq<T>)
    requires Alive(paths, keys) && key in keys
    requires key == [] || exists token :: Child(key, token) in paths
    ensures Alive(paths, keys - {key})
  {
    forall p | p in paths && p != []
      ensures LeadsToKey(p, keys - {key})
    {
      assert LeadsToKey(p, keys);
      var q :| q in keys && p <= q;
      if q == key {
        BranchLeads(paths, keys, key, p);
      } else {
        assert q in keys - {key};
      }
    }
  }

  lemma BranchLeads<T(!new)>(paths: set<seq<T>>, keys: set<seq<T>>, key: seq<T>, p: seq<T>)
    requires Alive(paths, keys) && p <= key && exists token :: Child(key, token) in paths
    ensures LeadsToKey(p, keys - {key})
  {
    var token :| Child(key, token) in paths;
    assert LeadsToKey(Child(key, token), keys);
    var q :| q in keys && Child(key, token) <= q;
    PrefixOfLonger(p, key, token, q);
    assert q in keys - {key};
  }

  lemma PrefixOfLonger<T(!new)>(p: seq<T>, key: seq<T>, token: T, q: seq<T>)
    requires p <= key && Child(key, token) <= q
    ensures p <= q && |q| > |key|
  {
    assert q[..|p|] == key[..|p|];
  }

  /** A new key, with all its prefixes as paths, keeps every branch alive. */
  lemma KeyAdded<T(!new)>(paths: set<seq<T>>, keys: set<seq<T>>, paths': set<seq<T>>, key: seq<T>)
    requires Alive(paths, keys) && key in paths' && paths <= paths'
    requires forall p :: p in paths' ==> p in paths || p <= key
    ensures Alive(paths', keys + {key})
  {
    forall p | p in paths' && p != []
      ensures LeadsToKey(p, keys + {key})
    {
      if p in paths {
        assert LeadsToKey(p, keys);
        var q :| q in keys && p <= q;
        assert q in keys + {key};
      } else {
        assert key in keys + {key};
      }
    }
  }

  // ----- Walking all paths below a start -----

  ghost predicate Covered<T>(stack: seq<seq<T>>, p: seq<T>) {
    exists i :: 0 <= i < |stack| && stack[i] <= p
  }

  /** No path of the stack lies on the way to another. */
  ghost predicate Apart<T>(stack: seq<seq<T>>) {
    forall i, j :: 0 <= i < |stack| && 0 <= j < |stack| && i != j ==> !(stack[i] <= stack[j])
  }

  /** The paths below the start that are behind the walk are those no path of the stack covers. */
  ghost predicate Walking<T(!new)>(paths: set<seq<T>>, start: seq<T>, stack: seq<seq<T>>, visited: set<seq<T>>) {
    && visited <= paths && Apart(stack)
    && (forall i :: 0 <= i < |stack| ==> stack[i] in paths && start <= stack[i])
    && (forall p :: p in paths ==> (p in visited <==> start <= p && !Covered(stack, p)))
  }

  function Children<T>(p: seq<T>, tokens: seq<T>): (children: seq<seq<T>>)
    ensures |children| == |tokens| && forall i :: 0 <= i < |tokens| ==> children[i] == Child(p, tokens[i])
  {
    seq(|tokens|, i requires 0 <= i < |tokens| => Child(p, tokens[i]))
  }

  ghost predicate ListsBranches<T(!new)>(paths: set<seq<T>>, p: seq<T>, tokens: seq<T>) {
    && (forall i, j :: 0 <= i < j < |tokens| ==> tokens[i] != tokens[j])
    && (forall token :: token in tokens <==> Child(p, token) in paths)
  }

  lemma WalkStarts<T(!new)>(paths: set<seq<T>>, start: seq<T>)
    requires start in paths
    ensures Walking(paths, start, [start], {})
  {
    forall p | p in paths && start <= p
      ensures Covered([start], p)
    {
      assert [start][0] <= p;
    }
  }

  /** Below a path lie the path itself and what lies below its children. */
  lemma BelowPath<T(!new)>(paths: set<seq<T>>, p: seq<T>, tokens: seq<T>, q: seq<T>)
    requires PrefixClosed(paths) && p in paths && q in paths && ListsBranches(paths, p, tokens)
    ensures p <= q <==> q == p || Covered(Children(p, tokens), q)
  {
    var children := Children(p, tokens);
    if p <= q && q != p {
      var token := q[|p|];
      assert Child(p, token) == q[..|p| + 1];
      PrefixIsPath(paths, q, |p| + 1);
      var i :| 0 <= i < |tokens| && tokens[i] == token;
      assert children[i] <= q;
    }
    if Covered(children, q) {
      var i :| 0 <= i < |children| && children[i] <= q;
      assert p <= Child(p, tokens[i]);
    }
  }

  lemma ChildrenApart<T(!new)>(paths: set<seq<T>>, rest: seq<seq<T>>, p: seq<T>, tokens: seq<T>)
    requires Apart(rest + [p]) && ListsBranches(paths, p, tokens)
    ensures Apart(rest + Children(p, tokens))
  {
    var n, stack, stack' := |rest|, rest + [p], rest + Children(p, tokens);
    forall i, j | 0 <= i < |stack'| && 0 <= j < |stack'| && i != j
      ensures !(stack'[i] <= stack'[j])
    {
      if i < n && j < n {
        assert !(stack[i] <= stack[j]);
      } else if i < n {
        NotOnTheWay(stack[i], p, tokens[j - n], stack, i);
      } else if j < n {
        assert !(stack[n] <= stack[j]);
        assert p <= stack'[i];
      } else {
        assert stack'[i][|p|] == tokens[i - n] && stack'[j][|p|] == tokens[j - n];
      }
    }
  }

  /** Two prefixes of one path are prefixes one of the other. */
  lemma Comparable<T(!new)>(a: seq<T>, b: seq<T>, q: seq<T>)
    requires a <= q && b <= q
    ensures a <= b || b <= a
  {
    assert a == q[..|a|] && b == q[..|b|];
    assert if |a| <= |b| then a == b[..|a|] else b == a[..|b|];
  }

  lemma NotOnTheWay<T(!new)>(a: seq<T>, p: seq<T>, token: T, stack: seq<seq<T>>, i: nat)
    requires Apart(stack) && i < |stack| - 1 && stack[i] == a && stack[|stack| - 1] == p
    ensures !(a <= Child(p, token))
  {
    assert !(stack[i] <= stack[|stack| - 1]) && !(stack[|stack| - 1] <= stack[i]);
    if a <= Child(p, token) {
      Comparable(a, p, Child(p, token));
    }
  }

  lemma CoveredConcat<T(!new)>(a: seq<seq<T>>, b: seq<seq<T>>, q: seq<T>)
    ensures Covered(a + b, q) <==> Covered(a, q) || Covered(b, q)
  {
    var ab := a + b;
    if Covered(ab, q) {
      var i :| 0 <= i < |ab| && ab[i] <= q;
      assert if i < |a| then a[i] <= q else b[i - |a|] <= q;
    }
    if Covered(a, q) {
      var i :| 0 <= i < |a| && a[i] <= q;
      assert ab[i] <= q;
    }
    if Covered(b, q) {
      var i :| 0 <= i < |b| && b[i] <= q;
      assert ab[|a| + i] <= q;
    }
  }

  /** Two paths of which neither lies on the way to the other have nothing below in common. */
  lemma NotBoth<T(!new)>(rest: seq<seq<T>>, p: seq<T>, q: seq<T>)
    requires Apart(rest + [p]) && p <= q
    ensures !Covered(rest, q)
  {
    var stack := rest + [p];
    forall i | 0 <= i < |rest|
      ensures !(rest[i] <= q)
    {
      assert !(stack[i] <= stack[|rest|]) && !(stack[|rest|] <= stack[i]);
      if rest[i] <= q {
        Comparable(rest[i], p, q);
      }
    }
  }

  /** One round of the walk: the path on top gives way to its children. */
  lemma WalkDown<T(!new)>(paths: set<seq<T>>, start: seq<T>, rest: seq<seq<T>>, p: seq<T>, tokens: seq<T>, visited: set<seq<T>>)
    requires PrefixClosed(paths) && Walking(paths, start, rest + [p], visited) && ListsBranches(paths, p, tokens)
    ensures p in paths && p !in visited && start <= p
    ensures Walking(paths, start, rest + Children(p, tokens), visited + {p})
  {
    var stack, children := rest + [p], Children(p, tokens);
    assert stack[|rest|] == p;
    ChildrenApart(paths, rest, p, tokens);
    forall i | 0 <= i < |rest + children|
      ensures (rest + children)[i] in paths && start <= (rest + children)[i]
    {
      if i < |rest| {
        assert (rest + children)[i] == stack[i];
      } else {
        assert tokens[i - |rest|] in tokens;
      }
    }
    assert Covered(stack, p);
    forall q | q in paths
      ensures q in visited + {p} <==> start <= q && !Covered(rest + children, q)
    {
      CoveredConcat(rest, [p], q);
      CoveredConcat(rest, children, q);
      BelowPath(paths, p, tokens, q);
      assert Covered([p], q) <==> p <= q by {
        assert p <= q ==> [p][0] <= q;
      }
      if q == p {
        NotBoth(rest, p, q);
        NotBelowOwnChildren(p, tokens);
      }
    }
  }

  lemma NotBelowOwnChildren<T(!new)>(p: seq<T>, tokens: seq<T>)
    ensures !Covered(Children(p, tokens), p)
  {
  }
}
