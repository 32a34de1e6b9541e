/** Sequences that hold the same elements in a different order. */
module Permutations {

  ghost predicate Permuted<T>(s: seq<T>, t: seq<T>) {
    multiset(s) == multiset(t)
  }

  /** Moving the hole that waits for `item` from h to g, by filling h with what g holds. */
  lemma MoveHole<T>(s: seq<T>, h: nat, g: nat, item: T)
    requires h < |s| && g < |s|
    ensures Permuted(s[h := s[g]][g := item], s[h := item])
  {
  }

  /** A permutation that leaves everything outside [lo, hi) alone permutes [lo, hi). */
  lemma PermutedWithin<T>(s: seq<T>, t: seq<T>, lo: nat, hi: nat)
    requires Permuted(s, t) && |s| == |t| && lo <= hi <= |s|
    requires s[..lo] == t[..lo] && s[hi..] == t[hi..]
    ensures Permuted(s[lo..hi], t[lo..hi])
  {
    assert s == s[..lo] + s[lo..hi] + s[hi..];
    assert t == t[..lo] + t[lo..hi] + t[hi..];
    forall x
      ensures multiset(s[lo..hi])[x] == multiset(t[lo..hi])[x]
    {
      assert multiset(s)[x] == multiset(s[..lo])[x] + multiset(s[lo..hi])[x] + multiset(s[hi..])[x];
      assert multiset(t)[x] == multiset(t[..lo])[x] + multiset(t[lo..hi])[x] + multiset(t[hi..])[x];
    }
  }

  lemma PermutedAround<T>(s: seq<T>, t: seq<T>, lo: nat, hi: nat, from: nat, to: nat)
    requires |s| == |t| && lo <= from <= to <= hi <= |s|
    requires Permuted(s[from..to], t[from..to])
    requires s[lo..from] == t[lo..from] && s[to..hi] == t[to..hi]
    ensures Permuted(s[lo..hi], t[lo..hi])
  {
    assert s[lo..hi] == s[lo..from] + s[from..to] + s[to..hi];
    assert t[lo..hi] == t[lo..from] + t[from..to] + t[to..hi];
  }

  lemma PermutedLength<T>(s: seq<T>, t: seq<T>)
    requires Permuted(s, t)
    ensures |s| == |t|
  {
    assert |multiset(s)| == |multiset(t)|;
  }

  /** Whatever stands in [lo, hi) after permuting it stood there before. */
  lemma PermutedMember<T>(s: seq<T>, t: seq<T>, lo: nat, hi: nat, x: nat) returns (y: nat)
    requires |s| == |t| && lo <= x < hi <= |s|
    requires Permuted(s[lo..hi], t[lo..hi])
    ensures lo <= y < hi && t[y] == s[x]
  {
    assert s[lo..hi][x - lo] in multiset(t[lo..hi]);
    var z :| 0 <= z < hi - lo && t[lo..hi][z] == s[x];
    y := z + lo;
  }

  function Map<S, T>(f: S -> T, s: seq<S>): (r: seq<T>)
    ensures |r| == |s|
    ensures forall i :: 0 <= i < |s| ==> r[i] == f(s[i])
  {
    seq(|s|, i requires 0 <= i < |s| => f(s[i]))
  }

  lemma MapAppend<S, T>(f: S -> T, s: seq<S>, t: seq<S>)
    ensures Map(f, s + t) == Map(f, s) + Map(f, t)
  {
  }

  lemma MapAppendOne<S, T>(f: S -> T, s: seq<S>, x: S)
    ensures Map(f, s + [x]) == Map(f, s) + [f(x)]
  {
  }

  function Without<T>(s: seq<T>, j: nat): seq<T>
    requires j < |s|
  {
    s[..j] + s[j + 1..]
  }

  lemma WithoutMembers<T>(s: seq<T>, j: nat)
    requires j < |s|
    ensures forall x :: x in s <==> x in Without(s, j) || x == s[j]
  {
    assert s == s[..j] + [s[j]] + s[j + 1..];
  }

  lemma WithoutOne<T>(s: seq<T>, j: nat)
    requires j < |s|
    ensures multiset(Without(s, j)) == multiset(s) - multiset{s[j]}
    ensures multiset(s) == multiset(Without(s, j)) + multiset{s[j]}
  {
    var before, after := s[..j], s[j + 1..];
    assert s == before + [s[j]] + after;
    assert multiset(before + after) == multiset(before) + multiset(after);
    assert multiset(before + [s[j]] + after) == multiset(before) + multiset{s[j]} + multiset(after);
  }

  lemma MapWithout<S, T>(f: S -> T, s: seq<S>, j: nat)
    requires j < |s|
    ensures Map(f, Without(s, j)) == Without(Map(f, s), j)
  {
  }

  lemma Member<T>(s: seq<T>, x: T) returns (j: nat)
    requires x in multiset(s)
    ensures j < |s| && s[j] == x
  {
    assert x in s;
    j :| 0 <= j < |s| && s[j] == x;
  }

  /** Rearranging the images comes from rearranging what was mapped. */
  lemma {:induction false} PermutedImage<S, T>(f: S -> T, s: seq<S>, t: seq<T>) returns (s': seq<S>)
    requires Permuted(t, Map(f, s))
    ensures Permuted(s', s) && Map(f, s') == t
    decreases |s|
  {
    PermutedLength(t, Map(f, s));
    if s == [] {
      s' := [];
    } else {
      var j := WhereFrom(f, s, t);
      var rest := PermutedImage(f, Without(s, j), t[1..]);
      s' := [s[j]] + rest;
      WithoutOne(s, j);
      MapAppend(f, [s[j]], rest);
      hide Map, Without;
      assert t == [t[0]] + t[1..] && Map(f, [s[j]]) == [t[0]];
    }
  }

  lemma WhereFrom<S, T>(f: S -> T, s: seq<S>, t: seq<T>) returns (j: nat)
    requires Permuted(t, Map(f, s)) && t != []
    ensures j < |s| && f(s[j]) == t[0] && Permuted(t[1..], Map(f, Without(s, j)))
  {
    hide Map, Without;
    assert t == [t[0]] + t[1..];
    assert t[0] in multiset(t);
    j := Member(Map(f, s), t[0]);
    WithoutOne(Map(f, s), j);
    MapWithout(f, s, j);
  }

  /** Mapping a permutation permutes the images. */
  lemma {:induction false} MapPermuted<S, T>(f: S -> T, s: seq<S>, t: seq<S>)
    requires Permuted(s, t)
    ensures Permuted(Map(f, s), Map(f, t))
  {
    PermutedLength(s, t);
    if s != [] {
      assert s[0] in multiset(t);
      var j := Member(t, s[0]);
      WithoutOne(s, 0);
      WithoutOne(t, j);
      MapPermuted(f, Without(s, 0), Without(t, j));
      MapWithout(f, s, 0);
      MapWithout(f, t, j);
      WithoutOne(Map(f, s), 0);
      WithoutOne(Map(f, t), j);
    }
  }

  ghost predicate Distinct<T>(s: seq<T>) {
    forall i, j :: 0 <= i < j < |s| ==> s[i] != s[j]
  }

  lemma DistinctConcat<T>(s: seq<T>, t: seq<T>)
    requires Distinct(s) && Distinct(t) && forall x :: x in s ==> x !in t
    ensures Distinct(s + t)
  {
    forall i, j | 0 <= i < j < |s + t|
      ensures (s + t)[i] != (s + t)[j]
    {
      if i < |s| <= j {
        assert s[i] in s && t[j - |s|] in t;
      }
    }
  }

  /** Two duplicate-free sequences with the same elements are permutations of each other. */
  lemma DistinctPermuted<T>(s: seq<T>, t: seq<T>)
    requires Distinct(s) && Distinct(t)
    requires forall x :: x in s <==> x in t
    ensures Permuted(s, t)
  {
    forall x
      ensures multiset(s)[x] == multiset(t)[x]
    {
      CountDistinct(s, x);
      CountDistinct(t, x);
    }
  }

  lemma {:induction false} CountDistinct<T>(s: seq<T>, x: T)
    requires Distinct(s)
    ensures multiset(s)[x] == if x in s then 1 else 0
  {
    if s != [] {
      assert s == [s[0]] + s[1..];
      CountDistinct(s[1..], x);
    }
  }
}
