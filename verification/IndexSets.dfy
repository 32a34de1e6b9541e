/** Sets of item indices, and sequences that arrange them. */
module IndexSets {
  import opened Permutations
  import opened QuickSort

  function SetOf(s: seq<nat>): set<nat> {
    set x | x in s
  }

  /** The indices of n items. */
  function All(n: nat): (all: set<nat>)
    ensures forall x: nat :: x in all <==> x < n
  {
    UptoMembers(n);
    SetOf(Upto(n))
  }

  function Upto(n: nat): (s: seq<nat>)
    ensures |s| == n && forall i :: 0 <= i < n ==> s[i] == i
  {
    seq(n, i => i)
  }

  lemma UptoMembers(n: nat)
    ensures forall x: nat :: x in Upto(n) <==> x < n
  {
    forall x: nat | x < n
      ensures x in Upto(n)
    {
      assert Upto(n)[x] == x;
    }
  }

  ghost predicate Permutation(idx: seq<nat>, n: nat) {
    |idx| == n && Distinct(idx) && SetOf(idx) == All(n)
  }

  lemma {:induction false} DistinctSize(s: seq<nat>)
    requires Distinct(s)
    ensures |SetOf(s)| == |s|
  {
    if s != [] {
      assert s == [s[0]] + s[1..];
      assert SetOf(s) == {s[0]} + SetOf(s[1..]);
      DistinctSize(s[1..]);
    }
  }

  lemma AllSize(n: nat)
    ensures |All(n)| == n
  {
    DistinctSize(Upto(n));
  }

  lemma SameSizeSets(a: set<nat>, b: set<nat>)
    requires a <= b && |a| == |b|
    ensures a == b
  {
    assert b == a + (b - a);
  }

  /** n distinct numbers below n are all of them. */
  lemma DistinctCovers(s: seq<nat>, n: nat)
    requires Distinct(s) && |s| == n && forall i :: 0 <= i < n ==> s[i] < n
    ensures SetOf(s) == All(n)
  {
    DistinctSize(s);
    DistinctSize(Upto(n));
    SameSizeSets(SetOf(s), All(n));
  }

  lemma StretchesApart(idx: seq<nat>, a: nat, b: nat, c: nat, d: nat)
    requires Distinct(idx) && a <= b <= |idx| && c <= d <= |idx|
    requires b <= c || d <= a
    ensures SetOf(idx[a..b]) !! SetOf(idx[c..d])
  {
    forall x | x in SetOf(idx[a..b])
      ensures x !in SetOf(idx[c..d])
    {
      var p :| 0 <= p < b - a && idx[a..b][p] == x;
      forall q | 0 <= q < d - c
        ensures idx[c..d][q] != x
      {
        assert idx[a + p] != idx[c + q];
      }
    }
  }

  lemma DistinctRearranged(was: seq<nat>, now: seq<nat>)
    requires Distinct(was) && Permuted(now, was)
    ensures Distinct(now) && SetOf(now) == SetOf(was)
  {
    forall x
      ensures x in now <==> x in was
    {
      assert x in multiset(now) <==> x in multiset(was);
    }
    forall i, j | 0 <= i < j < |now|
      ensures now[i] != now[j]
    {
      CountDistinct(was, now[i]);
      CountTwice(now, i, j);
    }
  }

  lemma CountTwice(s: seq<nat>, i: nat, j: nat)
    requires i < j < |s|
    ensures s[i] == s[j] ==> multiset(s)[s[i]] >= 2
  {
    assert s == s[..i] + [s[i]] + s[i + 1..j] + [s[j]] + s[j + 1..];
  }

  /** Sorting a stretch changes neither the set of a stretch around it nor of one apart from it. */
  lemma SetKept(was: seq<nat>, now: seq<nat>, lo: nat, hi: nat, a: nat, b: nat)
    requires Rearranged(was, now, lo, hi) && a <= b <= |was|
    requires b <= lo || hi <= a || (a <= lo && hi <= b)
    ensures SetOf(now[a..b]) == SetOf(was[a..b])
  {
    if b <= lo || hi <= a {
      forall p | a <= p < b
        ensures now[p] == was[p]
      {
        if p < lo {
          assert now[..lo][p] == was[..lo][p];
        } else {
          assert now[hi..][p - hi] == was[hi..][p - hi];
        }
      }
      assert now[a..b] == was[a..b];
    } else {
      RearrangedInside(was, now, lo, hi, a, b);
      forall x
        ensures x in now[a..b] <==> x in was[a..b]
      {
        assert x in multiset(now[a..b]) <==> x in multiset(was[a..b]);
      }
    }
  }

  lemma WholeRearranged(was: seq<nat>, now: seq<nat>, lo: nat, hi: nat)
    requires Rearranged(was, now, lo, hi)
    ensures Permuted(now, was)
  {
    RearrangedInside(was, now, lo, hi, 0, |was|);
    assert now[0..|was|] == now && was[0..|was|] == was;
  }

  lemma IndexInRange(idx: seq<nat>, n: nat)
    requires Permutation(idx, n)
    ensures forall x :: 0 <= x < n ==> idx[x] < n
  {
    forall x | 0 <= x < n
      ensures idx[x] < n
    {
      assert idx[x] in SetOf(idx);
    }
  }

  lemma IndicesStay(was: seq<nat>, now: seq<nat>, lo: nat, hi: nat, n: nat)
    requires Permutation(was, n) && Rearranged(was, now, lo, hi)
    ensures Permutation(now, n)
  {
    WholeRearranged(was, now, lo, hi);
    DistinctRearranged(was, now);
  }

  lemma StartingIndices(idx: seq<nat>, n: nat)
    requires |idx| == n && forall i :: 0 <= i < n ==> idx[i] == i
    ensures Permutation(idx, n)
  {
    assert idx == Upto(n);
  }

  function Filter<T>(f: T -> bool, s: seq<T>): seq<T> {
    if s == [] then [] else (if f(s[0]) then [s[0]] else []) + Filter(f, s[1..])
  }

  lemma {:induction false} FilterMembers(f: nat -> bool, s: seq<nat>)
    requires Distinct(s)
    ensures Distinct(Filter(f, s))
    ensures forall x :: x in Filter(f, s) <==> x in s && f(x)
  {
    if s != [] {
      assert s == [s[0]] + s[1..];
      FilterMembers(f, s[1..]);
      forall x | x in Filter(f, s[1..])
        ensures x != s[0]
      {
      }
    }
  }

  lemma {:induction false} FilterConcat<T>(f: T -> bool, a: seq<T>, b: seq<T>)
    ensures Filter(f, a + b) == Filter(f, a) + Filter(f, b)
  {
    if a == [] {
      assert a + b == b;
    } else {
      var first := if f(a[0]) then [a[0]] else [];
      assert (a + b)[0] == a[0] && (a + b)[1..] == a[1..] + b;
      FilterConcat(f, a[1..], b);
      assert Filter(f, a + b) == first + (Filter(f, a[1..]) + Filter(f, b));
    }
  }

  lemma {:induction false} FilterCounts<T>(f: T -> bool, s: seq<T>, x: T)
    ensures multiset(Filter(f, s))[x] == if f(x) then multiset(s)[x] else 0
  {
    if s != [] {
      assert s == [s[0]] + s[1..];
      FilterCounts(f, s[1..], x);
    }
  }

  /** Filtering permutations gives permutations. */
  lemma FilterPermuted<T(!new)>(f: T -> bool, s: seq<T>, t: seq<T>)
    requires Permuted(s, t)
    ensures Permuted(Filter(f, s), Filter(f, t))
  {
    var a, b := multiset(Filter(f, s)), multiset(Filter(f, t));
    forall x: T
      ensures a[x] == b[x]
    {
      FilterCounts(f, s, x);
      FilterCounts(f, t, x);
    }
    assert a == b;
  }

  /** The indices not listed, so that both lists together hold every index once. */
  lemma LeftOut(ids: seq<nat>, n: nat) returns (others: seq<nat>)
    requires Distinct(ids) && forall x :: x in ids ==> x < n
    ensures Permuted(Upto(n), ids + others)
    ensures forall x: nat :: x in others <==> x < n && x !in ids
    ensures others == [] || exists x: nat :: x < n && x !in ids
  {
    var f := (x: nat) => x !in ids;
    others := Filter(f, Upto(n));
    FilterMembers(f, Upto(n));
    UptoMembers(n);
    DistinctConcat(ids, others);
    DistinctPermuted(Upto(n), ids + others);
    if others != [] {
      assert others[0] in others;
    }
  }
}
