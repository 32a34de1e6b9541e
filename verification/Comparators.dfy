/** Comparators: negative, zero or positive as the first argument goes before, with or after
    the second. */
module Comparators {

  ghost predicate TotalPreorder<T(!new)>(compare: (T, T) -> int) {
    && (forall a, b :: compare(a, b) < 0 <==> compare(b, a) > 0)
    && (forall a, b, c :: Chain(compare, a, b, c) ==> compare(a, c) <= 0)
  }

  /** Named so that transitivity is only used where it is asked for. */
  ghost predicate Chain<T>(compare: (T, T) -> int, a: T, b: T, c: T) {
    compare(a, b) <= 0 && compare(b, c) <= 0
  }

  lemma Transitive<T(!new)>(compare: (T, T) -> int, a: T, b: T, c: T)
    requires TotalPreorder(compare) && compare(a, b) <= 0 && compare(b, c) <= 0
    ensures compare(a, c) <= 0
  {
    assert Chain(compare, a, b, c);
  }

  function Reverse<T>(compare: (T, T) -> int): (T, T) -> int {
    (a, b) => compare(b, a)
  }

  lemma ReverseIsTotal<T(!new)>(compare: (T, T) -> int)
    requires TotalPreorder(compare)
    ensures TotalPreorder(Reverse(compare))
  {
    var reverse := Reverse(compare);
    forall a, b, c | Chain(reverse, a, b, c)
      ensures reverse(a, c) <= 0
    {
      Transitive(compare, c, b, a);
    }
  }

  ghost predicate SortedBy<T>(compare: (T, T) -> int, s: seq<T>) {
    forall i, j :: 0 <= i < j < |s| ==> compare(s[i], s[j]) <= 0
  }

  function Min(x: nat, y: nat): nat {
    if x <= y then x else y
  }

  /** `kept` are k best members of `all`, or all of them when there are fewer. */
  ghost predicate BestOf<T(!new)>(compare: (T, T) -> int, kept: multiset<T>, all: multiset<T>, k: nat) {
    && kept <= all
    && |kept| == Min(k, |all|)
    && forall x, y :: x in kept && y in all - kept ==> compare(x, y) <= 0
  }

  ghost predicate Antisymmetric<T(!new)>(compare: (T, T) -> int) {
    forall a, b :: compare(a, b) <= 0 && compare(b, a) <= 0 ==> a == b
  }

  lemma SameSizeSubset<T>(a: multiset<T>, b: multiset<T>)
    requires a <= b && |a| == |b|
    ensures a == b
  {
    assert b == a + (b - a);
  }

  lemma ExtraMember<T>(a: multiset<T>, b: multiset<T>) returns (x: T)
    requires |a| == |b| && a != b
    ensures a[x] > b[x]
  {
    if a <= b {
      SameSizeSubset(a, b);
    }
    x :| a[x] > b[x];
  }

  /** What one selection has and another lacks ties with what the other has instead. */
  lemma Exchange<T(!new)>(compare: (T, T) -> int, kept: multiset<T>, kept': multiset<T>, all: multiset<T>, k: nat, x: T, y: T)
    requires BestOf(compare, kept, all, k) && BestOf(compare, kept', all, k)
    requires kept[x] > kept'[x] && kept'[y] > kept[y]
    ensures compare(x, y) <= 0 && compare(y, x) <= 0
  {
    assert x in all - kept' && y in all - kept;
  }

  /** When ties are identical there is only one way to be the k best. */
  lemma BestIsUnique<T(!new)>(compare: (T, T) -> int, kept: multiset<T>, kept': multiset<T>, all: multiset<T>, k: nat)
    requires Antisymmetric(compare)
    requires BestOf(compare, kept, all, k) && BestOf(compare, kept', all, k)
    ensures kept == kept'
  {
    if kept != kept' {
      var x := ExtraMember(kept, kept');
      var y := ExtraMember(kept', kept);
      Exchange(compare, kept, kept', all, k, x, y);
    }
  }

  lemma HeadIsLeast<T(!new)>(compare: (T, T) -> int, s: seq<T>, x: T)
    requires SortedBy(compare, s) && x in multiset(s)
    ensures x == s[0] || compare(s[0], x) <= 0
  {
    assert x in s;
    var i :| 0 <= i < |s| && s[i] == x;
  }

  lemma SameSize<T>(s: seq<T>, t: seq<T>)
    requires multiset(s) == multiset(t)
    ensures |s| == |t|
  {
    assert |multiset(s)| == |multiset(t)|;
  }

  lemma HeadAndTail<T>(s: seq<T>, t: seq<T>)
    requires s != [] && t != [] && s[0] == t[0] && s[1..] == t[1..]
    ensures s == t
  {
    assert s == [s[0]] + s[1..] && t == [t[0]] + t[1..];
  }

  lemma SortedTail<T>(compare: (T, T) -> int, s: seq<T>)
    requires SortedBy(compare, s) && s != []
    ensures SortedBy(compare, s[1..]) && multiset(s[1..]) == multiset(s) - multiset{s[0]}
  {
    assert s == [s[0]] + s[1..];
  }

  lemma SameHead<T(!new)>(compare: (T, T) -> int, s: seq<T>, t: seq<T>)
    requires Antisymmetric(compare) && SortedBy(compare, s) && SortedBy(compare, t)
    requires multiset(s) == multiset(t) && s != [] && t != []
    ensures s[0] == t[0]
  {
    assert s[0] in multiset(s) && t[0] in multiset(t);
    HeadIsLeast(compare, s, t[0]);
    HeadIsLeast(compare, t, s[0]);
  }

  /** Two sorted arrangements of the same items agree when ties are identical. */
  lemma {:induction false} SortedIsUnique<T(!new)>(compare: (T, T) -> int, s: seq<T>, t: seq<T>)
    requires Antisymmetric(compare) && SortedBy(compare, s) && SortedBy(compare, t)
    requires multiset(s) == multiset(t)
    ensures s == t
  {
    SameSize(s, t);
    if s != [] {
      SameHead(compare, s, t);
      SortedTail(compare, s);
      SortedTail(compare, t);
      hide SortedBy, Antisymmetric;
      SortedIsUnique(compare, s[1..], t[1..]);
      HeadAndTail(s, t);
    }
  }
}
