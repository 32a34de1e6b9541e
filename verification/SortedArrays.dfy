/** Merging, uniting and intersecting two sorted arrays. */
module SortedArrays {
  import opened BinarySearch

  ghost predicate Sorted(s: seq<int>) {
    Ascending(s, 0, |s|)
  }

  ghost predicate Increasing(s: seq<int>) {
    forall i, j :: 0 <= i < j < |s| ==> s[i] < s[j]
  }

  /** What the numbers taken so far and those still ahead share: nothing ahead is below anything taken. */
  ghost predicate Below(taken: seq<int>, ahead: seq<int>, from: nat) {
    forall i, j :: 0 <= i < |taken| && from <= j < |ahead| ==> taken[i] <= ahead[j]
  }

  ghost predicate StrictlyBelow(taken: seq<int>, ahead: seq<int>, from: nat) {
    forall i, j :: 0 <= i < |taken| && from <= j < |ahead| ==> taken[i] < ahead[j]
  }

  /** An increasing sequence is determined by its members, so the contracts below leave one result. */
  lemma {:induction false} IncreasingIsUnique(s: seq<int>, t: seq<int>)
    requires Increasing(s) && Increasing(t)
    requires forall x :: x in s <==> x in t
    ensures s == t
  {
    if t != [] {
      assert t[|t| - 1] in t;
    }
    if s != [] {
      var n, m := |s| - 1, |t| - 1;
      assert s[n] in s && s[n] in t && t[m] in s;
      assert s[n] == t[m];
      assert s == s[..n] + [s[n]] && t == t[..m] + [t[m]];
      forall x
        ensures x in s[..n] <==> x in t[..m]
      {
        assert x in s <==> x in s[..n] || x == s[n];
        assert x in t <==> x in t[..m] || x == t[m];
      }
      IncreasingIsUnique(s[..n], t[..m]);
    }
  }

  /** The order of the operands decides nothing: both are swapped when the first starts later. */
  method Ordered(a0: seq<int>, b0: seq<int>) returns (a: seq<int>, b: seq<int>)
    requires a0 != [] && b0 != []
    ensures (a, b) == (a0, b0) || (a, b) == (b0, a0)
    ensures a[0] <= b[0]
  {
    a, b := a0, b0;
    if a[0] > b[0] {
      a, b := b, a;
    }
  }

  // ----- Merging -----

  lemma AppendSorted(s: seq<int>, x: int)
    requires Sorted(s) && Below(s, [x], 0)
    ensures Sorted(s + [x])
  {
  }

  lemma ConcatSorted(a: seq<int>, b: seq<int>)
    requires Sorted(a) && Sorted(b) && a != [] && b != [] && a[|a| - 1] <= b[0]
    ensures Sorted(a + b)
  {
  }

  /** One more element of `a` is taken. */
  lemma Taken(a: seq<int>, i: nat)
    requires i < |a|
    ensures multiset(a[..i + 1]) == multiset(a[..i]) + multiset{a[i]}
  {
    assert a[..i + 1] == a[..i] + [a[i]];
  }

  ghost predicate Merging(a: seq<int>, i: nat, b: seq<int>, j: nat, merged: seq<int>) {
    && i <= |a| && j <= |b|
    && multiset(merged) == multiset(a[..i]) + multiset(b[..j])
    && Sorted(merged) && Below(merged, a, i) && Below(merged, b, j)
  }

  /** Taking an element that nothing ahead precedes. */
  lemma TakeFirst(a: seq<int>, i: nat, b: seq<int>, j: nat, merged: seq<int>)
    requires Merging(a, i, b, j, merged) && Sorted(a) && Sorted(b)
    requires i < |a| && (j < |b| ==> a[i] <= b[j])
    ensures Merging(a, i + 1, b, j, merged + [a[i]])
  {
    Taken(a, i);
    AppendSorted(merged, a[i]);
  }

  lemma TakeSecond(a: seq<int>, i: nat, b: seq<int>, j: nat, merged: seq<int>)
    requires Merging(a, i, b, j, merged) && Sorted(a) && Sorted(b)
    requires j < |b| && (i < |a| ==> b[j] <= a[i])
    ensures Merging(a, i, b, j + 1, merged + [b[j]])
  {
    Taken(b, j);
    AppendSorted(merged, b[j]);
  }

  method MergeArrays(a0: seq<int>, b0: seq<int>) returns (merged: seq<int>)
    requires Sorted(a0) && Sorted(b0)
    ensures Sorted(merged) && multiset(merged) == multiset(a0) + multiset(b0)
    ensures forall i, j :: 0 <= i < j < |merged| ==> merged[i] <= merged[j]
  {
    merged := Merge(a0, b0);
    assert Ascending(merged, 0, |merged|);
  }

  method Merge(a0: seq<int>, b0: seq<int>) returns (merged: seq<int>)
    requires Sorted(a0) && Sorted(b0)
    ensures Sorted(merged) && multiset(merged) == multiset(a0) + multiset(b0)
  {
    if a0 == [] {
      return b0;
    }
    if b0 == [] {
      return a0;
    }
    var a, b := Ordered(a0, b0);
    if a[|a| - 1] <= b[0] {
      ConcatSorted(a, b);
      return a + b;
    }
    hide Sorted, Below;
    var i, j;
    merged, i := MergeStart(a, b);
    merged, i, j := MergeOverlap(a, i, b, merged);
    merged, i, j := MergeRest(a, i, b, j, merged);
    assert a[..|a|] == a && b[..|b|] == b;
  }

  method MergeStart(a: seq<int>, b: seq<int>) returns (merged: seq<int>, i: nat)
    requires Sorted(a) && Sorted(b) && b != []
    ensures Merging(a, i, b, 0, merged)
  {
    merged, i := [], 0;
    while i < |a| && a[i] <= b[0]
      invariant Merging(a, i, b, 0, merged)
    {
      TakeFirst(a, i, b, 0, merged);
      merged := merged + [a[i]];
      i := i + 1;
    }
  }

  method MergeOverlap(a: seq<int>, i0: nat, b: seq<int>, merged0: seq<int>) returns (merged: seq<int>, i: nat, j: nat)
    requires Sorted(a) && Sorted(b) && Merging(a, i0, b, 0, merged0)
    ensures Merging(a, i, b, j, merged) && (i == |a| || j == |b|)
  {
    hide Sorted, Below;
    merged, i, j := merged0, i0, 0;
    while i < |a| && j < |b|
      invariant Merging(a, i, b, j, merged)
      decreases |a| - i + |b| - j
    {
      if a[i] <= b[j] {
        TakeFirst(a, i, b, j, merged);
        merged := merged + [a[i]];
        i := i + 1;
      } else {
        TakeSecond(a, i, b, j, merged);
        merged := merged + [b[j]];
        j := j + 1;
      }
    }
  }

  method MergeRest(a: seq<int>, i0: nat, b: seq<int>, j0: nat, merged0: seq<int>) returns (merged: seq<int>, i: nat, j: nat)
    requires Sorted(a) && Sorted(b) && Merging(a, i0, b, j0, merged0) && (i0 == |a| || j0 == |b|)
    ensures Merging(a, i, b, j, merged) && i == |a| && j == |b|
  {
    merged, i, j := merged0, i0, j0;
    while i < |a|
      invariant Merging(a, i, b, j, merged) && (i == |a| || j == |b|) && (i < |a| ==> j == |b|)
    {
      TakeFirst(a, i, b, j, merged);
      merged := merged + [a[i]];
      i := i + 1;
    }
    while j < |b|
      invariant Merging(a, i, b, j, merged) && i == |a|
    {
      TakeSecond(a, i, b, j, merged);
      merged := merged + [b[j]];
      j := j + 1;
    }
  }

  // ----- Union -----

  ghost predicate Uniting(a: seq<int>, i: nat, b: seq<int>, j: nat, united: seq<int>) {
    && i <= |a| && j <= |b|
    && (forall x :: x in united <==> x in a[..i] || x in b[..j])
    && Increasing(united) && Below(united, a, i) && Below(united, b, j)
  }

  /** Appends an element unless it is the last one already. */
  method PushNew(s: seq<int>, x: int) returns (t: seq<int>)
    requires Increasing(s) && Below(s, [x], 0)
    ensures Increasing(t) && t == if x in s then s else s + [x]
  {
    if s == [] || s[|s| - 1] != x {
      forall i | 0 <= i < |s|
        ensures s[i] < x
      {
        assert s[i] <= [x][0] && s[|s| - 1] <= [x][0];
      }
      t := s + [x];
    } else {
      t := s;
    }
  }

  lemma UniteFirst(a: seq<int>, i: nat, b: seq<int>, j: nat, united: seq<int>, t: seq<int>)
    requires Uniting(a, i, b, j, united) && Increasing(a) && Increasing(b)
    requires i < |a| && (j < |b| ==> a[i] <= b[j])
    requires Increasing(t) && t == if a[i] in united then united else united + [a[i]]
    ensures Uniting(a, i + 1, b, j, t)
  {
    assert a[..i + 1] == a[..i] + [a[i]];
  }

  lemma UniteSecond(a: seq<int>, i: nat, b: seq<int>, j: nat, united: seq<int>, t: seq<int>)
    requires Uniting(a, i, b, j, united) && Increasing(a) && Increasing(b)
    requires j < |b| && (i < |a| ==> b[j] <= a[i])
    requires Increasing(t) && t == if b[j] in united then united else united + [b[j]]
    ensures Uniting(a, i, b, j + 1, t)
  {
    assert b[..j + 1] == b[..j] + [b[j]];
  }

  method UnionUniqueArrays(a0: seq<int>, b0: seq<int>) returns (united: seq<int>)
    requires Increasing(a0) && Increasing(b0)
    ensures Increasing(united) && forall x :: x in united <==> x in a0 || x in b0
    ensures forall i, j :: 0 <= i < j < |united| ==> united[i] < united[j]
  {
    if a0 == [] {
      return b0;
    }
    if b0 == [] {
      return a0;
    }
    var a, b := Ordered(a0, b0);
    if a[|a| - 1] < b[0] {
      return a + b;
    }
    var i, j;
    united, i := UniteStart(a, b);
    united, i, j := UniteOverlap(a, i, b, united);
    united, i, j := UniteRest(a, i, b, j, united);
    assert a[..|a|] == a && b[..|b|] == b;
  }

  method UniteStart(a: seq<int>, b: seq<int>) returns (united: seq<int>, i: nat)
    requires Increasing(a) && Increasing(b) && b != []
    ensures Uniting(a, i, b, 0, united)
  {
    united, i := [], 0;
    while i < |a| && a[i] < b[0]
      invariant Uniting(a, i, b, 0, united) && united == a[..i]
    {
      UniteFirst(a, i, b, 0, united, united + [a[i]]);
      united := united + [a[i]];
      i := i + 1;
    }
  }

  method UniteOverlap(a: seq<int>, i0: nat, b: seq<int>, united0: seq<int>) returns (united: seq<int>, i: nat, j: nat)
    requires Increasing(a) && Increasing(b) && Uniting(a, i0, b, 0, united0)
    ensures Uniting(a, i, b, j, united) && (i == |a| || j == |b|)
  {
    hide Increasing;
    united, i, j := united0, i0, 0;
    while i < |a| && j < |b|
      invariant Uniting(a, i, b, j, united)
      decreases |a| - i + |b| - j
    {
      if a[i] <= b[j] {
        var t := PushNew(united, a[i]);
        UniteFirst(a, i, b, j, united, t);
        united, i := t, i + 1;
      } else {
        var t := PushNew(united, b[j]);
        UniteSecond(a, i, b, j, united, t);
        united, j := t, j + 1;
      }
    }
  }

  method UniteRest(a: seq<int>, i0: nat, b: seq<int>, j0: nat, united0: seq<int>) returns (united: seq<int>, i: nat, j: nat)
    requires Increasing(a) && Increasing(b) && Uniting(a, i0, b, j0, united0) && (i0 == |a| || j0 == |b|)
    ensures Uniting(a, i, b, j, united) && i == |a| && j == |b|
  {
    united, i, j := united0, i0, j0;
    while i < |a|
      invariant Uniting(a, i, b, j, united) && (i < |a| ==> j == |b|)
    {
      var t := PushNew(united, a[i]);
      UniteFirst(a, i, b, j, united, t);
      united, i := t, i + 1;
    }
    while j < |b|
      invariant Uniting(a, i, b, j, united) && i == |a|
    {
      var t := PushNew(united, b[j]);
      UniteSecond(a, i, b, j, united, t);
      united, j := t, j + 1;
    }
  }

  // ----- Intersection -----

  /** Every common element passed by in either array is already common to both, in order. */
  ghost predicate Intersecting(a: seq<int>, i: nat, b: seq<int>, j: nat, common: seq<int>) {
    && i <= |a| && j <= |b|
    && (forall x :: x in common ==> x in a && x in b)
    && (forall k :: 0 <= k < i && a[k] in b ==> a[k] in common)
    && (forall k :: 0 <= k < j && b[k] in a ==> b[k] in common)
    && Increasing(common) && StrictlyBelow(common, a, i) && StrictlyBelow(common, b, j)
  }

  lemma PlacesFollowOrder(s: seq<int>, x: nat, y: nat)
    requires Increasing(s) && x < |s| && y < |s| && s[x] < s[y]
    ensures x < y
  {
  }

  /** Galloping in `a` up to the first element not below the head of `b` passes by nothing common. */
  lemma SkipFirst(a: seq<int>, i: nat, b: seq<int>, j: nat, common: seq<int>, i': nat)
    requires Increasing(a) && Increasing(b) && Intersecting(a, i, b, j, common)
    requires i < i' <= |a| && j < |b| && forall k :: i <= k < i' ==> a[k] < b[j]
    ensures Intersecting(a, i', b, j, common)
  {
    forall k | i <= k < i' && a[k] in b
      ensures a[k] in common
    {
      var m :| 0 <= m < |b| && b[m] == a[k];
      PlacesFollowOrder(b, m, j);
      assert b[m] in common;
    }
  }

  lemma SkipSecond(a: seq<int>, i: nat, b: seq<int>, j: nat, common: seq<int>, j': nat)
    requires Increasing(a) && Increasing(b) && Intersecting(a, i, b, j, common)
    requires j < j' <= |b| && i < |a| && forall k :: j <= k < j' ==> b[k] < a[i]
    ensures Intersecting(a, i, b, j', common)
  {
    SkipFirst(b, j, a, i, common, j');
  }

  lemma TakeBoth(a: seq<int>, i: nat, b: seq<int>, j: nat, common: seq<int>)
    requires Increasing(a) && Increasing(b) && Intersecting(a, i, b, j, common)
    requires i < |a| && j < |b| && a[i] == b[j]
    ensures Intersecting(a, i + 1, b, j + 1, common + [a[i]])
  {
    assert a[i] in a && b[j] in b;
  }

  lemma IncreasingAscends(s: seq<int>, lo: nat)
    requires Increasing(s) && lo <= |s|
    ensures Ascending(s, lo, |s|)
  {
  }

  method IntersectionUniqueArrays(a0: seq<int>, b0: seq<int>) returns (common: seq<int>)
    requires Increasing(a0) && Increasing(b0)
    ensures Increasing(common) && forall x :: x in common <==> x in a0 && x in b0
    ensures forall i, j :: 0 <= i < j < |common| ==> common[i] < common[j]
  {
    common := [];
    if a0 == [] || b0 == [] {
      return;
    }
    var a, b := Ordered(a0, b0);
    var aEnd, bStart := a[|a| - 1], b[0];
    if aEnd < bStart {
      return;
    }
    IncreasingAscends(a, 0);
    IncreasingAscends(b, 0);
    var i := LowerBoundFrom(a, bStart, 0);
    var bLength := UpperBound(b, aEnd, 0, |b|);
    common := IntersectOverlap(a, i, b, bLength);
  }

  /** Walks both windows, galloping past what only one of them holds. */
  method IntersectOverlap(a: seq<int>, i0: nat, b: seq<int>, bLength: nat) returns (common: seq<int>)
    requires a != [] && Increasing(a) && Increasing(b) && Intersecting(a, i0, b, 0, []) && bLength <= |b|
    requires forall k :: bLength <= k < |b| ==> a[|a| - 1] < b[k]
    ensures Increasing(common) && forall x :: x in common <==> x in a && x in b
  {
    hide Increasing, StrictlyBelow;
    var i: nat, j: nat := i0, 0;
    common := [];
    while i < |a| && j < bLength
      invariant Intersecting(a, i, b, j, common)
      decreases |a| - i + |b| - j
    {
      if a[i] < b[j] {
        var i' := LowerBoundFrom(a, b[j], i + 1);
        SkipFirst(a, i, b, j, common, i');
        i := i';
      } else if a[i] > b[j] {
        var j' := LowerBoundFrom(b, a[i], j + 1);
        SkipSecond(a, i, b, j, common, j');
        j := j';
      } else {
        TakeBoth(a, i, b, j, common);
        common := common + [a[i]];
        i, j := i + 1, j + 1;
      }
    }
    Exhausted(a, i, b, j, common, bLength);
  }

  method LowerBoundFrom(s: seq<int>, value: int, lo: nat) returns (r: nat)
    requires Increasing(s) && lo <= |s|
    ensures lo <= r <= |s|
    ensures forall k :: lo <= k < r ==> s[k] < value
    ensures forall k :: r <= k < |s| ==> value <= s[k]
  {
    IncreasingAscends(s, lo);
    r := LowerBound(s, value, lo, |s|);
  }

  /** Once either window is used up, no common element is left: what follows in `b` is above all of `a`. */
  lemma Exhausted(a: seq<int>, i: nat, b: seq<int>, j: nat, common: seq<int>, bLength: nat)
    requires a != [] && Increasing(a) && Intersecting(a, i, b, j, common) && bLength <= |b|
    requires i == |a| || j >= bLength
    requires forall k :: bLength <= k < |b| ==> a[|a| - 1] < b[k]
    ensures forall x :: x in common <==> x in a && x in b
  {
    forall x | x in a && x in b
      ensures x in common
    {
      var k :| 0 <= k < |a| && a[k] == x;
      var m :| 0 <= m < |b| && b[m] == x;
      assert a[k] <= a[|a| - 1];
      assert m < bLength;
    }
  }
}
