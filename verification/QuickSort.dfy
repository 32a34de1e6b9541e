/** In-place quicksort driven by a fixed stack of 64 pending windows. */
module QuickSort {
  import opened Permutations

  const STACK_SIZE := 64

  function Pow2(n: nat): nat {
    if n == 0 then 1 else 2 * Pow2(n - 1)
  }

  lemma {:induction false} Pow2Grows(m: nat, n: nat)
    requires m <= n
    ensures 1 <= Pow2(m) <= Pow2(n)
    decreases n
  {
    if m < n {
      Pow2Grows(m, n - 1);
    } else if n > 0 {
      Pow2Grows(n - 1, n - 1);
    }
  }

  ghost predicate Sorted(keys: seq<real>, lo: nat, hi: nat)
    requires hi <= |keys|
  {
    forall x, y :: lo <= x < y < hi ==> keys[x] <= keys[y]
  }

  // ----- The stack of pending windows -----

  /** Every pending window lies in [lo, hi), no two of them meet, and the one at depth j
      spans at most (hi - lo) / 2^j positions. */
  ghost predicate Pending(los: seq<int>, his: seq<int>, lo: int, hi: int) {
    && |los| == |his|
    && (forall j :: 0 <= j < |los| ==> lo <= los[j] <= his[j] <= hi)
    && (forall j, m :: 0 <= j < m < |los| ==> his[j] <= los[m] || his[m] <= los[j])
    && (forall j :: 0 <= j < |los| ==> Halved(los[j], his[j], j, hi - lo))
  }

  ghost predicate Halved(l: int, h: int, depth: nat, width: int) {
    (h - l) * Pow2(depth) <= width
  }

  /** x and y still await sorting in one pending window. */
  ghost predicate Together(los: seq<int>, his: seq<int>, x: int, y: int) {
    exists j :: 0 <= j < |los| && j < |his| && los[j] <= x && y < his[j]
  }

  /** Keys of [lo, hi) are in order except inside pending windows. */
  ghost predicate OrderedAcross(keys: seq<real>, los: seq<int>, his: seq<int>, lo: nat, hi: nat)
    requires hi <= |keys|
  {
    forall x, y :: lo <= x < y < hi ==> keys[x] <= keys[y] || Together(los, his, x, y)
  }

  /** Twice the pending positions plus the number of windows: it shrinks at every step. */
  ghost function Work(los: seq<int>, his: seq<int>): int
    requires |los| == |his|
  {
    if los == [] then 0
    else
      var n := |los| - 1;
      Work(los[..n], his[..n]) + 2 * (his[n] - los[n]) + 1
  }

  lemma {:induction false} WorkIsNatural(los: seq<int>, his: seq<int>, lo: int, hi: int)
    requires Pending(los, his, lo, hi)
    ensures Work(los, his) >= 0
  {
    if los != [] {
      var n := |los| - 1;
      WorkIsNatural(los[..n], his[..n], lo, hi);
    }
  }

  ghost predicate Rearranged<T>(was: seq<T>, now: seq<T>, lo: nat, hi: nat) {
    && lo <= hi <= |was| == |now|
    && now[..lo] == was[..lo] && now[hi..] == was[hi..]
    && Permuted(now[lo..hi], was[lo..hi])
  }

  /** Rearranging an inner window rearranges the outer one and nothing outside it. */
  lemma RearrangedInside<T>(was: seq<T>, now: seq<T>, l: nat, h: nat, lo: nat, hi: nat)
    requires Rearranged(was, now, l, h) && lo <= l && h <= hi <= |was|
    ensures Rearranged(was, now, lo, hi)
  {
    assert now[lo..l] == now[..l][lo..] && was[lo..l] == was[..l][lo..];
    assert now[h..hi] == now[h..][..hi - h] && was[h..hi] == was[h..][..hi - h];
    PermutedAround(now, was, lo, hi, l, h);
    assert now[..lo] == now[..l][..lo] && was[..lo] == was[..l][..lo];
    assert now[hi..] == now[h..][hi - h..] && was[hi..] == was[h..][hi - h..];
  }

  lemma RearrangedAgain<T>(was: seq<T>, now: seq<T>, later: seq<T>, l: nat, h: nat, lo: nat, hi: nat)
    requires Rearranged(was, now, lo, hi) && Rearranged(now, later, l, h) && lo <= l && h <= hi
    ensures Rearranged(was, later, lo, hi)
  {
    RearrangedInside(now, later, l, h, lo, hi);
  }

  lemma RearrangedImages<T>(key: T -> real, was: seq<T>, now: seq<T>, lo: nat, hi: nat)
    requires Rearranged(was, now, lo, hi)
    ensures Rearranged(Map(key, was), Map(key, now), lo, hi)
  {
    MapPermuted(key, now[lo..hi], was[lo..hi]);
    assert Map(key, now)[lo..hi] == Map(key, now[lo..hi]) && Map(key, was)[lo..hi] == Map(key, was[lo..hi]);
    assert Map(key, now)[..lo] == Map(key, now[..lo]) && Map(key, was)[..lo] == Map(key, was[..lo]);
    assert Map(key, now)[hi..] == Map(key, now[hi..]) && Map(key, was)[hi..] == Map(key, was[hi..]);
  }

  /** keys' arranges the window [l, h) of keys around position p. */
  ghost predicate Partitioned(keys: seq<real>, keys': seq<real>, l: nat, h: nat, p: nat) {
    && l <= p < h
    && Rearranged(keys, keys', l, h)
    && (forall x :: l <= x < p ==> keys'[x] <= keys'[p])
    && (forall x :: p < x < h ==> keys'[p] <= keys'[x])
  }

  /** The two ways the halves around p end up on the stack. */
  ghost predicate Halves(l: int, h: int, p: int, l0: int, h0: int, l1: int, h1: int) {
    && h1 - l1 <= h0 - l0
    && ((l0 == l && h0 == p && l1 == p + 1 && h1 == h) || (l1 == l && h1 == p && l0 == p + 1 && h0 == h))
  }

  lemma WorkAppend(los: seq<int>, his: seq<int>, l: int, h: int)
    requires |los| == |his|
    ensures Work(los + [l], his + [h]) == Work(los, his) + 2 * (h - l) + 1
  {
    assert (los + [l])[..|los|] == los && (his + [h])[..|his|] == his;
  }

  lemma PendingAppend(los: seq<int>, his: seq<int>, lo: int, hi: int, l: int, h: int)
    requires Pending(los, his, lo, hi)
    requires lo <= l <= h <= hi && Halved(l, h, |los|, hi - lo)
    requires forall j :: 0 <= j < |los| ==> his[j] <= l || h <= los[j]
    ensures Pending(los + [l], his + [h], lo, hi)
  {
    forall j | 0 <= j <= |los|
      ensures Halved((los + [l])[j], (his + [h])[j], j, hi - lo)
    {
      if j < |los| {
        assert Halved(los[j], his[j], j, hi - lo);
      }
    }
  }

  lemma PendingPrefix(los: seq<int>, his: seq<int>, lo: int, hi: int, n: nat)
    requires Pending(los, his, lo, hi) && n <= |los|
    ensures Pending(los[..n], his[..n], lo, hi)
  {
    forall j | 0 <= j < n
      ensures Halved(los[..n][j], his[..n][j], j, hi - lo)
    {
      assert Halved(los[j], his[j], j, hi - lo);
    }
  }

  /** The larger half fits the depth of the window it replaces, the smaller one the next depth. */
  lemma HalvesShrink(l: int, h: int, p: int, l0: int, h0: int, l1: int, h1: int, depth: nat, width: int)
    requires l <= p < h && Halves(l, h, p, l0, h0, l1, h1) && Halved(l, h, depth, width)
    ensures Halved(l0, h0, depth, width) && Halved(l1, h1, depth + 1, width)
  {
    Pow2Grows(0, depth);
    var unit := Pow2(depth);
    MulLess(h0 - l0, h - l, unit);
    MulLess(2 * (h1 - l1), h - l, unit);
    assert (h1 - l1) * Pow2(depth + 1) == 2 * (h1 - l1) * unit;
  }

  /** The stack after its top window gave way to the halves around p. */
  ghost predicate SplitInto(los: seq<int>, his: seq<int>, los': seq<int>, his': seq<int>, p: int) {
    && |los| == |his| >= 1 && |los'| == |his'| == |los| + 1
    && var n := |los| - 1;
       && los'[..n] == los[..n] && his'[..n] == his[..n]
       && los[n] <= p < his[n]
       && Halves(los[n], his[n], p, los'[n], his'[n], los'[n + 1], his'[n + 1])
  }

  /** Replacing the top window by its two halves, the smaller on top, keeps the stack sound. */
  lemma SplitKeepsPending(los: seq<int>, his: seq<int>, los': seq<int>, his': seq<int>, lo: int, hi: int, p: int)
    requires Pending(los, his, lo, hi) && SplitInto(los, his, los', his', p)
    ensures Pending(los', his', lo, hi)
  {
    var n := |los| - 1;
    var l0, h0, l1, h1 := los'[n], his'[n], los'[n + 1], his'[n + 1];
    var los0, his0, los1, his1 := los[..n], his[..n], los[..n] + [l0], his[..n] + [h0];
    assert Halved(los[n], his[n], n, hi - lo);
    HalvesShrink(los[n], his[n], p, l0, h0, l1, h1, n, hi - lo);
    PendingPrefix(los, his, lo, hi, n);
    forall j | 0 <= j < n
      ensures his0[j] <= los[n] || his[n] <= los0[j]
    {
      assert his[j] <= los[n] || his[n] <= los[j];
    }
    SplitStack(los, his, los', his', p);
    hide Halved, Pending;
    PendingAppend(los0, his0, lo, hi, l0, h0);
    PendingAppend(los1, his1, lo, hi, l1, h1);
  }

  lemma SplitStack(los: seq<int>, his: seq<int>, los': seq<int>, his': seq<int>, p: int)
    requires SplitInto(los, his, los', his', p)
    ensures var n := |los| - 1;
            && los == los[..n] + [los[n]] && his == his[..n] + [his[n]]
            && los' == los[..n] + [los'[n]] + [los'[n + 1]] && his' == his[..n] + [his'[n]] + [his'[n + 1]]
  {
  }

  lemma SplitLessWork(los: seq<int>, his: seq<int>, los': seq<int>, his': seq<int>, p: int)
    requires SplitInto(los, his, los', his', p)
    ensures Work(los', his') < Work(los, his)
  {
    var n := |los| - 1;
    SplitStack(los, his, los', his', p);
    WorkAppend(los[..n], his[..n], los[n], his[n]);
    WorkAppend(los[..n], his[..n], los'[n], his'[n]);
    WorkAppend(los[..n] + [los'[n]], his[..n] + [his'[n]], los'[n + 1], his'[n + 1]);
  }

  lemma MulLess(a: int, b: int, unit: nat)
    requires a <= b
    ensures a * unit <= b * unit
  {
  }

  /** Partitioning the top window keeps order across the remaining windows. */
  lemma SplitKeepsOrder(keys: seq<real>, keys': seq<real>, los: seq<int>, his: seq<int>,
                        los': seq<int>, his': seq<int>, lo: nat, hi: nat, p: nat)
    requires hi <= |keys| == |keys'| && Pending(los, his, lo, hi) && SplitInto(los, his, los', his', p)
    requires OrderedAcross(keys, los, his, lo, hi)
    requires Partitioned(keys, keys', los[|los| - 1], his[|los| - 1], p)
    ensures OrderedAcross(keys', los', his', lo, hi)
  {
    var n := |los| - 1;
    var l, h := los[n], his[n];
    forall x, y | lo <= x < y < hi
      ensures keys'[x] <= keys'[y] || Together(los', his', x, y)
    {
      if l <= x && y < h {
        if x < p < y {
          assert keys'[x] <= keys'[p] <= keys'[y];
        } else if x != p && y != p {
          assert (los'[n] <= x && y < his'[n]) || (los'[n + 1] <= x && y < his'[n + 1]);
        }
      } else {
        OutsideKeepsOrder(keys, keys', los, his, los', his', lo, hi, p, x, y);
      }
    }
  }

  /** What stands at x after a partition of [l, h) stood there before, or elsewhere in the window. */
  lemma Origin(keys: seq<real>, keys': seq<real>, l: nat, h: nat, p: nat, x: nat) returns (x0: nat)
    requires Partitioned(keys, keys', l, h, p) && x < |keys'|
    ensures x0 < |keys| && keys'[x] == keys[x0]
    ensures if l <= x < h then l <= x0 < h else x0 == x
  {
    x0 := x;
    if l <= x < h {
      x0 := PermutedMember(keys', keys, l, h, x);
    } else if x < l {
      assert keys'[..l][x] == keys[..l][x];
    } else {
      assert keys'[h..][x - h] == keys[h..][x - h];
    }
  }

  /** Positions that are not both in the window stay in order, or in one pending window. */
  lemma OutsideKeepsOrder(keys: seq<real>, keys': seq<real>, los: seq<int>, his: seq<int>,
                          los': seq<int>, his': seq<int>, lo: nat, hi: nat, p: nat, x: nat, y: nat)
    requires hi <= |keys| == |keys'| && Pending(los, his, lo, hi) && SplitInto(los, his, los', his', p)
    requires OrderedAcross(keys, los, his, lo, hi)
    requires Partitioned(keys, keys', los[|los| - 1], his[|los| - 1], p)
    requires lo <= x < y < hi && !(los[|los| - 1] <= x && y < his[|los| - 1])
    ensures keys'[x] <= keys'[y] || Together(los', his', x, y)
  {
    hide Partitioned, Halved, Pow2, Halves;
    var n := |los| - 1;
    var x0 := Origin(keys, keys', los[n], his[n], p, x);
    var y0 := Origin(keys, keys', los[n], his[n], p, y);
    assert x0 < y0;
    if !(keys[x0] <= keys[y0]) {
      var j :| 0 <= j < |los| && los[j] <= x0 && y0 < his[j];
      assert j < n;
      assert los'[..n][j] == los[j] && his'[..n][j] == his[j];
      assert los'[j] <= x && y < his'[j];
    }
  }

  /** A window of at most one position holds no pair, so it can be dropped. */
  lemma DropKeepsOrder(keys: seq<real>, los: seq<int>, his: seq<int>, lo: nat, hi: nat)
    requires hi <= |keys| && Pending(los, his, lo, hi) && los != []
    requires his[|los| - 1] - los[|los| - 1] <= 1
    requires OrderedAcross(keys, los, his, lo, hi)
    ensures var n := |los| - 1;
            && Pending(los[..n], his[..n], lo, hi)
            && OrderedAcross(keys, los[..n], his[..n], lo, hi)
            && Work(los[..n], his[..n]) < Work(los, his)
  {
    var n := |los| - 1;
    PendingPrefix(los, his, lo, hi, n);
    forall x, y | lo <= x < y < hi
      ensures keys[x] <= keys[y] || Together(los[..n], his[..n], x, y)
    {
      if !(keys[x] <= keys[y]) {
        var j :| 0 <= j < |los| && los[j] <= x && y < his[j];
        assert los[..n][j] <= x && y < his[..n][j];
      }
    }
  }

  /** A window that is worth splitting is shallow enough to leave a free slot above it. */
  lemma RoomToSplit(los: seq<int>, his: seq<int>, lo: int, hi: int)
    requires Pending(los, his, lo, hi) && los != []
    requires his[|los| - 1] - los[|los| - 1] >= 2
    requires hi - lo < Pow2(STACK_SIZE)
    ensures |los| < STACK_SIZE
  {
    var n := |los| - 1;
    assert Halved(los[n], his[n], n, hi - lo);
    MulLess(2, his[n] - los[n], Pow2(n));
    if n + 1 >= STACK_SIZE {
      Pow2Grows(STACK_SIZE, n + 1);
    }
  }

  /** Replaces window i by the halves around p, larger one below. */
  method PushHalves(LOS: array<int>, HIS: array<int>, i: nat, p: int)
    requires LOS != HIS && LOS.Length == HIS.Length && i + 1 < LOS.Length
    requires LOS[i] <= p < HIS[i]
    modifies LOS, HIS
    ensures SplitInto(old(LOS[..i + 1]), old(HIS[..i + 1]), LOS[..i + 2], HIS[..i + 2], p)
  {
    ghost var los, his := LOS[..i + 1], HIS[..i + 1];
    LOS[i + 1] := p + 1;
    HIS[i + 1] := HIS[i];
    HIS[i] := p;
    if HIS[i + 1] - LOS[i + 1] > HIS[i] - LOS[i] {
      var swap := LOS[i + 1];
      LOS[i + 1] := LOS[i];
      LOS[i] := swap;
      swap := HIS[i + 1];
      HIS[i + 1] := HIS[i];
      HIS[i] := swap;
    }
    assert LOS[..i + 2][..i] == los[..i] && HIS[..i + 2][..i] == his[..i];
  }

  // ----- Partitioning a window of items by their keys -----

  /** Midway through partitioning [from, to): `pivot` is out of the array, position `hole` is
      free, everything below l is at most the pivot and everything above r at least. */
  ghost predicate Parting<T>(key: T -> real, was: seq<T>, items: seq<T>, from: nat, to: nat,
                             l: nat, r: nat, hole: nat, pivot: T) {
    && |items| == |was| && from <= l <= r < to <= |items| && l <= hole <= r
    && (forall x :: 0 <= x < |items| && !(from <= x < to) ==> items[x] == was[x])
    && Permuted(items[hole := pivot], was)
    && (forall x :: from <= x < l ==> key(items[x]) <= key(pivot))
    && (forall x :: r < x < to ==> key(pivot) <= key(items[x]))
  }

  lemma StartParting<T>(key: T -> real, items: seq<T>, from: nat, to: nat)
    requires from < to <= |items|
    ensures Parting(key, items, items, from, to, from, to - 1, from, items[from])
  {
    assert items[from := items[from]] == items;
  }

  /** r has moved down to r' over keys that are at least the pivot's and now stops at a smaller one. */
  ghost predicate ScannedDown<T>(key: T -> real, items: seq<T>, l: nat, r: nat, r': nat, pivot: T) {
    && l <= r' <= r < |items|
    && (forall x :: r' < x <= r ==> key(pivot) <= key(items[x]))
    && (r' == l || key(items[r']) < key(pivot))
  }

  ghost predicate ScannedUp<T>(key: T -> real, items: seq<T>, l: nat, r: nat, l': nat, pivot: T) {
    && l <= l' <= r < |items|
    && (forall x :: l <= x < l' ==> key(items[x]) <= key(pivot))
    && (l' == r || key(pivot) < key(items[l']))
  }

  lemma FillLow<T>(key: T -> real, was: seq<T>, items: seq<T>, from: nat, to: nat,
                   l: nat, r: nat, r': nat, pivot: T)
    requires Parting(key, was, items, from, to, l, r, l, pivot)
    requires ScannedDown(key, items, l, r, r', pivot)
    ensures if l < r' then Parting(key, was, items[l := items[r']], from, to, l + 1, r', r', pivot)
            else Parting(key, was, items, from, to, l, l, l, pivot)
  {
    MoveHole(items, l, r', pivot);
  }

  lemma FillHigh<T>(key: T -> real, was: seq<T>, items: seq<T>, from: nat, to: nat,
                    l: nat, r: nat, l': nat, pivot: T)
    requires Parting(key, was, items, from, to, l, r, r, pivot)
    requires ScannedUp(key, items, l, r, l', pivot)
    ensures if l' < r then Parting(key, was, items[r := items[l']], from, to, l', r - 1, l', pivot)
            else Parting(key, was, items, from, to, r, r, r, pivot)
  {
    MoveHole(items, r, l', pivot);
  }

  /** With the pivot back in the hole the window is partitioned. */
  lemma PartingDone<T>(key: T -> real, was: seq<T>, items: seq<T>, from: nat, to: nat, l: nat, pivot: T)
    requires Parting(key, was, items, from, to, l, l, l, pivot)
    ensures PartitionedBy(key, was, items[l := pivot], from, to, l)
  {
    var done := items[l := pivot];
    assert done[..from] == was[..from] && done[to..] == was[to..];
    PermutedWithin(done, was, from, to);
    RearrangedImages(key, was, done, from, to);
  }

  ghost predicate PartitionedBy<T>(key: T -> real, was: seq<T>, items: seq<T>, l: nat, h: nat, p: nat) {
    Rearranged(was, items, l, h) && Partitioned(Map(key, was), Map(key, items), l, h, p)
  }

  // ----- What one turn of the main loop does -----

  /** The stack describes what is left to do to sort [lo, hi) of `items`, which rearranges `was`. */
  ghost predicate Sorting<T>(key: T -> real, was: seq<T>, items: seq<T>, los: seq<int>, his: seq<int>, lo: nat, hi: nat) {
    && Pending(los, his, lo, hi)
    && Rearranged(was, items, lo, hi)
    && OrderedAcross(Map(key, items), los, his, lo, hi)
  }

  lemma RearrangedWhole<T>(was: seq<T>, now: seq<T>, lo: nat, hi: nat)
    requires Rearranged(was, now, lo, hi)
    ensures |was| == |now| && multiset(now) == multiset(was)
    ensures forall x :: 0 <= x < lo || hi <= x < |now| ==> now[x] == was[x]
  {
    assert was == was[..lo] + was[lo..hi] + was[hi..];
    assert now == now[..lo] + now[lo..hi] + now[hi..];
    forall x | 0 <= x < lo || hi <= x < |now|
      ensures now[x] == was[x]
    {
      if x < lo {
        assert now[..lo][x] == was[..lo][x];
      } else {
        assert now[hi..][x - hi] == was[hi..][x - hi];
      }
    }
  }

  /** Once no window is pending the items are in order. */
  lemma SortedAtLast<T>(key: T -> real, was: seq<T>, items: seq<T>, los: seq<int>, his: seq<int>, lo: nat, hi: nat)
    requires Sorting(key, was, items, los, his, lo, hi) && los == []
    ensures lo <= hi <= |items| && Sorted(Map(key, items), lo, hi) && Rearranged(was, items, lo, hi)
  {
  }

  lemma StartSorting<T>(key: T -> real, items: seq<T>, lo: nat, hi: nat)
    requires lo <= hi <= |items|
    ensures Sorting(key, items, items, [lo], [hi], lo, hi)
  {
    assert Halved(lo, hi, 0, hi - lo);
    forall x, y | lo <= x < y < hi
      ensures Together([lo], [hi], x, y)
    {
      var los: seq<int>, his: seq<int> := [lo], [hi];
      assert los[0] <= x && y < his[0];
    }
  }

  /** The top window lies in [lo, hi), and one worth splitting leaves a free slot above it. */
  lemma TopWindow<T>(key: T -> real, was: seq<T>, items: seq<T>, los: seq<int>, his: seq<int>, lo: nat, hi: nat)
    requires Sorting(key, was, items, los, his, lo, hi) && los != [] && hi - lo < Pow2(STACK_SIZE)
    ensures var n := |los| - 1; n < |his| && lo <= los[n] <= his[n] <= hi <= |items| && Rearranged(was, items, lo, hi)
    ensures var n := |los| - 1; his[n] - los[n] >= 2 ==> |los| < STACK_SIZE
  {
    if his[|los| - 1] - los[|los| - 1] >= 2 {
      RoomToSplit(los, his, lo, hi);
    }
  }

  lemma PartitionedBounds<T>(key: T -> real, was: seq<T>, items: seq<T>, l: nat, h: nat, p: nat)
    requires PartitionedBy(key, was, items, l, h, p)
    ensures l <= p < h
  {
  }

  lemma SplitTop<T>(key: T -> real, was: seq<T>, items: seq<T>, items': seq<T>, lo: nat, hi: nat, p: nat,
                    los: seq<int>, his: seq<int>, los': seq<int>, his': seq<int>)
    requires Sorting(key, was, items, los, his, lo, hi) && SplitInto(los, his, los', his', p)
    requires PartitionedBy(key, items, items', los[|los| - 1], his[|los| - 1], p)
    ensures Sorting(key, was, items', los', his', lo, hi)
    ensures Work(los', his') < Work(los, his)
  {
    SplitKeepsPending(los, his, los', his', lo, hi, p);
    SplitLessWork(los, his, los', his', p);
    SplitKeepsOrder(Map(key, items), Map(key, items'), los, his, los', his', lo, hi, p);
    RearrangedAgain(was, items, items', los[|los| - 1], his[|los| - 1], lo, hi);
  }

  lemma DropTop<T>(key: T -> real, was: seq<T>, items: seq<T>, lo: nat, hi: nat,
                   los: seq<int>, his: seq<int>, los': seq<int>, his': seq<int>)
    requires Sorting(key, was, items, los, his, lo, hi) && los != []
    requires his[|los| - 1] - los[|los| - 1] <= 1
    requires los' == los[..|los| - 1] && his' == his[..|los| - 1]
    ensures Sorting(key, was, items, los', his', lo, hi)
    ensures Work(los', his') < Work(los, his)
  {
    DropKeepsOrder(Map(key, items), los, his, lo, hi);
  }

  // ----- Sorting an array of numbers -----

  function Itself(): real -> real {
    x => x
  }

  method ScanDown(array': array<real>, l: nat, r0: nat, p: real) returns (r: nat)
    requires l <= r0 < array'.Length
    ensures ScannedDown(Itself(), array'[..], l, r0, r, p)
  {
    r := r0;
    while array'[r] >= p && l < r
      invariant l <= r <= r0
      invariant forall x :: r < x <= r0 ==> p <= array'[x]
      decreases r
    {
      r := r - 1;
    }
  }

  method ScanUp(array': array<real>, l0: nat, r: nat, p: real) returns (l: nat)
    requires l0 <= r < array'.Length
    ensures ScannedUp(Itself(), array'[..], l0, r, l, p)
  {
    l := l0;
    while array'[l] <= p && l < r
      invariant l0 <= l <= r
      invariant forall x :: l0 <= x < l ==> array'[x] <= p
      decreases r - l
    {
      l := l + 1;
    }
  }

  /** Arranges the window [from, to) around its first element. */
  method PartitionArray(array': array<real>, from: nat, to: nat) returns (mid: nat)
    requires from + 1 < to <= array'.Length
    modifies array'
    ensures PartitionedBy(Itself(), old(array'[..]), array'[..], from, to, mid)
  {
    var l, r: nat := from, to - 1;
    var p := array'[l];
    ghost var was := array'[..];
    StartParting(Itself(), was, from, to);
    while l < r
      invariant Parting(Itself(), was, array'[..], from, to, l, r, l, p)
    {
      var r' := ScanDown(array', l, r, p);
      FillLow(Itself(), was, array'[..], from, to, l, r, r', p);
      r := r';
      if l < r {
        array'[l] := array'[r];
        l := l + 1;
      }
      var l' := ScanUp(array', l, r, p);
      FillHigh(Itself(), was, array'[..], from, to, l, r, l', p);
      l := l';
      if l < r {
        array'[r] := array'[l];
        r := r - 1;
      }
    }
    PartingDone(Itself(), was, array'[..], from, to, l, p);
    array'[l] := p;
    mid := l;
  }

  /** Handles the top window: splits it around a pivot, or drops it when it is sorted. */
  method SortStep(array': array<real>, LOS: array<int>, HIS: array<int>, lo: nat, hi: nat, i: nat,
                  ghost was: seq<real>)
    returns (next: int)
    requires LOS.Length == HIS.Length == STACK_SIZE && LOS != HIS && i < STACK_SIZE
    requires hi - lo < Pow2(STACK_SIZE)
    requires Sorting(Itself(), was, array'[..], LOS[..i + 1], HIS[..i + 1], lo, hi)
    modifies array', LOS, HIS
    ensures -1 <= next < STACK_SIZE
    ensures Sorting(Itself(), was, array'[..], LOS[..next + 1], HIS[..next + 1], lo, hi)
    ensures Work(LOS[..next + 1], HIS[..next + 1]) < Work(old(LOS[..i + 1]), old(HIS[..i + 1]))
  {
    hide Sorting, PartitionedBy, SplitInto, Work, Pow2;
    ghost var los, his, keys := LOS[..i + 1], HIS[..i + 1], array'[..];
    var l, h := LOS[i], HIS[i];
    assert los[i] == l && his[i] == h;
    TopWindow(Itself(), was, keys, los, his, lo, hi);
    if l < h - 1 {
      var p := PartitionArray(array', l, h);
      PartitionedBounds(Itself(), keys, array'[..], l, h, p);
      PushHalves(LOS, HIS, i, p);
      SplitTop(Itself(), was, keys, array'[..], lo, hi, p, los, his, LOS[..i + 2], HIS[..i + 2]);
      next := i + 1;
    } else {
      assert LOS[..i] == los[..i] && HIS[..i] == his[..i];
      DropTop(Itself(), was, keys, lo, hi, los, his, LOS[..i], HIS[..i]);
      next := i - 1;
    }
  }

  /** Sorts [lo, hi) of the array. */
  method InplaceQuickSort(array': array<real>, LOS: array<int>, HIS: array<int>, lo: nat, hi: nat)
    requires lo <= hi <= array'.Length && hi - lo < Pow2(STACK_SIZE)
    requires LOS.Length == HIS.Length == STACK_SIZE && LOS != HIS
    modifies array', LOS, HIS
    ensures Sorted(array'[..], lo, hi)
    ensures Rearranged(old(array'[..]), array'[..], lo, hi)
    ensures forall x, y :: lo <= x < y < hi ==> array'[x] <= array'[y]
    ensures multiset(array'[..]) == multiset(old(array'[..]))
    ensures forall x :: 0 <= x < lo || hi <= x < array'.Length ==> array'[x] == old(array'[x])
  {
    hide OrderedAcross, Sorted, Rearranged, Pending, Work;
    LOS[0] := lo;
    HIS[0] := hi;
    var i := 0;
    assert LOS[..1] == [lo] && HIS[..1] == [hi];
    StartSorting(Itself(), array'[..], lo, hi);
    while i >= 0
      invariant -1 <= i < STACK_SIZE
      invariant Sorting(Itself(), old(array'[..]), array'[..], LOS[..i + 1], HIS[..i + 1], lo, hi)
      decreases Work(LOS[..i + 1], HIS[..i + 1])
    {
      WorkIsNatural(LOS[..i + 1], HIS[..i + 1], lo, hi);
      i := SortStep(array', LOS, HIS, lo, hi, i, old(array'[..]));
    }
    SortedAtLast(Itself(), old(array'[..]), array'[..], LOS[..i + 1], HIS[..i + 1], lo, hi);
    RearrangedWhole(old(array'[..]), array'[..], lo, hi);
    assert Map(Itself(), array'[..]) == array'[..];
  }

  // ----- Sorting indices by the numbers they point to -----

  /** Positions lo to hi of `indices` point into an array of length n. */
  ghost predicate Indexes(indices: seq<nat>, lo: nat, hi: nat, n: nat) {
    forall x :: lo <= x < hi && x < |indices| ==> indices[x] < n
  }

  function ValueAt(values: seq<real>): nat -> real {
    (i: nat) => if i < |values| then values[i] else 0.0
  }

  /** Rearranging indices leaves them indices. */
  lemma IndexesRearranged(was: seq<nat>, now: seq<nat>, lo: nat, hi: nat, n: nat)
    requires Indexes(was, lo, hi, n) && Rearranged(was, now, lo, hi)
    ensures Indexes(now, lo, hi, n)
  {
    forall x | lo <= x < hi
      ensures now[x] < n
    {
      var y := PermutedMember(now, was, lo, hi, x);
    }
  }

  method ScanIndicesDown(array': array<real>, indices: array<nat>, l: nat, r0: nat, t: nat) returns (r: nat)
    requires l <= r0 < indices.Length && t < array'.Length
    requires Indexes(indices[..], l, r0 + 1, array'.Length)
    ensures ScannedDown(ValueAt(array'[..]), indices[..], l, r0, r, t)
  {
    r := r0;
    var p := array'[t];
    assert forall x :: l <= x <= r0 ==> indices[x] == indices[..][x];
    while array'[indices[r]] >= p && l < r
      invariant l <= r <= r0
      invariant forall x :: r < x <= r0 ==> p <= array'[indices[x]]
      decreases r
    {
      r := r - 1;
    }
  }

  method ScanIndicesUp(array': array<real>, indices: array<nat>, l0: nat, r: nat, t: nat) returns (l: nat)
    requires l0 <= r < indices.Length && t < array'.Length
    requires Indexes(indices[..], l0, r + 1, array'.Length)
    ensures ScannedUp(ValueAt(array'[..]), indices[..], l0, r, l, t)
  {
    l := l0;
    var p := array'[t];
    assert forall x :: l0 <= x <= r ==> indices[x] == indices[..][x];
    while array'[indices[l]] <= p && l < r
      invariant l0 <= l <= r
      invariant forall x :: l0 <= x < l ==> array'[indices[x]] <= p
      decreases r - l
    {
      l := l + 1;
    }
  }

  /** Moves r down to an index that belongs below the pivot and moves that index into the free position l. */
  method FillFromHigh(array': array<real>, indices: array<nat>, from: nat, to: nat, l: nat, r: nat, t: nat, ghost was: seq<nat>)
    returns (l': nat, r': nat)
    requires from <= l < r < to <= indices.Length && t < array'.Length && Indexes(indices[..], from, to, array'.Length)
    requires Parting(ValueAt(array'[..]), was, indices[..], from, to, l, r, l, t)
    modifies indices
    ensures l <= l' <= r' <= r && r' - l' < r - l && Indexes(indices[..], from, to, array'.Length)
    ensures Parting(ValueAt(array'[..]), was, indices[..], from, to, l', r', r', t)
  {
    hide Parting, ValueAt;
    l' := l;
    r' := ScanDownFrom(array', indices, from, to, l, r, t);
    ghost var before := indices[..];
    FillLow(ValueAt(array'[..]), was, before, from, to, l, r, r', t);
    if l' < r' {
      indices[l'] := indices[r'];
      assert indices[..] == before[l := before[r']];
      l' := l' + 1;
    }
  }

  method ScanDownFrom(array': array<real>, indices: array<nat>, ghost from: nat, ghost to: nat, l: nat, r: nat, t: nat) returns (r': nat)
    requires from <= l < r < to <= indices.Length && t < array'.Length && Indexes(indices[..], from, to, array'.Length)
    ensures l <= r' <= r && ScannedDown(ValueAt(array'[..]), indices[..], l, r, r', t)
  {
    r' := ScanIndicesDown(array', indices, l, r, t);
  }

  /** Moves l up to an index that belongs above the pivot and moves that index into the free position r. */
  method FillFromLow(array': array<real>, indices: array<nat>, from: nat, to: nat, l: nat, r: nat, t: nat, ghost was: seq<nat>)
    returns (l': nat, r': nat)
    requires from <= l <= r < to <= indices.Length && t < array'.Length && Indexes(indices[..], from, to, array'.Length)
    requires Parting(ValueAt(array'[..]), was, indices[..], from, to, l, r, r, t)
    modifies indices
    ensures l <= l' <= r' <= r && Indexes(indices[..], from, to, array'.Length)
    ensures Parting(ValueAt(array'[..]), was, indices[..], from, to, l', r', l', t)
  {
    hide Parting, ValueAt;
    l' := ScanUpFrom(array', indices, from, to, l, r, t);
    r' := r;
    ghost var before := indices[..];
    FillHigh(ValueAt(array'[..]), was, before, from, to, l, r, l', t);
    if l' < r' {
      indices[r'] := indices[l'];
      assert indices[..] == before[r := before[l']];
      r' := r' - 1;
    }
  }

  method ScanUpFrom(array': array<real>, indices: array<nat>, ghost from: nat, ghost to: nat, l: nat, r: nat, t: nat) returns (l': nat)
    requires from <= l <= r < to <= indices.Length && t < array'.Length && Indexes(indices[..], from, to, array'.Length)
    ensures l <= l' <= r && ScannedUp(ValueAt(array'[..]), indices[..], l, r, l', t)
  {
    l' := ScanIndicesUp(array', indices, l, r, t);
  }

  /** Arranges the window [from, to) of the indices around its first element. */
  method PartitionIndices(array': array<real>, indices: array<nat>, from: nat, to: nat) returns (mid: nat)
    requires from + 1 < to <= indices.Length
    requires Indexes(indices[..], from, to, array'.Length)
    modifies indices
    ensures PartitionedBy(ValueAt(array'[..]), old(indices[..]), indices[..], from, to, mid)
  {
    var l, r: nat := from, to - 1;
    var t := indices[l];
    ghost var was, key := indices[..], ValueAt(array'[..]);
    assert was[l] == t;
    StartParting(key, was, from, to);
    hide Parting, PartitionedBy, ValueAt;
    while l < r
      invariant from <= l <= r < to
      invariant Parting(key, was, indices[..], from, to, l, r, l, t)
      invariant Indexes(indices[..], from, to, array'.Length)
      decreases r - l
    {
      l, r := FillFromHigh(array', indices, from, to, l, r, t, was);
      l, r := FillFromLow(array', indices, from, to, l, r, t, was);
    }
    PartingDone(key, was, indices[..], from, to, l, t);
    indices[l] := t;
    mid := l;
  }

  method SortIndicesStep(array': array<real>, indices: array<nat>, LOS: array<int>, HIS: array<int>,
                         lo: nat, hi: nat, i: nat, ghost was: seq<nat>)
    returns (next: int)
    requires LOS.Length == HIS.Length == STACK_SIZE && LOS != HIS && i < STACK_SIZE
    requires indices as object != LOS && indices as object != HIS
    requires hi - lo < Pow2(STACK_SIZE) && Indexes(was, lo, hi, array'.Length)
    requires Sorting(ValueAt(array'[..]), was, indices[..], LOS[..i + 1], HIS[..i + 1], lo, hi)
    modifies indices, LOS, HIS
    ensures -1 <= next < STACK_SIZE
    ensures Sorting(ValueAt(array'[..]), was, indices[..], LOS[..next + 1], HIS[..next + 1], lo, hi)
    ensures Work(LOS[..next + 1], HIS[..next + 1]) < Work(old(LOS[..i + 1]), old(HIS[..i + 1]))
  {
    hide Sorting, PartitionedBy, SplitInto, Work, Pow2, ValueAt, Rearranged;
    ghost var los, his, items, key := LOS[..i + 1], HIS[..i + 1], indices[..], ValueAt(array'[..]);
    var l, h := LOS[i], HIS[i];
    assert los[i] == l && his[i] == h;
    TopWindow(key, was, items, los, his, lo, hi);
    if l < h - 1 {
      IndexesRearranged(was, items, lo, hi, array'.Length);
      var p := PartitionIndices(array', indices, l, h);
      PartitionedBounds(key, items, indices[..], l, h, p);
      PushHalves(LOS, HIS, i, p);
      SplitTop(key, was, items, indices[..], lo, hi, p, los, his, LOS[..i + 2], HIS[..i + 2]);
      next := i + 1;
    } else {
      assert LOS[..i] == los[..i] && HIS[..i] == his[..i];
      DropTop(key, was, items, lo, hi, los, his, LOS[..i], HIS[..i]);
      next := i - 1;
    }
  }

  /** Sorts [lo, hi) of the indices by the numbers they point to. */
  method InplaceQuickSortIndices(array': array<real>, indices: array<nat>, LOS: array<int>, HIS: array<int>,
                                 lo: nat, hi: nat)
    requires lo <= hi <= indices.Length && hi - lo < Pow2(STACK_SIZE)
    requires LOS.Length == HIS.Length == STACK_SIZE && LOS != HIS
    requires indices as object != LOS && indices as object != HIS
    requires Indexes(indices[..], lo, hi, array'.Length)
    modifies indices, LOS, HIS
    ensures Sorted(Map(ValueAt(array'[..]), indices[..]), lo, hi)
    ensures Rearranged(old(indices[..]), indices[..], lo, hi)
    ensures forall x :: lo <= x < hi ==> indices[x] < array'.Length
    ensures forall x, y :: lo <= x < y < hi ==> array'[indices[x]] <= array'[indices[y]]
    ensures multiset(indices[..]) == multiset(old(indices[..]))
    ensures forall x :: 0 <= x < lo || hi <= x < indices.Length ==> indices[x] == old(indices[x])
  {
    hide OrderedAcross, Sorted, Rearranged, Pending, Work;
    LOS[0] := lo;
    HIS[0] := hi;
    var i := 0;
    assert LOS[..1] == [lo] && HIS[..1] == [hi];
    StartSorting(ValueAt(array'[..]), indices[..], lo, hi);
    while i >= 0
      invariant -1 <= i < STACK_SIZE
      invariant Sorting(ValueAt(array'[..]), old(indices[..]), indices[..], LOS[..i + 1], HIS[..i + 1], lo, hi)
      decreases Work(LOS[..i + 1], HIS[..i + 1])
    {
      WorkIsNatural(LOS[..i + 1], HIS[..i + 1], lo, hi);
      i := SortIndicesStep(array', indices, LOS, HIS, lo, hi, i, old(indices[..]));
    }
    SortedAtLast(ValueAt(array'[..]), old(indices[..]), indices[..], LOS[..i + 1], HIS[..i + 1], lo, hi);
    RearrangedWhole(old(indices[..]), indices[..], lo, hi);
    IndexesRearranged(old(indices[..]), indices[..], lo, hi, array'.Length);
  }
}
