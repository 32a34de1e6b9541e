/** How a PassjoinIndex cuts indexed strings into k + 1 segments and which substrings of a
    query it looks up, with the proof that this selection never misses a match. */
module PassjoinSelection {
  import opened Levenshtein

  // ----- The partition -----

  /** Length of segment i when a string of length l is cut in k + 1: the shorter ones first. */
  function SegmentLength(k: nat, l: nat, i: nat): nat {
    l / (k + 1) + if i < k + 1 - l % (k + 1) then 0 else 1
  }

  /** Segment i starts where the segments before it end. */
  function SegmentStart(k: nat, l: nat, i: nat): nat {
    if i == 0 then 0 else SegmentStart(k, l, i - 1) + SegmentLength(k, l, i - 1)
  }

  function SegmentTuple(k: nat, l: nat, i: nat): (nat, nat) {
    (SegmentStart(k, l, i), SegmentLength(k, l, i))
  }

  /** Position of segment i in closed form. */
  function SegmentPos(k: nat, i: nat, l: nat): nat
    requires i <= k
  {
    if i == 0 then 0
    else
      var m := k + 1;
      var a := l / m;
      var b := a + 1;
      var largeSegments := l - a * m;
      var smallSegments := m - largeSegments;
      if i <= smallSegments - 1 then i * a
      else smallSegments * a + (i - smallSegments) * b
  }

  /** Euclid's division of l by k + 1, which the closed forms below rest on. */
  lemma DivideByParts(k: nat, l: nat)
    ensures l == (l / (k + 1)) * (k + 1) + l % (k + 1)
    ensures l - (l / (k + 1)) * (k + 1) == l % (k + 1)
  {
  }

  lemma {:induction false} ClosedStart(k: nat, l: nat, i: nat, a: nat, small: nat)
    requires i <= k + 1
    requires a == l / (k + 1) && small == k + 1 - l % (k + 1)
    ensures SegmentStart(k, l, i) == i * a + if i <= small then 0 else i - small
    ensures SegmentLength(k, l, i) == a + if i < small then 0 else 1
  {
    if i > 0 {
      ClosedStart(k, l, i - 1, a, small);
      assert i * a == (i - 1) * a + a;
    }
  }

  lemma Distribute(small: nat, j: nat, a: nat)
    ensures small * a + j * (a + 1) == (small + j) * a + j
  {
  }

  lemma SegmentPosIsStart(k: nat, i: nat, l: nat)
    requires i <= k
    ensures SegmentPos(k, i, l) == SegmentStart(k, l, i)
  {
    DivideByParts(k, l);
    var a, small := l / (k + 1), k + 1 - l % (k + 1);
    ClosedStart(k, l, i, a, small);
    if i >= small {
      Distribute(small, i - small, a);
    }
  }

  /** The segments tile the string: they are consecutive and the last one ends at l. */
  lemma SegmentsTile(k: nat, l: nat)
    ensures SegmentStart(k, l, k + 1) == l
  {
    DivideByParts(k, l);
    ClosedStart(k, l, k + 1, l / (k + 1), k + 1 - l % (k + 1));
  }

  lemma {:induction false} StartWithin(k: nat, l: nat, i: nat)
    requires i <= k + 1
    ensures SegmentStart(k, l, i) <= l
    ensures i <= k ==> SegmentStart(k, l, i) + SegmentLength(k, l, i) <= l
    decreases k + 1 - i
  {
    if i == k + 1 {
      SegmentsTile(k, l);
    } else {
      StartWithin(k, l, i + 1);
    }
  }

  function Segment(k: nat, x: string, i: nat): string
    requires i <= k
  {
    StartWithin(k, |x|, i);
    var start := SegmentStart(k, |x|, i);
    x[start..start + SegmentLength(k, |x|, i)]
  }

  function Concat(parts: seq<string>): string {
    if parts == [] then "" else parts[0] + Concat(parts[1..])
  }

  /** The first i segments, concatenated, are the prefix of the string they cover. */
  lemma {:induction false} SegmentsConcatenate(k: nat, x: string, parts: seq<string>, i: nat)
    requires i <= k + 1 && |parts| == k + 1 - i
    requires forall j :: 0 <= j < |parts| ==> parts[j] == Segment(k, x, i + j)
    ensures SegmentStart(k, |x|, i) <= |x|
    ensures Concat(parts) == x[SegmentStart(k, |x|, i)..]
    decreases k + 1 - i
  {
    StartWithin(k, |x|, i);
    if i == k + 1 {
      SegmentsTile(k, |x|);
    } else {
      SegmentsConcatenate(k, x, parts[1..], i + 1);
      var start := SegmentStart(k, |x|, i);
      assert x[start..] == Segment(k, x, i) + x[start + SegmentLength(k, |x|, i)..];
    }
  }

  /** Cuts the length l into k + 1 (start, length) pairs. */
  method Partition(k: nat, l: nat) returns (tuples: seq<(nat, nat)>)
    ensures |tuples| == k + 1
    ensures forall i :: 0 <= i <= k ==> tuples[i] == SegmentTuple(k, l, i)
    ensures tuples[0].0 == 0 && tuples[k].0 + tuples[k].1 == l
    ensures forall i :: 0 < i <= k ==> tuples[i].0 == tuples[i - 1].0 + tuples[i - 1].1
    ensures forall i, j :: 0 <= i < j <= k ==> tuples[i].1 <= tuples[j].1 <= tuples[i].1 + 1
  {
    SegmentsTile(k, l);
    DivideByParts(k, l);
    var m := k + 1;
    var a := l / m;
    var b := a + 1;
    var largeSegments := l - a * m;
    var smallSegments := m - largeSegments;
    tuples := [];
    var i := 0;
    while i < smallSegments
      invariant i <= smallSegments
      invariant |tuples| == i
      invariant forall n :: 0 <= n < i ==> tuples[n] == SegmentTuple(k, l, n)
    {
      ClosedStart(k, l, i, a, smallSegments);
      tuples := tuples + [(i * a, a)];
      i := i + 1;
    }
    var offset := (i - 1) * a + a;
    Distribute(i - 1, 1, a);
    assert offset == smallSegments * a;
    var j := 0;
    while j < largeSegments
      invariant j <= largeSegments
      invariant |tuples| == i + j
      invariant forall n :: 0 <= n < i + j ==> tuples[n] == SegmentTuple(k, l, n)
    {
      ClosedStart(k, l, i + j, a, smallSegments);
      Distribute(smallSegments, j, a);
      tuples := tuples + [(offset + j * b, b)];
      j := j + 1;
    }
  }

  /** The k + 1 segments of a string, in order. */
  method Segments(k: nat, x: string) returns (S: seq<string>)
    ensures |S| == k + 1
    ensures forall i :: 0 <= i <= k ==> S[i] == Segment(k, x, i)
    ensures Concat(S) == x
    ensures forall i, j :: 0 <= i < j <= k ==> |S[i]| <= |S[j]| <= |S[i]| + 1
  {
    hide Concat, Segment, SegmentStart, SegmentLength;
    var l := |x|;
    DivideByParts(k, l);
    var m := k + 1;
    var a := l / m;
    var b := a + 1;
    var largeSegments := l - a * m;
    var smallSegments := m - largeSegments;
    S := [];
    var i := 0;
    while i < smallSegments
      invariant i <= smallSegments
      invariant |S| == i
      invariant forall n :: 0 <= n < i ==> S[n] == Segment(k, x, n)
    {
      var o := i * a;
      ClosedStart(k, l, i, a, smallSegments);
      SegmentAt(k, x, i, o, a);
      S := S + [x[o..o + a]];
      i := i + 1;
    }
    var offset := (i - 1) * a + a;
    Distribute(i - 1, 1, a);
    assert offset == smallSegments * a;
    var j := 0;
    while j < largeSegments
      invariant j <= largeSegments
      invariant |S| == i + j
      invariant forall n :: 0 <= n < i + j ==> S[n] == Segment(k, x, n)
    {
      var o := offset + j * b;
      ClosedStart(k, l, i + j, a, smallSegments);
      Distribute(smallSegments, j, a);
      SegmentAt(k, x, i + j, o, b);
      S := S + [x[o..o + b]];
      j := j + 1;
    }
    Concatenated(k, x, S);
    LengthsAscend(k, x);
  }

  lemma SegmentAt(k: nat, x: string, i: nat, o: nat, length: nat)
    requires i <= k && o == SegmentStart(k, |x|, i) && length == SegmentLength(k, |x|, i)
    ensures o + length <= |x| && Segment(k, x, i) == x[o..o + length]
  {
    StartWithin(k, |x|, i);
  }

  lemma Concatenated(k: nat, x: string, S: seq<string>)
    requires |S| == k + 1 && forall i :: 0 <= i <= k ==> S[i] == Segment(k, x, i)
    ensures Concat(S) == x
  {
    hide Concat, Segment, SegmentLength;
    forall j | 0 <= j < |S|
      ensures S[j] == Segment(k, x, 0 + j)
    {
    }
    SegmentsConcatenate(k, x, S, 0);
    assert x[SegmentStart(k, |x|, 0)..] == x;
  }

  /** Segments differ in length by one at most, and the shorter ones come first. */
  lemma LengthsAscend(k: nat, x: string)
    ensures forall i, j :: 0 <= i < j <= k ==> |Segment(k, x, i)| <= |Segment(k, x, j)| <= |Segment(k, x, i)| + 1
  {
    forall i | 0 <= i <= k
      ensures |Segment(k, x, i)| == SegmentLength(k, |x|, i)
    {
      StartWithin(k, |x|, i);
    }
  }

  // ----- The multi-match-aware window -----

  function Max(x: int, y: int): int {
    if x >= y then x else y
  }

  function Least(x: int, y: int): int {
    if x <= y then x else y
  }

  /** First and last position at which segment i may be looked for in a query of length s. */
  function MultiMatchAwareInterval(k: nat, delta: int, i: nat, s: nat, pi: nat, li: nat): (int, int) {
    var o := k - i;
    (Max(0, Max(pi - i, pi + delta - o)), Least(pi + i, Least(pi + delta + o, s - li)))
  }

  function Gap(x: int, y: int): (gap: nat)
    ensures gap == x - y || gap == y - x
  {
    if x <= y then y - x else x - y
  }

  /** A position is in the window if a segment of length li fits there, the shift against its own place
      costs at most i edits, and the shift that is left after it at most k - i. */
  lemma IntervalAt(k: nat, delta: int, i: nat, s: nat, pi: nat, li: nat, j: int)
    ensures var (start, stop) := MultiMatchAwareInterval(k, delta, i, s, pi, li);
            start <= j <= stop <==> 0 <= j <= s - li && Gap(j, pi) <= i && Gap(j, pi + delta) <= k - i
  {
  }

  /** Substring `sub` starts in the window of segment i of strings of length l. */
  ghost predicate InWindow(k: nat, query: string, l: nat, i: nat, pi: nat, li: nat, sub: string) {
    var (start, stop) := MultiMatchAwareInterval(k, |query| - l, i, |query|, pi, li);
    exists j :: SliceAt(query, start, stop, li, j, sub)
  }

  predicate SliceAt(query: string, start: int, stop: int, li: nat, j: int, sub: string) {
    0 <= start <= j <= stop && j + li <= |query| && query[j..j + li] == sub
  }

  /** The substrings to look up: every non-empty one that starts in the window, and nothing
      else; an identical neighbour is not repeated. */
  method MultiMatchAwareSubstrings(k: nat, query: string, l: nat, i: nat, pi: nat, li: nat)
    returns (substrings: seq<string>)
    ensures forall sub :: sub in substrings <==> sub != "" && InWindow(k, query, l, i, pi, li, sub)
    ensures forall sub :: sub in substrings <==>
              sub != "" && exists j :: 0 <= j <= |query| - li && query[j..][..li] == sub
                                       && Gap(j, pi) <= i && Gap(j, pi + |query| - l) <= k - i
    ensures forall n :: 0 < n < |substrings| ==> substrings[n - 1] != substrings[n]
    ensures li == 0 ==> substrings == []
    ensures |substrings| <= Max(0, WindowWidth(k, |query| - l, i))
  {
    var s := |query|;
    var delta := s - l;
    var (start, stop) := MultiMatchAwareInterval(k, delta, i, s, pi, li);
    var currentSubstring := "";
    substrings := [];
    var j := start;
    var m := stop + 1;
    while j < m
      invariant start <= j
      invariant j <= m || j == start
      invariant |substrings| <= j - start
      invariant li == 0 ==> substrings == []
      invariant if substrings == [] then currentSubstring == "" else currentSubstring == substrings[|substrings| - 1]
      invariant currentSubstring == "" || |currentSubstring| == li
      invariant forall sub :: sub in substrings ==> sub != "" && InWindow(k, query, l, i, pi, li, sub)
      invariant forall n, sub :: n < j && SliceAt(query, start, stop, li, n, sub) ==> sub == "" || sub in substrings
      invariant forall n :: 0 < n < |substrings| ==> substrings[n - 1] != substrings[n]
    {
      var substring := query[j..j + li];
      if substring != currentSubstring {
        assert SliceAt(query, start, stop, li, j, substring);
        assert InWindow(k, query, l, i, pi, li, substring);
        substrings := substrings + [substring];
        currentSubstring := substring;
      }
      j := j + 1;
    }
    hide InWindow, SliceAt, Gap, MultiMatchAwareInterval;
    forall sub
      ensures InWindow(k, query, l, i, pi, li, sub) <==>
              exists j :: 0 <= j <= |query| - li && query[j..][..li] == sub
                          && Gap(j, pi) <= i && Gap(j, pi + |query| - l) <= k - i
    {
      WindowAt(k, query, l, i, pi, li, sub);
    }
  }

  lemma WindowAt(k: nat, query: string, l: nat, i: nat, pi: nat, li: nat, sub: string)
    ensures InWindow(k, query, l, i, pi, li, sub) <==>
            exists j :: 0 <= j <= |query| - li && query[j..][..li] == sub
                        && Gap(j, pi) <= i && Gap(j, pi + |query| - l) <= k - i
  {
    var (start, stop) := MultiMatchAwareInterval(k, |query| - l, i, |query|, pi, li);
    assert InWindow(k, query, l, i, pi, li, sub) <==> exists j :: SliceAt(query, start, stop, li, j, sub);
    hide MultiMatchAwareInterval, Gap, InWindow;
    if InWindow(k, query, l, i, pi, li, sub) {
      var j :| SliceAt(query, start, stop, li, j, sub);
      IntervalAt(k, |query| - l, i, |query|, pi, li, j);
      assert query[j..][..li] == sub;
    }
    if j :| 0 <= j <= |query| - li && query[j..][..li] == sub && Gap(j, pi) <= i && Gap(j, pi + |query| - l) <= k - i {
      IntervalAt(k, |query| - l, i, |query|, pi, li, j);
      assert SliceAt(query, start, stop, li, j, sub);
    }
  }

  /** Segment i of x occurs in the query inside the window of i. */
  ghost predicate Selected(k: nat, query: string, x: string, i: nat)
    requires i <= k
  {
    InWindow(k, query, |x|, i, SegmentStart(k, |x|, i), SegmentLength(k, |x|, i), Segment(k, x, i))
  }

  /** `cuts` are the k + 2 borders of consecutive pieces that cover a string of length l. */
  ghost predicate Borders(cuts: seq<nat>, k: nat, l: nat) {
    && |cuts| == k + 2
    && cuts[k + 1] == l
    && forall i :: 0 <= i <= k ==> cuts[i] <= cuts[i + 1]
  }

  lemma {:induction false} BordersWithin(cuts: seq<nat>, k: nat, l: nat, i: nat)
    requires Borders(cuts, k, l) && i <= k + 1
    ensures cuts[i] <= l
    decreases k + 1 - i
  {
    if i <= k {
      BordersWithin(cuts, k, l, i + 1);
    }
  }

  /** Piece i of x occurs in the query inside the window of i. */
  ghost predicate Survives(cuts: seq<nat>, k: nat, query: string, x: string, i: nat)
    requires Borders(cuts, k, |x|) && i <= k
  {
    BordersWithin(cuts, k, |x|, i + 1);
    InWindow(k, query, |x|, i, cuts[i], cuts[i + 1] - cuts[i], x[cuts[i]..cuts[i + 1]])
  }

  /** An exact copy displaced by at most i, with remainders whose lengths differ by at most
      k - i, starts inside the window of i. */
  lemma CopyInWindow(cuts: seq<nat>, k: nat, query: string, x: string, i: nat, at: nat)
    requires Borders(cuts, k, |x|) && i <= k
    requires cuts[i] <= cuts[i + 1] <= |x|
    requires at + cuts[i + 1] - cuts[i] <= |query|
    requires query[at..at + cuts[i + 1] - cuts[i]] == x[cuts[i]..cuts[i + 1]]
    requires Abs(at - cuts[i]) <= i
    requires Abs((|query| - at) - (|x| - cuts[i])) <= k - i
    ensures Survives(cuts, k, query, x, i)
  {
    var pi, li := cuts[i], cuts[i + 1] - cuts[i];
    var (start, stop) := MultiMatchAwareInterval(k, |query| - |x|, i, |query|, pi, li);
    assert SliceAt(query, start, stop, li, at, x[cuts[i]..cuts[i + 1]]);
  }

  /** Follows an optimal alignment of x and the query piece by piece. `spent` edits have been
      used left of piece i, at least one for each earlier piece; with k + 1 pieces and k edits,
      the first piece that brings no more than its own index is untouched and in its window. */
  lemma {:induction false} SomePieceSurvives(cuts: seq<nat>, k: nat, query: string, x: string,
                                             i: nat, at: nat, spent: nat)
    returns (found: nat)
    requires Borders(cuts, k, |x|)
    requires i <= k + 1 && at <= |query| && i <= spent
    requires cuts[i] <= |x|
    requires Abs(at - cuts[i]) <= spent
    requires spent + Distance(x[cuts[i]..], query[at..]) <= k
    ensures found <= k && Survives(cuts, k, query, x, found)
    decreases k + 1 - i
  {
    hide Distance, Survives;
    BordersWithin(cuts, k, |x|, i + 1);
    var width, cost := NextPiece(x, cuts[i], cuts[i + 1], query, at);
    if spent + cost <= i {
      CopyInWindow(cuts, k, query, x, i, at);
      found := i;
    } else {
      found := SomePieceSurvives(cuts, k, query, x, i + 1, at + width, spent + cost);
    }
  }

  /** One step of the alignment: what x[from..to] is aligned with. */
  lemma NextPiece(x: string, from: nat, to: nat, q: string, at: nat) returns (width: nat, cost: nat)
    requires from <= to <= |x| && at <= |q|
    ensures at + width <= |q|
    ensures cost + Distance(x[to..], q[at + width..]) <= Distance(x[from..], q[at..])
    ensures Abs(width - (to - from)) <= cost
    ensures Abs((|q| - at - width) - (|x| - to)) <= Distance(x[to..], q[at + width..])
    ensures cost == 0 ==> x[from..to] == q[at..at + width]
  {
    var piece, rest := x[from..to], x[to..];
    assert piece + rest == x[from..];
    width := Split(piece, rest, q[at..]);
    var image, remainder := q[at..at + width], q[at + width..];
    assert q[at..][..width] == image && q[at..][width..] == remainder;
    cost := Distance(piece, image);
    LengthBounds(piece, image);
    LengthBounds(rest, remainder);
    ZeroIffEqual(piece, image);
  }

  lemma SurvivorIsSelected(k: nat, query: string, x: string, i: nat)
    requires i <= k && Borders(SegmentBorders(k, |x|), k, |x|) && Survives(SegmentBorders(k, |x|), k, query, x, i)
    ensures Selected(k, query, x, i)
  {
  }

  /** Selection completeness: a string within distance k of the query has a segment that
      occurs in the query inside that segment's window. */
  lemma SelectionComplete(k: nat, query: string, x: string)
    requires Distance(query, x) <= k
    ensures exists i :: 0 <= i <= k && Selected(k, query, x, i)
  {
    var l, cuts := |x|, SegmentBorders(k, |x|);
    Symmetric(query, x);
    assert x[0..] == x && query[0..] == query;
    hide Distance, Borders, SegmentBorders, Survives, Selected;
    var found := SomePieceSurvives(cuts, k, query, x, 0, 0, 0);
    SurvivorIsSelected(k, query, x, found);
  }

  function SegmentBorders(k: nat, l: nat): (cuts: seq<nat>)
    ensures Borders(cuts, k, l)
    ensures forall i :: 0 <= i <= k + 1 ==> cuts[i] == SegmentStart(k, l, i)
  {
    SegmentsTile(k, l);
    seq(k + 2, i requires 0 <= i => SegmentStart(k, l, i))
  }

  // ----- How many substrings are looked up -----

  /** Half of a number, rounded towards zero. */
  function Halved(x: int): int {
    if x >= 0 then x / 2 else -(-x / 2)
  }

  /** Number of positions looked up for strings of length l, by the paper's formula. */
  function CountSubstringsL(k: nat, s: nat, l: nat): int {
    Halved(k * k - Abs(s - l) * Abs(s - l)) + k + 1
  }

  /** Width of the window of segment i before it is clipped to the query. */
  function WindowWidth(k: int, delta: int, i: int): int {
    Max(0, Least(i, delta + k - i) - Max(-i, delta - k + i) + 1)
  }

  function TotalWidth(k: nat, delta: int, n: nat): int {
    if n == 0 then 0 else TotalWidth(k, delta, n - 1) + WindowWidth(k, delta, n - 1)
  }

  lemma NextSquare(r: int)
    ensures (r + 1) * (r + 1) == r * r + 2 * r + 1
  {
  }

  /** Window widths climb by two... */
  lemma {:induction false} ClimbingWidth(k: nat, delta: nat, n: nat)
    requires delta <= k && n <= (k - delta) / 2 + 1
    ensures TotalWidth(k, delta, n) == n * n
  {
    if n > 0 {
      ClimbingWidth(k, delta, n - 1);
      NextSquare(n - 1);
    }
  }

  /** ... stay level for delta segments... */
  lemma {:induction false} LevelWidth(k: nat, delta: nat, a: nat, j: nat)
    requires j <= delta <= k && a == (k - delta) / 2
    ensures TotalWidth(k, delta, a + 1 + j) == TotalWidth(k, delta, a + 1) + j * (k - delta + 1)
  {
    if j > 0 {
      LevelWidth(k, delta, a, j - 1);
      OneMore(j - 1, k - delta + 1);
    }
  }

  lemma OneMore(j: int, width: int)
    ensures (j + 1) * width == j * width + width
  {
  }

  /** ... and descend by two. */
  lemma {:induction false} DescendingWidth(k: nat, delta: nat, n: nat)
    requires delta <= k && (k - delta) / 2 + 1 + delta <= n <= k + 1
    ensures TotalWidth(k, delta, k + 1) == TotalWidth(k, delta, n) + (k + 1 - n) * (k + 1 - n)
    decreases k + 1 - n
  {
    if n <= k {
      DescendingWidth(k, delta, n + 1);
      NextSquare(k - n);
      WidthBelow(k, delta, n);
    }
  }

  lemma WidthBelow(k: nat, delta: nat, n: nat)
    requires delta <= k && (k - delta) / 2 + 1 + delta <= n <= k
    ensures TotalWidth(k, delta, n + 1) == TotalWidth(k, delta, n) + 2 * (k - n) + 1
  {
  }

  lemma {:induction false} WidthIsSymmetric(k: nat, delta: int, n: nat)
    ensures TotalWidth(k, -delta, n) == TotalWidth(k, delta, n)
  {
    if n > 0 {
      WidthIsSymmetric(k, delta, n - 1);
    }
  }

  lemma SquareDifference(k: nat, delta: nat, a: nat, e: nat)
    requires k == delta + 2 * a + e && e <= 1
    ensures (k * k - delta * delta) / 2 + k + 1 ==
            (a + 1) * (a + 1) + delta * (k - delta + 1) + (a + e) * (a + e)
    ensures k * k >= delta * delta
  {
    var half := 2 * delta * a + delta * e + 2 * a * a + 2 * a * e;
    assert k * k - delta * delta == 2 * half + e by {
      assert e * e == e;
      assert k * k == (delta + 2 * a + e) * (delta + 2 * a + e);
    }
    assert delta * (k - delta + 1) == delta * (2 * a + e + 1);
  }

  lemma FullWidth(k: nat, delta: nat)
    requires delta <= k
    ensures TotalWidth(k, delta, k + 1) == Halved(k * k - delta * delta) + k + 1
  {
    var a, e := (k - delta) / 2, (k - delta) % 2;
    ClimbingWidth(k, delta, a + 1);
    LevelWidth(k, delta, a, delta);
    DescendingWidth(k, delta, a + 1 + delta);
    assert k + 1 - (a + 1 + delta) == a + e;
    SquareDifference(k, delta, a, e);
  }

  /** Lengths more than k apart leave all windows empty... */
  lemma {:induction false} NoWidth(k: nat, delta: nat, n: nat)
    requires delta > k && n <= k + 1
    ensures TotalWidth(k, delta, n) == 0
  {
    if n > 0 {
      NoWidth(k, delta, n - 1);
    }
  }

  /** ... which the formula misses. */
  lemma FormulaMisses(k: nat, delta: nat)
    requires delta > k
    ensures Halved(k * k - delta * delta) + k + 1 != 0
  {
    var e := delta - k;
    assert delta * delta - k * k == e * (2 * k + e);
    if e >= 2 {
      Product(e, 2 * k + e, 2 * k + 2);
    }
  }

  lemma Product(e: nat, x: nat, y: nat)
    requires e >= 2 && x >= y
    ensures e * x >= 2 * y
  {
  }

  /** The formula counts the positions of the k + 1 unclipped windows exactly for lengths at most k apart. */
  lemma CountIsTotalWidthIff(k: nat, s: nat, l: nat)
    ensures CountSubstringsL(k, s, l) == TotalWidth(k, s - l, k + 1) <==> Abs(s - l) <= k
  {
    if s < l {
      WidthIsSymmetric(k, l - s, k + 1);
      assert s - l == -(l - s);
    }
    if Abs(s - l) <= k {
      FullWidth(k, Abs(s - l));
    } else {
      NoWidth(k, Abs(s - l), k + 1);
      FormulaMisses(k, Abs(s - l));
    }
  }
}
