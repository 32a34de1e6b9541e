/** The flat binary tree behind a VPTree: what its arrays mean, and why its build loop
    produces it. Items are known by their index; D(i, j) is the distance of items i and j. */
module VPTreeModel {
  import opened Permutations
  import opened IndexSets
  import opened QuickSort

  /** Snapshot of the four arrays. A child index of 0 stands for no child. */
  datatype Flat = Flat(nodes: seq<nat>, lefts: seq<nat>, rights: seq<nat>, mus: seq<real>)

  /** Indices of the items below child c. */
  ghost function Sub(content: seq<set<nat>>, c: nat): set<nat> {
    if 0 < c < |content| then content[c] else {}
  }

  ghost predicate Child(v: nat, c: nat, n: nat) {
    c == 0 || v < c < n
  }

  /** Node v holds a vantage point; items below its left child are nearer to it than mu,
      items below its right child are not. */
  ghost predicate Split(D: (nat, nat) -> real, t: Flat, content: seq<set<nat>>, v: nat)
    requires v < |content| <= |t.nodes| == |t.lefts| == |t.rights| == |t.mus|
  {
    var i, L, R, mu := t.nodes[v], t.lefts[v], t.rights[v], t.mus[v];
    && Child(v, L, |content|) && Child(v, R, |content|)
    && content[v] == {i} + Sub(content, L) + Sub(content, R)
    && i !in Sub(content, L) && i !in Sub(content, R) && Sub(content, L) !! Sub(content, R)
    && (forall x :: x in Sub(content, L) ==> D(i, x) < mu)
    && (forall x :: x in Sub(content, R) ==> D(i, x) >= mu)
  }

  ghost predicate Shaped(t: Flat, n: nat) {
    |t.nodes| == |t.lefts| == |t.rights| == |t.mus| == n
  }

  /** The finished tree: it covers all n items and stores each of them in one node. */
  ghost predicate VantageTree(D: (nat, nat) -> real, t: Flat, content: seq<set<nat>>, n: nat) {
    && Shaped(t, n) && |content| == n
    && (n > 0 ==> content[0] == All(n))
    && (forall v :: 0 <= v < n ==> Split(D, t, content, v))
    && Distinct(t.nodes)
    && SetOf(t.nodes) == All(n)
  }

  // ----- The build loop -----

  /** Node `node` still has to be built from the items at positions lo to hi of the indices. */
  datatype Frame = Frame(node: nat, lo: nat, hi: nat)

  function WaitingNodes(stack: seq<Frame>): set<nat> {
    set j | 0 <= j < |stack| :: stack[j].node
  }

  function Slack(stack: seq<Frame>): int {
    if stack == [] then 0
    else Slack(stack[..|stack| - 1]) + stack[|stack| - 1].hi - stack[|stack| - 1].lo - 1
  }

  /** Waiting nodes own disjoint stretches of the indices. */
  ghost predicate Frames(content: seq<set<nat>>, idx: seq<nat>, stack: seq<Frame>) {
    && (forall j :: 0 <= j < |stack| ==>
          && stack[j].node < |content| && stack[j].lo < stack[j].hi <= |idx|
          && content[stack[j].node] == SetOf(idx[stack[j].lo..stack[j].hi]))
    && (forall j, m :: 0 <= j < m < |stack| ==>
          && stack[j].node != stack[m].node
          && (stack[j].hi <= stack[m].lo || stack[m].hi <= stack[j].lo))
  }

  /** Every other node is finished, and holds an item no other node holds or will hold. */
  ghost predicate Finished(D: (nat, nat) -> real, t: Flat, content: seq<set<nat>>, waiting: set<nat>)
    requires |content| <= |t.nodes| == |t.lefts| == |t.rights| == |t.mus|
  {
    && (forall v :: 0 <= v < |content| && v !in waiting ==> t.nodes[v] < |t.nodes| && Split(D, t, content, v))
    && (forall v, w :: 0 <= v < |content| && 0 <= w < |content| && v !in waiting && w in waiting ==>
          t.nodes[v] !in content[w])
    && (forall v, w :: 0 <= v < w < |content| && v !in waiting && w !in waiting ==> t.nodes[v] != t.nodes[w])
  }

  ghost predicate Blank(t: Flat, n: nat, waiting: set<nat>)
    requires |t.nodes| == |t.lefts| == |t.rights| == |t.mus|
  {
    forall v :: 0 <= v < |t.lefts| && (v >= n || v in waiting) ==> t.lefts[v] == 0 == t.rights[v]
  }

  ghost predicate Building(D: (nat, nat) -> real, t: Flat, content: seq<set<nat>>, idx: seq<nat>, stack: seq<Frame>, n: nat) {
    && Shaped(t, n) && Permutation(idx, n)
    && 0 < |content| && content[0] == All(n)
    && |content| <= n
    && Frames(content, idx, stack)
    && Finished(D, t, content, WaitingNodes(stack))
    && Blank(t, |content|, WaitingNodes(stack))
  }

  lemma StartBuilding(D: (nat, nat) -> real, t: Flat, idx: seq<nat>, n: nat)
    requires n > 0 && Shaped(t, n) && Permutation(idx, n)
    requires forall v :: 0 <= v < n ==> t.lefts[v] == 0 == t.rights[v]
    ensures Building(D, t, [All(n)], idx, [Frame(0, 0, n)], n)
  {
    var stack := [Frame(0, 0, n)];
    assert stack[0].node == 0;
    assert idx[0..n] == idx;
  }

  lemma SlackAppend(stack: seq<Frame>, f: Frame)
    ensures Slack(stack + [f]) == Slack(stack) + f.hi - f.lo - 1
  {
    assert (stack + [f])[..|stack|] == stack;
  }

  lemma {:induction false} SlackIsNatural(content: seq<set<nat>>, idx: seq<nat>, stack: seq<Frame>)
    requires Frames(content, idx, stack)
    ensures Slack(stack) >= 0
  {
    if stack != [] {
      SlackIsNatural(content, idx, stack[..|stack| - 1]);
    }
  }

  lemma EndBuilding(D: (nat, nat) -> real, t: Flat, content: seq<set<nat>>, idx: seq<nat>, n: nat)
    requires Building(D, t, content, idx, [], n) && |content| == n
    ensures VantageTree(D, t, content, n)
  {
    forall v | 0 <= v < n
      ensures Split(D, t, content, v) && t.nodes[v] < n
    {
      assert t.nodes[v] in content[v];
    }
    DistinctCovers(t.nodes, n);
  }

  // ----- One turn of the build loop -----

  lemma WaitingPopped(content: seq<set<nat>>, idx: seq<nat>, stack: seq<Frame>)
    requires stack != [] && Frames(content, idx, stack)
    ensures WaitingNodes(stack[..|stack| - 1]) == WaitingNodes(stack) - {stack[|stack| - 1].node}
    ensures stack[|stack| - 1].node in WaitingNodes(stack)
  {
    var rest := stack[..|stack| - 1];
    forall v | v in WaitingNodes(stack) && v != stack[|stack| - 1].node
      ensures v in WaitingNodes(rest)
    {
      var j :| 0 <= j < |stack| && stack[j].node == v;
      assert rest[j].node == v;
    }
  }

  lemma WaitingPushed(stack: seq<Frame>, f: Frame)
    ensures WaitingNodes(stack + [f]) == WaitingNodes(stack) + {f.node}
  {
    var stack' := stack + [f];
    forall v | v in WaitingNodes(stack) + {f.node}
      ensures v in WaitingNodes(stack')
    {
      if v in WaitingNodes(stack) {
        var j :| 0 <= j < |stack| && stack[j].node == v;
        assert stack'[j].node == v;
      } else {
        assert stack'[|stack|].node == v;
      }
    }
  }

  /** Node v stops waiting once it is split around one of its own items. */
  lemma FinishNode(D: (nat, nat) -> real, t: Flat, t': Flat, content: seq<set<nat>>, waiting: set<nat>, v: nat, n: nat)
    requires Shaped(t, n) && Shaped(t', n) && v < |content| <= n
    requires Finished(D, t, content, waiting) && v in waiting
    requires t' == t.(nodes := t.nodes[v := t'.nodes[v]], lefts := t.lefts[v := t'.lefts[v]],
                      rights := t.rights[v := t'.rights[v]], mus := t.mus[v := t'.mus[v]])
    requires t'.nodes[v] < n && Split(D, t', content, v)
    requires forall w :: w in waiting && w != v && w < |content| ==> t'.nodes[v] !in content[w]
    ensures Finished(D, t', content, waiting - {v})
  {
    forall u | 0 <= u < |content| && u !in waiting - {v}
      ensures Split(D, t', content, u)
    {
      if u != v {
        assert Split(D, t, content, u);
      }
    }
    assert t'.nodes[v] in content[v];
  }

  /** A frame over one position becomes a leaf. */
  lemma LeafStep(D: (nat, nat) -> real, t: Flat, content: seq<set<nat>>, idx: seq<nat>, stack: seq<Frame>, n: nat)
    requires Building(D, t, content, idx, stack, n) && stack != []
    requires var f := stack[|stack| - 1]; f.lo + 1 == f.hi
    ensures var f := stack[|stack| - 1];
            f.lo < |idx| && f.node < |t.nodes| &&
            Building(D, t.(nodes := t.nodes[f.node := idx[f.lo]]), content, idx, stack[..|stack| - 1], n)
  {
    LeafFinished(D, t, content, idx, stack, n);
    FramesPopped(content, idx, stack);
    hide Finished, Split, Permutation, Frames;
    WaitingPopped(content, idx, stack);
  }

  lemma FramesPopped(content: seq<set<nat>>, idx: seq<nat>, stack: seq<Frame>)
    requires Frames(content, idx, stack) && stack != []
    ensures Frames(content, idx, stack[..|stack| - 1])
  {
  }

  lemma LeafFinished(D: (nat, nat) -> real, t: Flat, content: seq<set<nat>>, idx: seq<nat>, stack: seq<Frame>, n: nat)
    requires Building(D, t, content, idx, stack, n) && stack != []
    requires var f := stack[|stack| - 1]; f.lo + 1 == f.hi
    ensures var f := stack[|stack| - 1];
            f.lo < |idx| && f.node < |t.nodes| &&
            Finished(D, t.(nodes := t.nodes[f.node := idx[f.lo]]), content, WaitingNodes(stack) - {f.node})
  {
    hide *;
    var f := stack[|stack| - 1];
    LeafOnTop(D, t, content, idx, stack, n);
    LeafSplits(D, t, content, f.node, idx[f.lo]);
    FinishNode(D, t, t.(nodes := t.nodes[f.node := idx[f.lo]]), content, WaitingNodes(stack), f.node, n);
  }

  /** A frame over one position owns what stands there, which no other waiting frame does. */
  lemma LeafOnTop(D: (nat, nat) -> real, t: Flat, content: seq<set<nat>>, idx: seq<nat>, stack: seq<Frame>, n: nat)
    requires Building(D, t, content, idx, stack, n) && stack != []
    requires var f := stack[|stack| - 1]; f.lo + 1 == f.hi
    ensures var f := stack[|stack| - 1];
            && f.lo < |idx| && f.node < |content| <= n == |t.nodes| == |t.lefts| == |t.rights| == |t.mus|
            && Shaped(t, n) && Shaped(t.(nodes := t.nodes[f.node := idx[f.lo]]), n)
            && f.node in WaitingNodes(stack) && Finished(D, t, content, WaitingNodes(stack))
            && content[f.node] == {idx[f.lo]} && t.lefts[f.node] == 0 == t.rights[f.node] && idx[f.lo] < n
            && forall w :: w in WaitingNodes(stack) && w != f.node && w < |content| ==> idx[f.lo] !in content[w]
  {
    hide Finished, Split;
    var f := stack[|stack| - 1];
    LeafOwns(content, idx, f);
    TopIsApart(content, idx, stack);
    assert f.node in WaitingNodes(stack);
    assert idx[f.lo] in SetOf(idx);
  }

  lemma LeafSplits(D: (nat, nat) -> real, t: Flat, content: seq<set<nat>>, v: nat, item: nat)
    requires v < |content| <= |t.nodes| == |t.lefts| == |t.rights| == |t.mus|
    requires content[v] == {item} && t.lefts[v] == 0 == t.rights[v]
    ensures Split(D, t.(nodes := t.nodes[v := item]), content, v)
  {
  }

  lemma LeafOwns(content: seq<set<nat>>, idx: seq<nat>, f: Frame)
    requires f.lo + 1 == f.hi <= |idx| && f.node < |content| && content[f.node] == SetOf(idx[f.lo..f.hi])
    ensures content[f.node] == {idx[f.lo]}
  {
    var own := idx[f.lo..f.hi];
    assert own[0] == idx[f.lo];
  }

  /** What the top frame owns, no other waiting node owns. */
  lemma TopIsApart(content: seq<set<nat>>, idx: seq<nat>, stack: seq<Frame>)
    requires Frames(content, idx, stack) && stack != [] && Distinct(idx)
    ensures var v := stack[|stack| - 1].node;
            v < |content| &&
            forall w :: w in WaitingNodes(stack) && w != v && w < |content| ==> content[v] !! content[w]
  {
    var top := |stack| - 1;
    var f := stack[top];
    forall w | w in WaitingNodes(stack) && w != f.node && w < |content|
      ensures content[f.node] !! content[w]
    {
      var j :| 0 <= j < |stack| && stack[j].node == w;
      StretchesApart(idx, f.lo, f.hi, stack[j].lo, stack[j].hi);
    }
  }

  // ----- Sorting the top frame's stretch -----

  lemma SortTop(D: (nat, nat) -> real, t: Flat, content: seq<set<nat>>, idx: seq<nat>, idx': seq<nat>, stack: seq<Frame>, n: nat)
    requires Building(D, t, content, idx, stack, n) && stack != []
    requires var f := stack[|stack| - 1]; Rearranged(idx, idx', f.lo, f.hi - 1)
    ensures Building(D, t, content, idx', stack, n)
    ensures var f := stack[|stack| - 1]; f.hi <= n && idx'[f.hi - 1] == idx[f.hi - 1]
  {
    var f := stack[|stack| - 1];
    assert idx'[f.hi - 1..][0] == idx[f.hi - 1..][0];
    WholeRearranged(idx, idx', f.lo, f.hi - 1);
    DistinctRearranged(idx, idx');
    forall j | 0 <= j < |stack|
      ensures content[stack[j].node] == SetOf(idx'[stack[j].lo..stack[j].hi])
    {
      SetKept(idx, idx', f.lo, f.hi - 1, stack[j].lo, stack[j].hi);
    }
  }

  // ----- Splitting the top frame -----

  ghost predicate ApartFrom(stack: seq<Frame>, lo: nat, hi: nat) {
    forall j :: 0 <= j < |stack| ==> stack[j].hi <= lo || hi <= stack[j].lo
  }

  /** Positions lo to hi belong to no frame, and are accounted for. */
  ghost predicate Unclaimed(content: seq<set<nat>>, idx: seq<nat>, stack: seq<Frame>, lo: nat, hi: nat) {
    && lo <= hi <= |idx|
    && Frames(content, idx, stack) && ApartFrom(stack, lo, hi)
  }

  /** `item` is for node v to hold; it waits nowhere. */
  ghost predicate Held(content: seq<set<nat>>, idx: seq<nat>, waiting: set<nat>, v: nat, item: nat, lo: nat, hi: nat)
    requires v < |content| && lo <= hi <= |idx|
  {
    && item in content[v] && SetOf(idx[lo..hi]) <= content[v] && item !in SetOf(idx[lo..hi])
    && (forall w :: w in waiting && w < |content| ==> item !in content[w])
  }

  /** Node v has left the stack and will hold `item`; of its other items, those at positions
      lo to hi are not yet waiting below it. */
  ghost predicate Opened(D: (nat, nat) -> real, t: Flat, content: seq<set<nat>>, idx: seq<nat>, stack: seq<Frame>, n: nat,
                         v: nat, item: nat, lo: nat, hi: nat) {
    var waiting := WaitingNodes(stack);
    && Shaped(t, n) && Permutation(idx, n)
    && v < |content| <= n && content[0] == All(n) && v !in waiting
    && Unclaimed(content, idx, stack, lo, hi)
    && item < n && Held(content, idx, waiting, v, item, lo, hi)
    && Finished(D, t, content, waiting + {v})
    && Blank(t, |content|, waiting + {v})
  }

  lemma RestApart(content: seq<set<nat>>, idx: seq<nat>, rest: seq<Frame>, f: Frame)
    requires Frames(content, idx, rest + [f])
    ensures Frames(content, idx, rest) && ApartFrom(rest, f.lo, f.hi)
    ensures f.node < |content| && f.lo < f.hi <= |idx| && content[f.node] == SetOf(idx[f.lo..f.hi])
    ensures WaitingNodes(rest) == WaitingNodes(rest + [f]) - {f.node} && f.node in WaitingNodes(rest + [f])
  {
    var stack := rest + [f];
    assert stack[..|stack| - 1] == rest && stack[|rest|] == f;
    forall j | 0 <= j < |rest|
      ensures stack[j] == rest[j]
    {
    }
    WaitingPopped(content, idx, stack);
  }

  /** The items of a stretch lie on the two sides of mid. */
  lemma StretchSplits(idx: seq<nat>, lo: nat, mid: nat, h: nat)
    requires Distinct(idx) && lo <= mid <= h < |idx|
    ensures SetOf(idx[lo..h + 1]) == {idx[h]} + SetOf(idx[lo..mid]) + SetOf(idx[mid..h])
    ensures idx[h] !in SetOf(idx[lo..mid]) && idx[h] !in SetOf(idx[mid..h])
    ensures SetOf(idx[lo..mid]) !! SetOf(idx[mid..h])
  {
    assert idx[lo..h + 1] == idx[lo..mid] + idx[mid..h] + [idx[h]];
    assert idx[h..h + 1] == [idx[h]];
    assert idx[h] in SetOf(idx[h..h + 1]);
    StretchesApart(idx, h, h + 1, lo, mid);
    StretchesApart(idx, h, h + 1, mid, h);
    StretchesApart(idx, lo, mid, mid, h);
  }

  /** What the build loop needs to know to index its arrays. */
  lemma TopFacts(D: (nat, nat) -> real, t: Flat, content: seq<set<nat>>, idx: seq<nat>, rest: seq<Frame>, f: Frame, n: nat)
    requires Building(D, t, content, idx, rest + [f], n)
    ensures Shaped(t, n) && f.node < |content| <= n == |idx| && f.lo < f.hi <= n
    ensures content[f.node] == SetOf(idx[f.lo..f.hi]) && t.lefts[f.node] == 0 == t.rights[f.node]
    ensures Slack(rest) >= 0
    ensures forall x :: 0 <= x < n ==> idx[x] < n
  {
    RestApart(content, idx, rest, f);
    SlackIsNatural(content, idx, rest);
    IndexInRange(idx, n);
  }

  lemma OpenTop(D: (nat, nat) -> real, t: Flat, content: seq<set<nat>>, idx: seq<nat>, rest: seq<Frame>, f: Frame, n: nat)
    requires Building(D, t, content, idx, rest + [f], n)
    ensures f.lo < f.hi <= n
    ensures Opened(D, t, content, idx, rest, n, f.node, idx[f.hi - 1], f.lo, f.hi - 1)
  {
    hide Held, Finished, Split, Frames, Blank, Distinct, SetOf;
    RestApart(content, idx, rest, f);
    TopHeld(content, idx, rest, f, n);
    assert WaitingNodes(rest) + {f.node} == WaitingNodes(rest + [f]);
  }

  lemma TopHeld(content: seq<set<nat>>, idx: seq<nat>, rest: seq<Frame>, f: Frame, n: nat)
    requires Frames(content, idx, rest + [f]) && Permutation(idx, n)
    requires f.node < |content| && f.lo < f.hi <= |idx| && content[f.node] == SetOf(idx[f.lo..f.hi])
    requires WaitingNodes(rest) == WaitingNodes(rest + [f]) - {f.node}
    ensures Held(content, idx, WaitingNodes(rest), f.node, idx[f.hi - 1], f.lo, f.hi - 1) && idx[f.hi - 1] < n
  {
    var stack := rest + [f];
    StretchSplits(idx, f.lo, f.lo, f.hi - 1);
    assert stack[|stack| - 1] == f;
    TopIsApart(content, idx, stack);
    IndexInRange(idx, n);
    hide Frames, WaitingNodes;
  }

  /** A new waiting node whose items were waiting below another one. */
  lemma FinishedGrows(D: (nat, nat) -> real, t: Flat, content: seq<set<nat>>, waiting: set<nat>, v: nat, S: set<nat>)
    requires |content| + 1 <= |t.nodes| == |t.lefts| == |t.rights| == |t.mus|
    requires Finished(D, t, content, waiting) && v in waiting && v < |content| && S <= content[v]
    ensures Finished(D, t, content + [S], waiting + {|content|})
  {
    forall u | 0 <= u < |content| && u !in waiting
      ensures Split(D, t, content + [S], u)
    {
      SplitStays(D, t, content, u, S);
    }
    hide Split;
  }

  lemma SplitStays(D: (nat, nat) -> real, t: Flat, content: seq<set<nat>>, u: nat, S: set<nat>)
    requires |content| + 1 <= |t.nodes| == |t.lefts| == |t.rights| == |t.mus|
    requires u < |content| && Split(D, t, content, u)
    ensures Split(D, t, content + [S], u)
  {
  }

  lemma FramesPush(content: seq<set<nat>>, idx: seq<nat>, stack: seq<Frame>, f: Frame)
    requires Frames(content, idx, stack)
    requires f.node == |content| && f.lo < f.hi <= |idx| && ApartFrom(stack, f.lo, f.hi)
    ensures Frames(content + [SetOf(idx[f.lo..f.hi])], idx, stack + [f])
  {
  }

  lemma PushUnclaimed(content: seq<set<nat>>, idx: seq<nat>, stack: seq<Frame>, lo: nat, mid: nat, hi: nat)
    requires Unclaimed(content, idx, stack, lo, hi) && lo <= mid < hi
    ensures Unclaimed(content + [SetOf(idx[mid..hi])], idx, stack + [Frame(|content|, mid, hi)], lo, mid)
  {
    FramesPush(content, idx, stack, Frame(|content|, mid, hi));
  }

  lemma PushHeld(content: seq<set<nat>>, idx: seq<nat>, waiting: set<nat>, v: nat, item: nat, lo: nat, mid: nat, hi: nat)
    requires v < |content| && lo <= mid <= hi <= |idx| && Held(content, idx, waiting, v, item, lo, hi)
    ensures Held(content + [SetOf(idx[mid..hi])], idx, waiting + {|content|}, v, item, lo, mid)
  {
    assert idx[lo..hi] == idx[lo..mid] + idx[mid..hi];
  }

  lemma SideWithin(content: seq<set<nat>>, idx: seq<nat>, waiting: set<nat>, v: nat, item: nat, lo: nat, mid: nat, hi: nat)
    requires v < |content| && lo <= mid <= hi <= |idx| && Held(content, idx, waiting, v, item, lo, hi)
    ensures SetOf(idx[mid..hi]) <= content[v]
  {
    assert idx[lo..hi] == idx[lo..mid] + idx[mid..hi];
  }

  /** The items from mid on start waiting in a new node. */
  lemma PushSide(D: (nat, nat) -> real, t: Flat, content: seq<set<nat>>, idx: seq<nat>, stack: seq<Frame>, n: nat,
                 v: nat, item: nat, lo: nat, mid: nat, hi: nat)
    requires Opened(D, t, content, idx, stack, n, v, item, lo, hi) && lo <= mid < hi && |content| < n
    ensures Opened(D, t, content + [SetOf(idx[mid..hi])], idx, stack + [Frame(|content|, mid, hi)], n, v, item, lo, mid)
  {
    assert hi <= |idx|;
    hide Held, Unclaimed, Split, Finished, Permutation;
    var waiting, side := WaitingNodes(stack), SetOf(idx[mid..hi]);
    var stack' := stack + [Frame(|content|, mid, hi)];
    PushUnclaimed(content, idx, stack, lo, mid, hi);
    PushHeld(content, idx, waiting, v, item, lo, mid, hi);
    WaitingPushed(stack, Frame(|content|, mid, hi));
    SideWithin(content, idx, waiting, v, item, lo, mid, hi);
    hide SetOf;
    FinishedGrows(D, t, content, waiting + {v}, v, side);
    assert waiting + {v} + {|content|} == WaitingNodes(stack') + {v};
  }

  function Vantage(t: Flat, v: nat, item: nat, left: nat, right: nat, mu: real): Flat
    requires v < |t.nodes| == |t.lefts| == |t.rights| == |t.mus|
  {
    Flat(t.nodes[v := item], t.lefts[v := left], t.rights[v := right], t.mus[v := mu])
  }

  /** All items of node v wait below it, so v can be finished. */
  lemma CloseNode(D: (nat, nat) -> real, t: Flat, t': Flat, content: seq<set<nat>>, idx: seq<nat>, stack: seq<Frame>, n: nat,
                  v: nat, item: nat, lo: nat)
    requires Opened(D, t, content, idx, stack, n, v, item, lo, lo)
    requires Shaped(t', n) && t' == Vantage(t, v, item, t'.lefts[v], t'.rights[v], t'.mus[v])
    requires Split(D, t', content, v)
    ensures Building(D, t', content, idx, stack, n)
  {
    var waiting := WaitingNodes(stack);
    FinishNode(D, t, t', content, waiting + {v}, v, n);
    assert waiting + {v} - {v} == waiting;
  }

  /** mu separates the sorted stretch at mid. */
  ghost predicate MuSplits(D: (nat, nat) -> real, item: nat, idx: seq<nat>, lo: nat, mid: nat, h: nat, mu: real)
    requires lo <= mid <= h <= |idx|
  {
    && (forall x :: lo <= x < mid ==> D(item, idx[x]) < mu)
    && (forall x :: mid <= x < h ==> D(item, idx[x]) >= mu)
  }

  lemma SidesOfMu(D: (nat, nat) -> real, item: nat, idx: seq<nat>, lo: nat, mid: nat, h: nat, mu: real)
    requires lo <= mid <= h <= |idx| && MuSplits(D, item, idx, lo, mid, h, mu)
    ensures forall x :: x in SetOf(idx[lo..mid]) ==> D(item, x) < mu
    ensures forall x :: x in SetOf(idx[mid..h]) ==> D(item, x) >= mu
  {
    forall x | x in SetOf(idx[lo..mid])
      ensures D(item, x) < mu
    {
      var p :| 0 <= p < mid - lo && idx[lo..mid][p] == x;
      assert idx[lo + p] == x;
    }
    forall x | x in SetOf(idx[mid..h])
      ensures D(item, x) >= mu
    {
      var p :| 0 <= p < h - mid && idx[mid..h][p] == x;
      assert idx[mid + p] == x;
    }
  }

  /** Linking v to the nodes that hold the two sides of mu splits it. */
  lemma VantageSplit(D: (nat, nat) -> real, t: Flat, content: seq<set<nat>>, idx: seq<nat>, n: nat,
                     v: nat, lo: nat, mid: nat, h: nat, left: nat, right: nat, mu: real)
    requires Shaped(t, n) && Distinct(idx) && lo <= mid <= h < |idx| && v < |content| <= n
    requires content[v] == SetOf(idx[lo..h + 1])
    requires Child(v, left, |content|) && Child(v, right, |content|)
    requires Sub(content, left) == SetOf(idx[lo..mid]) && Sub(content, right) == SetOf(idx[mid..h])
    requires MuSplits(D, idx[h], idx, lo, mid, h, mu)
    ensures Split(D, Vantage(t, v, idx[h], left, right, mu), content, v)
  {
    StretchSplits(idx, lo, mid, h);
    SidesOfMu(D, idx[h], idx, lo, mid, h, mu);
  }

  // ----- The kinds of turns -----

  /** Number of positions on the stack. */
  function Load(stack: seq<Frame>): int {
    Slack(stack) + |stack|
  }

  lemma LoadAppend(stack: seq<Frame>, f: Frame)
    ensures Load(stack + [f]) == Load(stack) + f.hi - f.lo
    ensures Slack(stack + [f]) == Slack(stack) + f.hi - f.lo - 1
  {
    SlackAppend(stack, f);
  }

  /** A frame over one position becomes a leaf. */
  lemma LeafTurn(D: (nat, nat) -> real, t: Flat, content: seq<set<nat>>, idx: seq<nat>, rest: seq<Frame>, f: Frame, n: nat)
    requires Building(D, t, content, idx, rest + [f], n) && f.lo + 1 == f.hi
    ensures f.lo < |idx| && f.node < n
    ensures Building(D, t.(nodes := t.nodes[f.node := idx[f.lo]]), content, idx, rest, n)
  {
    var stack := rest + [f];
    assert stack[..|stack| - 1] == rest && stack[|stack| - 1] == f;
    LeafStep(D, t, content, idx, stack, n);
  }

  /** No item is nearer than mu: they all wait in a right child. */
  lemma RightTurn(D: (nat, nat) -> real, t: Flat, content: seq<set<nat>>, idx: seq<nat>, rest: seq<Frame>, n: nat,
                  v: nat, lo: nat, h: nat, mu: real)
    requires lo < h < |idx| && |content| < n && Opened(D, t, content, idx, rest, n, v, idx[h], lo, h)
    requires content[v] == SetOf(idx[lo..h + 1])
    requires MuSplits(D, idx[h], idx, lo, lo, h, mu)
    ensures v < n
    ensures Building(D, Vantage(t, v, idx[h], 0, |content|, mu), content + [SetOf(idx[lo..h])], idx,
                     rest + [Frame(|content|, lo, h)], n)
  {
    var right := |content|;
    PushSide(D, t, content, idx, rest, n, v, idx[h], lo, lo, h);
    var content' := content + [SetOf(idx[lo..h])];
    VantageSplit(D, t, content', idx, n, v, lo, lo, h, 0, right, mu);
    CloseNode(D, t, Vantage(t, v, idx[h], 0, right, mu), content', idx, rest + [Frame(right, lo, h)], n, v, idx[h], lo);
  }

  /** With the farther items waiting in the right child, the nearer ones wait in a left child. */
  lemma LeftTurn(D: (nat, nat) -> real, t: Flat, content: seq<set<nat>>, idx: seq<nat>, stack: seq<Frame>, n: nat,
                 v: nat, lo: nat, mid: nat, h: nat, right: nat, mu: real)
    requires lo < mid < h < |idx| && |content| < n && Opened(D, t, content, idx, stack, n, v, idx[h], lo, mid)
    requires content[v] == SetOf(idx[lo..h + 1]) && v < right < |content| && content[right] == SetOf(idx[mid..h])
    requires MuSplits(D, idx[h], idx, lo, mid, h, mu)
    ensures v < n
    ensures Building(D, Vantage(t, v, idx[h], |content|, right, mu), content + [SetOf(idx[lo..mid])], idx,
                     stack + [Frame(|content|, lo, mid)], n)
  {
    var left := |content|;
    PushSide(D, t, content, idx, stack, n, v, idx[h], lo, lo, mid);
    var content2, stack2 := content + [SetOf(idx[lo..mid])], stack + [Frame(left, lo, mid)];
    VantageSplit(D, t, content2, idx, n, v, lo, mid, h, left, right, mu);
    CloseNode(D, t, Vantage(t, v, idx[h], left, right, mu), content2, idx, stack2, n, v, idx[h], lo);
  }

  /** A frame over two positions: the other item goes right, into a leaf of its own. */
  lemma PairTurn(D: (nat, nat) -> real, t: Flat, content: seq<set<nat>>, idx: seq<nat>, rest: seq<Frame>, f: Frame, n: nat)
    requires Building(D, t, content, idx, rest + [f], n) && f.hi == f.lo + 2 && |content| < n
    ensures f.node < n && f.hi <= n && t.lefts[f.node] == 0 == t.rights[f.node]
    ensures var pair := Vantage(t, f.node, idx[f.lo + 1], 0, |content|, D(idx[f.lo + 1], idx[f.lo]));
            Building(D, pair.(nodes := pair.nodes[|content| := idx[f.lo]]), content + [SetOf(idx[f.lo..f.hi - 1])], idx, rest, n)
  {
    hide Building, Opened;
    var h := f.lo + 1;
    TopFacts(D, t, content, idx, rest, f, n);
    OpenTop(D, t, content, idx, rest, f, n);
    RightTurn(D, t, content, idx, rest, n, f.node, f.lo, h, D(idx[h], idx[f.lo]));
    var t' := Vantage(t, f.node, idx[h], 0, |content|, D(idx[h], idx[f.lo]));
    LeafTurn(D, t', content + [SetOf(idx[f.lo..h])], idx, rest, Frame(|content|, f.lo, h), n);
  }

  lemma SortTurn(D: (nat, nat) -> real, t: Flat, content: seq<set<nat>>, idx: seq<nat>, idx': seq<nat>,
                 rest: seq<Frame>, f: Frame, n: nat)
    requires Building(D, t, content, idx, rest + [f], n) && f.lo < f.hi && Rearranged(idx, idx', f.lo, f.hi - 1)
    ensures Building(D, t, content, idx', rest + [f], n)
    ensures f.hi <= n && idx'[f.hi - 1] == idx[f.hi - 1]
  {
    var stack := rest + [f];
    assert stack[|stack| - 1] == f;
    SortTop(D, t, content, idx, idx', stack, n);
  }

  // ----- The build loop, with its bookkeeping -----

  /** C is the last node given out; the nodes given out and those the waiting frames still need add up to all. */
  ghost predicate Underway(D: (nat, nat) -> real, t: Flat, content: seq<set<nat>>, idx: seq<nat>, stack: seq<Frame>, n: nat, C: nat) {
    Building(D, t, content, idx, stack, n) && |content| == C + 1 && |content| + Slack(stack) == n
  }

  lemma StartUnderway(D: (nat, nat) -> real, t: Flat, idx: seq<nat>, n: nat)
    requires n > 0 && Shaped(t, n) && Permutation(idx, n)
    requires forall v :: 0 <= v < n ==> t.lefts[v] == 0 == t.rights[v]
    ensures Underway(D, t, [All(n)], idx, [Frame(0, 0, n)], n, 0)
  {
    StartBuilding(D, t, idx, n);
    assert [] + [Frame(0, 0, n)] == [Frame(0, 0, n)];
    SlackAppend([], Frame(0, 0, n));
  }

  lemma EndUnderway(D: (nat, nat) -> real, t: Flat, content: seq<set<nat>>, idx: seq<nat>, n: nat, C: nat)
    requires Underway(D, t, content, idx, [], n, C)
    ensures VantageTree(D, t, content, n)
  {
    EndBuilding(D, t, content, idx, n);
  }

  lemma UnderwayLoad(D: (nat, nat) -> real, t: Flat, content: seq<set<nat>>, idx: seq<nat>, stack: seq<Frame>, n: nat, C: nat)
    requires Underway(D, t, content, idx, stack, n, C)
    ensures Load(stack) >= 0
  {
  }

  /** What the top frame says. */
  lemma UnderwayTop(D: (nat, nat) -> real, t: Flat, content: seq<set<nat>>, idx: seq<nat>, rest: seq<Frame>, f: Frame, n: nat, C: nat)
    requires Underway(D, t, content, idx, rest + [f], n, C)
    ensures Shaped(t, n) && |idx| == n && f.node < n && f.lo < f.hi <= n
    ensures t.lefts[f.node] == 0 == t.rights[f.node]
    ensures forall x :: 0 <= x < n ==> idx[x] < n
  {
    TopFacts(D, t, content, idx, rest, f, n);
  }

  lemma LeafUnderway(D: (nat, nat) -> real, t: Flat, content: seq<set<nat>>, idx: seq<nat>, rest: seq<Frame>, f: Frame, n: nat, C: nat)
    requires Underway(D, t, content, idx, rest + [f], n, C) && f.lo + 1 == f.hi
    ensures f.lo < |idx| && f.node < |t.nodes| && Load(rest) < Load(rest + [f])
    ensures Underway(D, t.(nodes := t.nodes[f.node := idx[f.lo]]), content, idx, rest, n, C)
  {
    hide Building;
    TopFacts(D, t, content, idx, rest, f, n);
    LeafTurn(D, t, content, idx, rest, f, n);
    LoadAppend(rest, f);
  }

  lemma PairUnderway(D: (nat, nat) -> real, t: Flat, content: seq<set<nat>>, idx: seq<nat>, rest: seq<Frame>, f: Frame, n: nat, C: nat)
    requires Underway(D, t, content, idx, rest + [f], n, C) && f.hi == f.lo + 2
    ensures f.hi <= |idx| && f.node < |t.nodes| == |t.lefts| == |t.rights| == |t.mus| && C + 1 < |t.nodes|
    ensures Load(rest) < Load(rest + [f])
    ensures var pair := Vantage(t, f.node, idx[f.lo + 1], 0, C + 1, D(idx[f.lo + 1], idx[f.lo]));
            Underway(D, pair.(nodes := pair.nodes[C + 1 := idx[f.lo]]), content + [SetOf(idx[f.lo..f.hi - 1])], idx, rest, n, C + 1)
  {
    hide Building;
    TopFacts(D, t, content, idx, rest, f, n);
    LoadAppend(rest, f);
    PairTurn(D, t, content, idx, rest, f, n);
  }
}
