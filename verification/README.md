# Verified model of mnemonist's data structures

The vendored `mnemonist` modules under `bench/upstream/` are the executable
specification of this repository's port. This project models the hardest of
them in Dafny, in the form of the source (classes over arrays and linked
nodes, loops over explicit stacks, in-place sorts), and proves them against
simple reference meanings: an edit-distance index against a linear filter, two
spatial trees against measuring every point, two crit-bit trees, a trie and a
least-recently-used map against finite maps and lists, three heaps against
multisets, union-find against the equivalence closure of its unions, and an
inverted index against filtering all documents.

`dafny verify dfyconfig.toml` checks everything.

| files | what they model |
|---|---|
| `Levenshtein`, `PassjoinSelection`, `PassjoinIndex` | edit distance, the choice of segments and substrings, the index |
| `QuickSort`, `BinarySearch` | the quicksorts with a manual stack of 64 slots, insertion points |
| `Heap`, `NSmallest`, `FixedReverseHeap` | the array heap, selection, the bounded heap |
| `VPTreeModel`, `VPTreeSearch`, `VPTree` | the vantage point tree: what building keeps, why pruning is safe, the class |
| `KDTreeModel`, `KDTreeSearch`, `KDTree` | the same for the k-d tree |
| `CritBits`, `CritBitTree`, `CritBitMemory`, `CritBitTreeMap`, `FixedCritBitTreeMap` | bits and positions, trees as values, trees in memory, the two maps |
| `IntervalTreeModel`, `StaticIntervalTree` | the static interval tree |
| `FibonacciForest`, `FibonacciConsolidation`, `FibonacciHeap` | rings and trees in memory, linking and counting, the heap |
| `StaticDisjointSet`, `UnionRanks` | union-find, and what its ranks are worth |
| `LRUMap`, `LRURuns` | the least-recently-used map, and what it holds after a run |
| `SortedArrays`, `InvertedIndex` | merging sorted arrays, the inverted index |
| `TriePaths`, `TrieMap` | paths of a trie, the trie map |
| `Comparators`, `Permutations`, `IndexSets`, `Options` | shared vocabulary |

How the source's notions are stated: comparators are total preorders that do
not call back into the structure; distances are functions that are symmetric
and obey the triangle inequality; numbers are exact (`int` and `real`); string
keys of the crit-bit trees are byte sequences; growable JavaScript arrays that
several functions share are a `Buffer` holding a sequence; `undefined` and
`null` results are `None`. Postconditions of the classes speak of ghost
abstract state (`Contents`, `contents`, `Recency`, `Entries`, `unions`) that
`Valid` ties to the real fields.

Three things the proofs found in the code:

- `FixedCritBitTreeMap` tests bits without the "exists" bit its twin has. After
  setting a new key, all keys are found if and only if no stored key and the new
  key are such that one is a proper prefix of the other and the longer one
  continues with a NUL byte (`AllFoundIffDistinguishable`); otherwise the arrays
  lose an earlier key (`FixedCritBitTreeMap.Set`, and `EmptyKeyIsLost` for an
  input).
- `nsmallest` with n = 1 uses `Infinity` for "none yet". It returns a smallest
  item if and only if `Infinity` is not among the items, or is the last one, or
  some other item goes no later than it (`ScanIsSmallestIff`). For an empty
  array it returns `[Infinity]`.
- `union` reads the rank of the items instead of their roots. Ranks go on rising
  towards the roots if and only if the two comparisons agree
  (`UnionKeepsRisingIff`). If `union` is always called at roots, every way up is
  logarithmic (`UniteRoots`); otherwise ranks bound nothing: for every
  n > 0, one union and n - 1 rounds of two build a way up of length n with all
  ranks at most 1 (`DeepDespiteRanks`). What `union` connects does not depend on ranks.

## Model

| member | source | states |
|---|---|---|
| `Levenshtein.Triangle` | bench/upstream/passjoin-index.js:347-424 | The distance the index is given obeys the triangle inequality. |
| `Levenshtein.Split` | bench/upstream/passjoin-index.js:100-251 | An optimal alignment of x + y with q cuts q in two so that the parts cost no more than the whole: the combinatorial step behind searching by segments. |
| `Levenshtein.NoScriptIsShorter` | bench/upstream/passjoin-index.js:260-289 | No script of single-character inserts, deletes and replaces is shorter than `Distance`... |
| `Levenshtein.ScriptOfThatLength` | bench/upstream/passjoin-index.js:260-289 | ... and some script attains it, so `Distance` is the true Levenshtein distance. |
| `PassjoinSelection.Partition` | bench/upstream/passjoin-index.js:100-121 | The k + 1 (start, length) pairs follow one another from 0 to l; lengths never fall and differ by one at most, which leaves one possible partition. |
| `PassjoinSelection.Segments` | bench/upstream/passjoin-index.js:130-157 | Segment i of the string is the one partition describes; the segments concatenate back to the string, and their lengths never fall and differ by one at most. |
| `PassjoinSelection.SegmentPosIsStart` | bench/upstream/passjoin-index.js:160-179 | The position computed by the formula is where partition starts the segment. |
| `PassjoinSelection.MultiMatchAwareSubstrings` | bench/upstream/passjoin-index.js:219-251 | The loop yields exactly the non-empty substrings of the segment length that start at some j no farther than i from the place of the segment and no farther than k - i from that place shifted by the difference of lengths, without neighbouring duplicates. |
| `PassjoinSelection.IntervalAt` | bench/upstream/passjoin-index.js:193-205 | A position lies in the interval if and only if it meets these two bounds and a segment fits there. |
| `PassjoinSelection.SomePieceSurvives` | bench/upstream/passjoin-index.js:193-205 | Following an optimal alignment over k + 1 pieces with at most k edits, some piece occurs unchanged inside its own window. |
| `PassjoinSelection.SelectionComplete` | bench/upstream/passjoin-index.js:193-251 | Selection completeness: within distance k of the query, some segment of the string occurs in the query inside the multi-match-aware interval of that segment. |
| `PassjoinSelection.CountIsTotalWidthIff` | bench/upstream/passjoin-index.js:47-49 | The closed formula for the number of substrings looked up equals the sum of the window widths over all segments if and only if the two lengths are at most k apart. |
| `PassjoinIndexes.MatchIsLookedUp` | bench/upstream/passjoin-index.js:379-395 | A string within distance k is looked up under one of its own keys, the empty segment included. |
| `PassjoinIndexes.PassjoinIndex.Add` | bench/upstream/passjoin-index.js:301-339 | Appends the string and keeps the inverted indices exact: a string is posted under a key of its length if and only if the key is one of its segment keys. |
| `PassjoinIndexes.PassjoinIndex.SearchLength` | bench/upstream/passjoin-index.js:363-424 | For one length: nothing wrong is admitted and every match of that length is found. |
| `PassjoinIndexes.PassjoinIndex.Search` | bench/upstream/passjoin-index.js:347-424 | After any run of additions the result is exactly the set of added strings within distance k of the query, whatever keys collide and despite the shortcut for tiny strings. |
| `BinarySearch.LowerBound` | bench/upstream/utils/binary-search.js:87-105 | The first position of the window whose element is not below the value. |
| `BinarySearch.UpperBound` | bench/upstream/utils/binary-search.js:171-189 | The first position of the window whose element is above the value. |
| `BinarySearch.LowerBoundIndices` | bench/upstream/utils/binary-search.js:137-137 | The same through an array of indices. |
| `QuickSort.SplitKeepsPending` | bench/upstream/sort/quick.js:30-60 | The entry at depth j of the stack spans at most (hi - lo) / 2^j positions and the pending windows stay disjoint, when the larger half goes below. |
| `QuickSort.RoomToSplit` | bench/upstream/sort/quick.js:11-60 | A window under 2^64 positions never needs more than the 64 slots. |
| `QuickSort.SplitKeepsOrder` | bench/upstream/sort/quick.js:30-60 | Positions in different pending windows are already in order after partitioning the top window. |
| `QuickSort.PartitionArray` | bench/upstream/sort/quick.js:18-45 | Arranges the window around its first element: a permutation, smaller below, larger above, nothing else touched. |
| `QuickSort.InplaceQuickSort` | bench/upstream/sort/quick.js:11-60 | Terminates with the window sorted, a permutation of what it held, and everything outside untouched. |
| `QuickSort.PartitionIndices` | bench/upstream/sort/quick.js:71-98 | The same partition of indices by the numbers they point to. |
| `QuickSort.InplaceQuickSortIndices` | bench/upstream/sort/quick.js:64-114 | The same for indices sorted by the numbers they point to. |
| `RawHeaps.SiftDown` | bench/upstream/heap.js:26-45 | Restores the heap above a new last entry, down to the start index, and permutes. |
| `RawHeaps.SiftUp` | bench/upstream/heap.js:54-78 | Sinking to a leaf and rising back restores the heap at any start index whose subtrees are heaps, and permutes. |
| `RawHeaps.Push` | bench/upstream/heap.js:87-90 | Adds the item and keeps the heap. |
| `RawHeaps.Pop` | bench/upstream/heap.js:99-111 | Takes out a least item and exactly it; an empty heap has none. |
| `RawHeaps.Replace` | bench/upstream/heap.js:122-131 | Takes out the root, a least item, and puts the new item in; an empty heap refuses. |
| `RawHeaps.PushPop` | bench/upstream/heap.js:142-153 | Returns a least item of the heap together with the new item, and keeps the others. |
| `RawHeaps.Heapify` | bench/upstream/heap.js:161-168 | Makes a heap of any array by permuting it. |
| `RawHeaps.Consume` | bench/upstream/heap.js:177-187 | Returns a sorted permutation of the heap and leaves it empty. |
| `Heaps.Heap.Push` | bench/upstream/heap.js:411-414 | The wrapper adds exactly the item and reports the new size. |
| `Heaps.Heap.Peek` | bench/upstream/heap.js:421-423 | A least item, if there is one. |
| `Heaps.Heap.Pop` | bench/upstream/heap.js:430-435 | Refines a multiset priority queue: a least item leaves, nothing else changes. |
| `Heaps.Heap.Consume` | bench/upstream/heap.js:463-466 | All items in ascending order; the heap is empty afterwards. |
| `SmallestItems.NSmallest` | bench/upstream/heap.js:197-256 | The array branch returns, sorted, n items such that no item left out goes before any of them; all items when there are fewer; a single one by its own scan. |
| `SmallestItems.OneSmallest` | bench/upstream/heap.js:216-226 | The scan for a single item computes `Scan`. |
| `SmallestItems.ScanIsSmallestIff` | bench/upstream/heap.js:216-226 | The item found is a smallest one if and only if the marker (infinity) is not among the items, or is the last of them, or another item goes no later than it. |
| `SmallestItems.MarkerForgotten` | bench/upstream/heap.js:216-226 | A list for which the scan is wrong: with a greatest-first order the marker itself is forgotten. |
| `FixedReverseHeaps.FixedReverseHeap.Push` | bench/upstream/fixed-reverse-heap.js:138-155 | After any run of pushes the heap holds `capacity` best of everything pushed (or all of it). |
| `FixedReverseHeaps.FixedReverseHeap.Peek` | bench/upstream/fixed-reverse-heap.js:162-164 | What the first slot holds; unless the heap is empty, a worst item of those kept. |
| `FixedReverseHeaps.FixedReverseHeap.Consume` | bench/upstream/fixed-reverse-heap.js:171-176 | The items kept, ascending; the heap is empty afterwards. |
| `FixedReverseHeaps.ConsumeItems` | bench/upstream/fixed-reverse-heap.js:65-87 | Taking worst items out from the end of the result gives a sorted permutation. |
| `Comparators.BestIsUnique` | bench/upstream/fixed-reverse-heap.js:138-155 | When ties are identical, there is only one way to be the `capacity` best. |
| `Comparators.SortedIsUnique` | bench/upstream/fixed-reverse-heap.js:171-176 | When ties are identical, there is only one sorted arrangement. |
| `VPTrees.MedianSplit` | bench/upstream/vp-tree.js:93-130 | Sorting by distance, taking the median as mu and finding where distances reach it puts distances below mu to the left, the others to the right, and at most half to the left. |
| `VPTrees.CreateBinaryTree` | bench/upstream/vp-tree.js:47-167 | The flat tree stores each item once, with left-subtree distances below mu and right-subtree distances at least mu at every node. |
| `VPTrees.BuildNext` | bench/upstream/vp-tree.js:65-166 | One turn of the build loop keeps what the stack says is left to build, and leaves less of it. |
| `VPTreeSearch.NextNodes` | bench/upstream/vp-tree.js:234-272 | Which children a query visits: a child is skipped only when its distances rule it out. |
| `VPTreeSearch.PrunedOutOfReach` | bench/upstream/vp-tree.js:283-332 | By the triangle inequality, everything below a skipped child is out of reach. |
| `VPTreeSearch.NearestOfAll` | bench/upstream/vp-tree.js:210-274 | What is left after the search are k nearest of all items. |
| `VPTrees.VPTree.constructor` | bench/upstream/vp-tree.js:176-201 | Builds a tree of the items for any metric. |
| `VPTrees.VPTree.Neighbors` | bench/upstream/vp-tree.js:283-332 | Returns every place whose item is within the radius, the border included, exactly once, each with that item and its distance; measures each item at most once. |
| `VPTrees.VPTree.NearestNeighbors` | bench/upstream/vp-tree.js:210-274 | Returns min(k, size) different places, nearest first, each with its item and distance, none left out being nearer, despite pruning with a shrinking radius. |
| `KDTrees.BuildTree` | bench/upstream/kd-tree.js:91-158 | Every point gets one node; along the axis of the node the left points are at most and the right points at least the pivot. |
| `KDTreeModel.Turn` | bench/upstream/kd-tree.js:106-155 | One turn of the build loop: the median becomes a node, linked to its parent, and its two sides wait. |
| `KDTreeSearch.FarSide` | bench/upstream/kd-tree.js:222-239 | No point on the far side of the split is nearer than the squared gap to it. |
| `KDTreeSearch.OneAxis` | bench/upstream/kd-tree.js:26-38 | The squared distance is at least the square of the difference along any one axis. |
| `KDTreeSearch.DistanceObeysLaw` | bench/upstream/kd-tree.js:26-38 | The distance is zero at the query, and moving one coordinate from u to v changes it by (v - q)^2 - (u - q)^2. |
| `KDTreeSearch.LawGivesDistance` | bench/upstream/kd-tree.js:26-38 | Whatever function obeys that law is this distance, so the law determines it. |
| `KDTrees.KDTree.SquaredDistanceAxes` | bench/upstream/kd-tree.js:26-38 | The loop computes what every function that obeys the law gives for the coordinates of the point. |
| `KDTrees.KDTree.NearestNeighbor` | bench/upstream/kd-tree.js:185-250 | The label of a point that is nearest by every measure obeying the law of squared distances, for every dimension count, point set and query. |
| `KDTrees.KDTree.KNearestNeighbors` | bench/upstream/kd-tree.js:264-340 | The labels of min(k, size) different points, nearest first, none left out being nearer, by every measure obeying the law. |
| `KDTrees.KDTree.LinearKNearestNeighbors` | bench/upstream/kd-tree.js:349-376 | The same by measuring every point. |
| `KDTreeSearch.SameDistances` | bench/upstream/kd-tree.js:264-376 | Any two answers of k nearest points list the same distances in the same order, so the pruned and the linear search agree. |
| `KDTreeSearch.BestAreNearest` | bench/upstream/kd-tree.js:315-346 | A heap of k best tuples led by the distance holds k nearest points, also when points were dropped unseen. |
| `CritBits.MsbIsTopBit` | bench/upstream/utils/bitwise.js:31-37 | Smearing downwards isolates the most significant bit, for every byte. |
| `CritBits.FirstBit` | bench/upstream/utils/bitwise.js:62-64 | The most significant bit of the exclusive or is the first bit in which two bytes differ. |
| `CritBitTreeMaps.DirectionIsBit` | bench/upstream/critbit-tree-map.js:28-38 | Adding the byte to its mask turns at the packed position as the bit there says, past the end of the key included. |
| `CritBitTreeMaps.FindCriticalBit` | bench/upstream/critbit-tree-map.js:48-83 | The packed position at which two keys first differ, in order of bytes, bits and then existence; -1 if and only if they are equal. |
| `CritBitTreeMaps.PackedOrder` | bench/upstream/critbit-tree-map.js:48-83 | Comparing packed positions compares positions. |
| `CritBits.SplitOrders` | bench/upstream/critbit-tree-map.js:460-489 | The key with a 1 at the first position of difference is lexicographically greater, proper prefixes and NUL bytes included. |
| `CritBits.LessByBytes` | bench/upstream/critbit-tree-map.js:460-489 | Lexicographic means: the empty key goes before every other, and otherwise the first bytes decide, or the rest when they are equal. |
| `CritBitTreeMaps.CritBitTreeMap.Set` | bench/upstream/critbit-tree-map.js:143-291 | Refines the map update; the branches for missing children cannot be taken. |
| `CritBitTreeMaps.CritBitTreeMap.Bubble` | bench/upstream/critbit-tree-map.js:222-248 | Finds the lowest ancestor whose position is not past the new one. |
| `CritBitTreeMaps.CritBitTreeMap.Get` | bench/upstream/critbit-tree-map.js:300-328 | The stored value, if the key is there. |
| `CritBitTreeMaps.CritBitTreeMap.Has` | bench/upstream/critbit-tree-map.js:336-361 | Whether the key is there. |
| `CritBitTreeMaps.CritBitTreeMap.Delete` | bench/upstream/critbit-tree-map.js:370-451 | Removes exactly the key, by splicing its sibling in, and says whether it was there. |
| `CritBitTreeMaps.CritBitTreeMap.ForEach` | bench/upstream/critbit-tree-map.js:460-489 | Visits every entry once, keys strictly increasing in lexicographic order. |
| `CritBitTrees.InsertIsGood` | bench/upstream/critbit-tree-map.js:203-289 | Putting the new node where bubbling stops keeps the tree good and adds exactly the entry. |
| `CritBitTrees.DeleteIsGood` | bench/upstream/critbit-tree-map.js:410-449 | Replacing the parent by the sibling keeps the tree good and removes exactly the key. |
| `CritBitTrees.InOrderAscends` | bench/upstream/critbit-tree-map.js:460-489 | The in-order listing is strictly increasing and lists the contents. |
| `CritBitTrees.ShapeIsCanonical` | bench/upstream/critbit-tree-map.js:115-449 | Two good trees with the same contents are the same tree. |
| `CritBitTreeMaps.CritBitTreeMap.SameShape` | bench/upstream/critbit-tree-map.js:143-449 | Any two histories of sets and deletes that end with the same contents end with the same tree. |
| `CritBitTreeMaps.CritBitTreeMap.SetThenDelete` | bench/upstream/critbit-tree-map.js:143-449 | Setting a fresh key and deleting it restores the tree exactly. |
| `FixedCritBitTreeMaps.DirectionIsBit` | bench/upstream/fixed-critbit-tree-map.js:30-40 | Testing the packed bit turns as the bit says, and never turns right for mere existence. |
| `FixedCritBitTreeMaps.FindCriticalBit` | bench/upstream/fixed-critbit-tree-map.js:50-84 | The packed position of the first difference; -1 if and only if the keys are equal. |
| `FixedCritBitTreeMaps.FixedCritBitTreeMap.Set` | bench/upstream/fixed-critbit-tree-map.js:131-280 | With room or a known key, for any key: the arrays hold a tree again, with pointers in range and one inner slot less than leaves, and the key is found with its new value. A map that found all its keys still does if and only if the key was known or distinguishable; otherwise the tree is the one with the new node at an existence bit, and some stored key is no longer found. |
| `FixedCritBitTreeMaps.FixedCritBitTreeMap.Get` | bench/upstream/fixed-critbit-tree-map.js:289-321 | The value at the leaf the turns lead to, if it has the key; the stored value while no key is lost. |
| `FixedCritBitTreeMaps.FixedCritBitTreeMap.Has` | bench/upstream/fixed-critbit-tree-map.js:329-358 | Whether that leaf has the key; whether the key is there while no key is lost. |
| `FixedCritBitTreeMaps.FixedCritBitTreeMap.ForEach` | bench/upstream/fixed-critbit-tree-map.js:367-401 | Visits every leaf once, from left to right; while no key is lost every entry once, keys strictly increasing. |
| `FixedCritBitTreeMaps.FixedCritBitTreeMap.SameShapeAsGrowable` | bench/upstream/fixed-critbit-tree-map.js:131-401 | With the same contents the array version holds the same tree as the growable one. |
| `FixedCritBitTreeMaps.FixedCritBitTreeMap.SameVisits` | bench/upstream/fixed-critbit-tree-map.js:367-401 | With the same contents both versions visit the same entries in the same order. |
| `FixedCritBitTreeMaps.AllFoundIffDistinguishable` | bench/upstream/fixed-critbit-tree-map.js:131-275 | After setting a new key all keys are found if and only if no stored key goes on after the new one with a NUL byte, nor the new one after a stored one. |
| `FixedCritBitTreeMaps.SplitsAtExistence` | bench/upstream/fixed-critbit-tree-map.js:50-84 | Two keys first differ in existence alone if and only if one goes on after the other with a NUL byte. |
| `FixedCritBitTreeMaps.SetHides` | bench/upstream/fixed-critbit-tree-map.js:131-275 | When the new key and the stored key it was compared with first differ in existence alone, looking for the stored key arrives at the new entry, so the stored key is lost. |
| `FixedCritBitTreeMaps.NulFreeAreDistinguishable` | bench/upstream/fixed-critbit-tree-map.js:131-275 | Keys without NUL bytes always are distinguishable. |
| `FixedCritBitTreeMaps.EmptyKeyIsLost` | bench/upstream/fixed-critbit-tree-map.js:131-275 | Setting the empty key and then a lone NUL byte: the arrays find the second and no longer the first. |
| `StaticIntervalTrees.BuildBST` | bench/upstream/static-interval-tree.js:50-113 | Writes a search tree of the sorted window into the slots under i and nowhere else, stays inside the array, and returns the greatest end below. |
| `IntervalTreeModel.RoomFor` | bench/upstream/static-interval-tree.js:184-214 | A tree of height h rooted at slot i fits the 2^h - 1 slots. |
| `StaticIntervalTrees.StaticIntervalTree.constructor` | bench/upstream/static-interval-tree.js:122-215 | For any non-empty list of intervals the array of 2^ceil(log2(n + 1)) - 1 slots suffices. |
| `StaticIntervalTrees.StaticIntervalTree.IntervalsContainingPoint` | bench/upstream/static-interval-tree.js:223-281 | Returns exactly the intervals with start <= point <= end, each as often as it is indexed; the stack of capacity height never overflows. |
| `StaticIntervalTrees.StaticIntervalTree.IntervalsOverlappingInterval` | bench/upstream/static-interval-tree.js:289-350 | Returns exactly the intervals that start no later than the query ends and end no earlier than it starts, each as often as it is indexed. |
| `StaticIntervalTrees.OverlapIsCommonPoint` | bench/upstream/static-interval-tree.js:289-350 | For intervals that do not end before they start this is sharing a point. |
| `IntervalTreeModel.EndsTooEarly` | bench/upstream/static-interval-tree.js:251-262 | A subtree whose greatest end lies before the query holds no match. |
| `IntervalTreeModel.StartsTooLate` | bench/upstream/static-interval-tree.js:274-282 | Nor does a right subtree whose root starts after it. |
| `StaticIntervalTrees.FixedStack.Push` | bench/upstream/static-interval-tree.js:223-350 | A full stack refuses; otherwise the item goes on top. |
| `FibonacciHeaps.ConsumeLinkedList` | bench/upstream/fibonacci-heap.js:104-120 | The nodes of a circular list, each once, from the head to the right. |
| `FibonacciHeaps.FibonacciHeap.MergeWithRoot` | bench/upstream/fibonacci-heap.js:59-69 | Splices a node into the root list in second place. |
| `FibonacciHeaps.FibonacciHeap.RemoveFromRoot` | bench/upstream/fibonacci-heap.js:128-133 | Bypasses a node in the root list and moves the root on if it was the one. |
| `FibonacciHeaps.FibonacciHeap.Link` | bench/upstream/fibonacci-heap.js:160-167 | Makes one root the child of another and counts itself; all other trees stay as they are. |
| `FibonacciHeaps.FibonacciHeap.Consolidate` | bench/upstream/fibonacci-heap.js:174-204 | Keeps all items, leaves roots of pairwise distinct degree, counts its calls of link, and points at a least root. |
| `FibonacciHeaps.FibonacciHeap.Push` | bench/upstream/fibonacci-heap.js:77-87 | Adds exactly the item as a new root, without a call of link. |
| `FibonacciHeaps.FibonacciHeap.Peek` | bench/upstream/fibonacci-heap.js:94-96 | A least item, if there is one. |
| `FibonacciHeaps.FibonacciHeap.Pop` | bench/upstream/fibonacci-heap.js:211-245 | Removes and returns a least item and exactly it, although the first-item pointer is an arbitrary root meanwhile; root degrees are pairwise distinct afterwards. Every call of link costs one tree: the calls made are the roots before, plus the degree of the root popped, less one and less the roots after. |
| `FibonacciHeaps.FibonacciHeap.LinkBound` | bench/upstream/fibonacci-heap.js:174-245 | Over any run, calls of link, which link itself counts, are at most pushes plus the degrees of the roots popped, hence at most pushes + pops * floor(log2 of the largest size). |
| `FibonacciConsolidation.GrownIsGood` | bench/upstream/fibonacci-heap.js:160-167 | Linking two trees of equal degree in heap order gives one of the next degree, with exactly 2^degree nodes. |
| `FibonacciConsolidation.DegreeBound` | bench/upstream/fibonacci-heap.js:174-204 | Every degree is below the heap size, so the table scan misses no root. |
| `FibonacciConsolidation.RootIsLeast` | bench/upstream/fibonacci-heap.js:160-167 | The root of a heap-ordered tree is a least item of it. |
| `FibonacciConsolidation.AllSettled` | bench/upstream/fibonacci-heap.js:174-204 | Once no tree is left to settle, every root is in its slot and degrees differ. |
| `FibonacciForests.RingGrows` | bench/upstream/fibonacci-heap.js:59-69 | Inserting right of an element keeps the doubly linked ring a ring. |
| `FibonacciForests.RingShrinks` | bench/upstream/fibonacci-heap.js:128-133 | Bypassing an element keeps the rest a ring. |
| `StaticDisjointSets.StaticDisjointSet.Find` | bench/upstream/static-disjoint-set.js:41-67 | Both loops terminate; the root is returned, exactly the items on the way up become its children, and no root changes. |
| `StaticDisjointSets.WholeWayCompressed` | bench/upstream/static-disjoint-set.js:55-66 | After compression the parent of every item on any way up is the root, and only parents of such items have changed. |
| `StaticDisjointSets.StaticDisjointSet.Union` | bench/upstream/static-disjoint-set.js:76-102 | Records the union; the class count drops by one exactly if the items were apart. Parents, ranks and roots afterwards are told exactly: which root goes under which is decided by the ranks of the items. |
| `StaticDisjointSets.StaticDisjointSet.AreConnected` | bench/upstream/static-disjoint-set.js:111-115 | True if and only if the items are related by the equivalence closure of all unions so far. |
| `StaticDisjointSets.SameRootIffConnected` | bench/upstream/static-disjoint-set.js:111-115 | Having the same root is being related in every equivalence that contains the unions. |
| `StaticDisjointSets.StaticDisjointSet.Mapping` | bench/upstream/static-disjoint-set.js:122-144 | Gives two items the same number if and only if the unions connect them; every number but 0 first occurs after the one before it, up to `dimension` - 1. |
| `StaticDisjointSets.StaticDisjointSet.Compile` | bench/upstream/static-disjoint-set.js:151-171 | Lists every item once: ascending lists, in order of their first items, that hold exactly what is connected to any of their members; there are `dimension` of them. |
| `StaticDisjointSets.ClassesAreConnected` | bench/upstream/static-disjoint-set.js:122-171 | Two items have the same class number if and only if the unions connect them. |
| `UnionRanks.UnionKeepsRisingIff` | bench/upstream/static-disjoint-set.js:76-102 | Ranks go on rising towards the roots after a union if and only if its items were in one class already or their ranks compare as those of their roots do. |
| `UnionRanks.CompressionKeepsRising` | bench/upstream/static-disjoint-set.js:55-66 | Compression never spoils that. |
| `UnionRanks.UniteRoots` | bench/upstream/static-disjoint-set.js:76-102 | Calling union at the roots of any pairs connects exactly what the pairs connect, and every way up stays at most logarithmic in the number of items; a byte suffices for the ranks. |
| `UnionRanks.WaysAreLogarithmic` | bench/upstream/static-disjoint-set.js:76-102 | Rising ranks and classes of at least 2^rank items bound every way up. |
| `UnionRanks.DeepDespiteRanks` | bench/upstream/static-disjoint-set.js:76-102 | Called at other items it bounds nothing: for every n a run of unions builds a way up of length n over 2n items while no rank exceeds 1. |
| `LRUMaps.LRUMap.SplayOnTop` | bench/upstream/lru-cache.js:77-100 | Moves a slot to the front of the linked list, whatever the stale pointers at its ends hold. |
| `LRUMaps.LRUMap.Set` | bench/upstream/lru-map.js:69-102 | An overwritten entry moves to the front of the others; a new one goes in front, and on a full map exactly the last entry is dropped, for every capacity. |
| `LRUMaps.LRUMap.SetPop` | bench/upstream/lru-map.js:115-160 | The same, reporting the entry overwritten or evicted; an evicted key that is falsy is not reported. |
| `LRUMaps.LRUMap.Has` | bench/upstream/lru-map.js:168-170 | Whether the key is listed; nothing moves. |
| `LRUMaps.LRUMap.Get` | bench/upstream/lru-map.js:179-188 | For a key listed at i: its value, and the list becomes entry i followed by the entries before and after it; for any other key nothing, and the list stays. |
| `LRUMaps.LRUMap.Peek` | bench/upstream/lru-map.js:197-204 | The value, if any; nothing moves. |
| `LRUMaps.LRUMap.ForEach` | bench/upstream/lru-cache.js:253-271 | Iteration yields the recency list. |
| `LRUMaps.ChainSplays` | bench/upstream/lru-cache.js:77-100 | The pointer updates turn a well-linked list into the well-linked list with that slot in front. |
| `LRURuns.HoldsTheLatest` | bench/upstream/lru-map.js:69-102 | The fold of single stores leaves the keys stored last, as many as fit, latest first, each with its last value. |
| `LRURuns.StoreAll` | bench/upstream/lru-map.js:69-102 | Any run of calls of `set` on an empty map leaves its recency list equal to that fold, hence to the keys stored last. |
| `LRURuns.SmallerHoldsFirst` | bench/upstream/lru-map.js:69-102 | After the same stores a map of smaller capacity holds the first entries of what a larger one holds. |
| `LRURuns.UseAll` | bench/upstream/lru-map.js:69-191 | After any run of stores and lookups on an empty map, entries stand in order of the last use of their keys, each with the value stored last; what is not listed was last used before all that is, on a full map. So the entry a full map drops is the least recently used. Lookups that find nothing do not count, and those that do find the value stored last. |
| `SortedArrays.MergeArrays` | bench/upstream/utils/merge.js:28-42 | A sorted arrangement of the elements of both sorted arrays. |
| `SortedArrays.UnionUniqueArrays` | bench/upstream/utils/merge.js:107-193 | Strictly increasing, with exactly the elements of either array. |
| `SortedArrays.IntersectionUniqueArrays` | bench/upstream/utils/merge.js:202-253 | Strictly increasing, with exactly the common elements, despite range clipping, galloping and the operand swap. |
| `SortedArrays.IncreasingIsUnique` | bench/upstream/utils/merge.js:202-253 | A strictly increasing array is determined by its elements, so union and intersection have one possible result. |
| `InvertedIndexes.InvertedIndex.Add` | bench/upstream/inverted-index.js:65-106 | Appends the document; every posting list stays the strictly increasing list of exactly the documents with its token. |
| `InvertedIndexes.InvertedIndex.Get` | bench/upstream/inverted-index.js:113-154 | The documents at exactly the places whose documents hold every token of the query, in insertion order; none for a query without tokens. |
| `InvertedIndexes.DimensionIsVocabulary` | bench/upstream/inverted-index.js:96-103 | `dimension` counts the distinct tokens of all documents. |
| `InvertedIndexes.PickedIsFilter` | bench/upstream/inverted-index.js:148-154 | Fetching the documents at the increasing matching places is filtering the documents. |
| `TrieMaps.TrieMap.Set` | bench/upstream/trie-map.js:50-67 | Refines the update of a map from token sequences to values. |
| `TrieMaps.TrieMap.Get` | bench/upstream/trie-map.js:102-121 | The stored value, if any. |
| `TrieMaps.TrieMap.Has` | bench/upstream/trie-map.js:183-196 | Whether a value is stored. |
| `TrieMaps.TrieMap.Delete` | bench/upstream/trie-map.js:130-160 | Removes exactly the key, says whether it was there, and leaves no node that does not lead to a key. |
| `TrieMaps.PrunableIsChain` | bench/upstream/trie-map.js:142-165 | The branch tracked while walking down serves the key alone, and the node it hangs on is the root or serves something else too: it is the longest such branch. |
| `TriePaths.CutRemovesKey` | bench/upstream/trie-map.js:172-178 | Cutting that branch removes exactly the key and leaves no dead branch. |
| `TrieMaps.TrieMap.NodesLeadToKeys` | bench/upstream/trie-map.js:130-160 | A node is there if and only if it is the root or on the way to a key: the shape of the trie is a function of its keys. |
| `TrieMaps.TrieMap.Find` | bench/upstream/trie-map.js:206-219 | Exactly the pairs of a key that extends the prefix and its value, each once. |
| `TriePaths.WalkDown` | bench/upstream/trie-map.js:228-240 | One round of the depth-first walk: what no path on the stack covers is exactly what has been visited. |

## Left out

- LRUCache's object index (lru-cache.js:109-142): the array machine is the one proved for the map; string coercion of keys and keys inherited from the object prototype are not modelled.
- LRUMap with unusable capacities, `from`, iterators and `inspect`; the order in which `Map` stores keys plays no part.
- LRURuns.SmallerHoldsFirst: compares runs of stores only; a lookup that hits in the larger map and misses in the smaller one makes the two differ.
- FixedCritBitTreeMaps.FixedCritBitTreeMap.Set: requires room or a key that is found; `clear` and insertion past the capacity break the arrays upstream.
- CritBitTreeMaps.FindCriticalBit: packed positions are unbounded numbers; the 32-bit shift of very long keys and character codes above 255 are not modelled.
- StaticDisjointSets.StaticDisjointSet.Union: ranks are kept modulo 256, one byte; the other typed-array widths are taken to be large enough.
- StaticIntervalTrees.StaticIntervalTree.constructor: takes the indices sorted by start as a parameter in place of the built-in sort, and intervals instead of getters; an empty list, for which the source fails, is excluded.
- SmallestItems.NSmallest: the built-in sort is a parameter, n is at least 1, and iterables that are not arrays are not modelled; `nlargest` is its mirror image.
- VPTrees.VPTree.constructor: requires at least one item, as the source hands `undefined` to the distance otherwise.
- KDTrees.KDTree.KNearestNeighbors: needs at least one point, k at least 1 and a query with enough coordinates; reshaping rows into axes is left out.
- TrieMaps.TrieMap.Find: the order in which an object lists its tokens is arbitrary here, so the order of the matches is not stated.
- TrieMaps.TrieMap.Set: the value under the sentinel is a field of its own, since keys never contain the sentinel; tokens that name inherited object properties are not modelled, nor are `update` and the iterators.
- InvertedIndexes.InvertedIndex.Get: tokenizers are total functions that return lists; `forEach` and the iterators are left out.
- SortedArrays.MergeArrays: the result grows as a sequence where the source fills an array of known length; the k-way variants are left out.
- FibonacciHeaps.FibonacciHeap.Pop: parent pointers are written but never read, so nothing is claimed of them; the Max variant, which negates the comparator, is left out.
- PassjoinIndexes.PassjoinIndex.Search: strings are sequences of characters without normalisation, and the distance function is the true one; results come as a set, so iteration order is not stated.
- QuickSort.InplaceQuickSort: midpoints and lengths are unbounded numbers, for windows under 2^64 positions.
- Floating-point rounding, NaN and infinities in arithmetic; the height of the interval tree is the exact ceiling of the logarithm.
- SuffixArray, SymSpell, BKTree, bit sets, sparse sets and maps, queues, deques, bloom filters and the remaining structures.
- The benchmark runners, the fuzzing oracle, the N-API layer, `inspect`, `toJSON`, `from` and error texts.
