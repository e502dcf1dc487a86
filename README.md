# A verified model of a 2-D kd-tree

This project models a generic kd-tree that stores values at integer points
(`kdtree/src/KDTree.java`, `kdtree/src/KDNode.java`) and proves its
operations correct.

A node at depth `d` splits on x when `d` is even and on y when it is odd.
Every entry of its left subtree is strictly below the node on that axis,
and every entry of its right subtree is at or above it. This is the check
`validateTree` performs, and here it is the predicate `Trees.Ordered`. The
root sits at depth 0 and each child one level deeper (`Trees.Depths`).

The model has two layers:

- **Value layer.** A `Tree` datatype with one `Node(val, x, y, depth, left,
  right)` per node. Each recursive operation is written once as a function
  on it: `Lookup.Insert`, `Lookup.Exists`, `Extremes.FindMin`/`FindMax`,
  `Deletion.Delete`/`PublicDelete` and
  `RangeQuery.RangeSearchFrom`/`RangeSearch`. The properties are lemmas
  about these functions:
  - the invariants are preserved;
  - entries are added or removed as a multiset;
  - insert / exists round trips;
  - range search is both sound and complete.
- **Heap layer.** The classes `KDNodes.KDNode` and `KDTrees.KDTree` have the
  Java fields, and their methods update those fields in place as the Java
  does. A valid node carries its footprint `Repr` and its value view `Model`.
  Each method's contract ties the new `Model` to the value-layer function of
  the old one.
  - **Rebuild.** The list is an `array` of nodes. `Selection.Partition` and
    `Selection.FindMedian` permute it in place. `Building.Build` relinks the
    existing nodes, as `createKDTreeFromList` does.
  - **Queue loops.** `Traversal.ConvertToList` and `Traversal.GetAllValues` are
    `while` loops over a queue of nodes.

Parameters and modelling choices:

- **Pivot choice.** The random pivot of `findMedian` comes from a
  caller-supplied `pick: nat -> nat`. The pivot index is
  `left + pick(k) % (right - left + 1)` in round `k`, so every property holds
  for every pivot sequence.
- **Rectangles.** A `Rectangle` is an integer `Rect(x, y, width, height)`.
  Its `overlaps` and `contains` tests are function parameters. Soundness of
  range search assumes only that `contains` implies enclosure. Completeness
  assumes only that `overlaps` holds whenever two closed rectangles share a
  point.
- **Coordinates.** Coordinates are bounded to `[-2^30, 2^30 - 1]`
  (`Geometry.Coord`). Within that range the Java `int` subtractions in
  `compare` never wrap, and `Compare` proves its result fits in 32 bits.
- **Values.** `V` stands for the value type, and its equality stands for
  Java reference identity in `equals`.
- **Absent results.** `Option` stands for a Java `null` result or argument.

## Model

| member | source | states |
|---|---|---|
| KDNodes.KDNode.constructor | kdtree/src/KDNode.java:7-14 | the new node stores v, x, y and depth, has no children, and is a valid one-node subtree |
| KDNodes.KDNode.Compare | kdtree/src/KDNode.java:23-29 | the result fits in 32 bits; it is negative exactly when the node lies beyond the query point on the axis of the depth, and zero exactly when the two agree on that axis |
| KDNodes.KDNode.CompareTo | kdtree/src/KDNode.java:37-43 | the result fits in 32 bits; it is negative exactly when this node lies below n on the axis, and zero exactly when they agree on it |
| KDNodes.KDNode.Equals | kdtree/src/KDNode.java:45-47 | true exactly when the node holds the entry (v, x, y) |
| KDNodes.CompareToAntisymmetric | kdtree/src/KDNode.java:23-43 | a.compare(b, d) is minus b.compare(a, d), and equals b.compare(a.x, a.y, d), so insertion, deletion and partition descend by the same order |
| KDNodes.CompareDependsOnParity | kdtree/src/KDNode.java:24-43 | both comparators depend on the depth only through its parity |
| KDNodes.KDNode.Relink | kdtree/src/KDTree.java:43-45 | storing an entry, a depth and two disjoint valid children makes a valid node whose view is built from theirs |
| KDNodes.KDNode.Attach | kdtree/src/KDTree.java:186-196 | relabelling the depth and relinking the children, as the rebuild does, keeps the entry and makes a valid node over the children's footprints |
| Geometry.SameAxisCoord | kdtree/src/KDTree.java:78 | depths of the same parity split on the same coordinate |
| Geometry.TrimLeft | kdtree/src/KDTree.java:412-423 | on the node's axis the lower edge moves to the node's coordinate and the upper edge stays; the other axis is untouched |
| Geometry.TrimRight | kdtree/src/KDTree.java:431-440 | on the node's axis the upper edge moves to the node's coordinate and the lower edge stays; the other axis is untouched |
| Geometry.TrimLeftKeeps | kdtree/src/KDTree.java:412-423 | a point of the bound at or above the node on its axis stays inside the trimmed bound |
| Geometry.TrimRightKeeps | kdtree/src/KDTree.java:431-440 | a point of the bound at or below the node on its axis stays inside the trimmed bound |
| Geometry.CommonPointMeets | kdtree/src/KDTree.java:465 | two closed rectangles holding a common point share a point |
| Geometry.EnclosedPoint | kdtree/src/KDTree.java:466-468 | a point of an enclosed rectangle lies in the enclosing one |
| Trees.BelowHolds | kdtree/src/KDTree.java:371-377 | every entry of a subtree that is below a bound lies strictly below it on the axis |
| Trees.AtLeastHolds | kdtree/src/KDTree.java:379-385 | every entry of a subtree that is at or above a bound lies at or above it on the axis |
| Trees.BelowFromEntries | kdtree/src/KDTree.java:371-377 | a subtree whose entries all lie strictly below a bound is below it (converse of BelowHolds) |
| Trees.AtLeastFromEntries | kdtree/src/KDTree.java:379-385 | a subtree whose entries all lie at or above a bound is at or above it (converse of AtLeastHolds) |
| Trees.BelowOfFewer | kdtree/src/KDTree.java:371-377 | a tree holding a sub-multiset of the entries of a tree below a bound is below it too |
| Trees.AtLeastOfFewer | kdtree/src/KDTree.java:379-385 | a tree holding a sub-multiset of the entries of a tree at or above a bound is at or above it too |
| Trees.BelowRaise | kdtree/src/KDTree.java:371-377 | a subtree below a bound is below every larger bound |
| Lookup.Insert | kdtree/src/KDTree.java:34-48 | the result is never empty and keeps the entry and depth at its root |
| Lookup.InsertKeepsDepths | kdtree/src/KDTree.java:34-48 | insertion keeps the root at its depth and each child one level below its parent; the new leaf sits one below its parent |
| Lookup.InsertKeepsBelow | kdtree/src/KDTree.java:42-46 | inserting below a bound keeps the subtree below it |
| Lookup.InsertKeepsAtLeast | kdtree/src/KDTree.java:42-46 | inserting at or above a bound keeps the subtree at or above it |
| Lookup.InsertKeepsOrdered | kdtree/src/KDTree.java:34-48 | insertion keeps the splitting-axis invariant |
| Lookup.InsertExistingIsNoop | kdtree/src/KDTree.java:38-40 | inserting an entry the descent meets leaves the tree unchanged |
| Lookup.InsertAddsEntry | kdtree/src/KDTree.java:34-48 | inserting an entry the descent does not meet adds exactly one copy of it |
| Lookup.InsertThenExists | kdtree/src/KDTree.java:25-65 | after inserting (v, x, y), exists(v, x, y) is true |
| Lookup.InsertIdempotent | kdtree/src/KDTree.java:34-48 | inserting the same entry twice is the same as inserting it once |
| Lookup.Matches | kdtree/src/KDNode.java:45-47 | on the value view, a node matches exactly when it holds the entry (v, x, y) |
| Lookup.Exists | kdtree/src/KDTree.java:54-65 | the descent answers true only when it has reached a node holding the entry |
| Lookup.ExistsIffStored | kdtree/src/KDTree.java:54-65 | in a tree that keeps the invariant, exists is true exactly when the tree holds the entry (the converse of Lookup.Exists's contract) |
| Extremes.Lower | kdtree/src/KDTree.java:84-90 | the smaller of the candidate and the current minimum on the axis, keeping the current one on ties |
| Extremes.Higher | kdtree/src/KDTree.java:112-118 | the larger of the candidate and the current maximum on the axis, keeping the current one on ties |
| Extremes.FindMin | kdtree/src/KDTree.java:74-93 | no result exactly for an empty subtree; otherwise one of its entries |
| Extremes.FindMax | kdtree/src/KDTree.java:102-121 | no result exactly for an empty subtree; otherwise one of its entries |
| Extremes.FindMinIsLeast | kdtree/src/KDTree.java:74-93 | in a tree that keeps the invariant, the minimum lies at or below every entry on the axis |
| Extremes.FindMaxIsGreatest | kdtree/src/KDTree.java:102-121 | in a tree that keeps the invariant, the maximum lies at or above every entry on the axis |
| Deletion.Delete | kdtree/src/KDTree.java:133-170 | the result is empty exactly when the subtree is empty or is a leaf holding the target |
| Deletion.PublicDelete | kdtree/src/KDTree.java:129-131 | a tree is empty afterwards exactly when it was empty before; the result is the private delete's result except when the root is a leaf holding the target, and then it is the old tree |
| Deletion.DeleteAbsentIsNoop | kdtree/src/KDTree.java:133-170 | when the descent meets no node holding the target, the subtree comes back unchanged |
| Deletion.DeleteKeepsDepths | kdtree/src/KDTree.java:133-170 | deletion keeps each node at its level |
| Deletion.DeleteEntries | kdtree/src/KDTree.java:133-170 | the entries afterwards are the old ones minus one copy of the target |
| Deletion.ReplacedRootEntries | kdtree/src/KDTree.java:144-159 | replacing the root's entry by the subtree minimum and deleting that minimum below removes exactly the target |
| Deletion.DescentLeftEntries | kdtree/src/KDTree.java:164-165 | deleting in the left subtree removes exactly the target from the whole |
| Deletion.DescentRightEntries | kdtree/src/KDTree.java:166-167 | deleting in the right subtree removes exactly the target from the whole |
| Deletion.DeleteKeepsOrdered | kdtree/src/KDTree.java:133-170 | deletion keeps the splitting-axis invariant, including when the reduced left subtree moves into the right slot |
| Deletion.DescentLeftOrdered | kdtree/src/KDTree.java:164-165 | deleting in the left subtree keeps the invariant at the node |
| Deletion.DescentRightOrdered | kdtree/src/KDTree.java:166-167 | deleting in the right subtree keeps the invariant at the node |
| Deletion.ReplacedRootOrdered | kdtree/src/KDTree.java:144-159 | the replacement entry splits the remaining children correctly |
| Deletion.PublicDeleteKeepsInvariants | kdtree/src/KDTree.java:129-131 | the public delete keeps the invariant and depth consistency |
| Deletion.DeleteThenAbsent | kdtree/src/KDTree.java:129-170 | unless the tree is a single node holding the target, deleting an entry held at most once removes it, and exists is false afterwards |
| Deletion.SoleNodeSurvivesDelete | kdtree/src/KDTree.java:129-131 | deleting the only node of a one-node tree leaves the tree unchanged, because the public delete discards the result |
| RangeQuery.RangeSearchFrom | kdtree/src/KDTree.java:463-486 | null exactly for an empty subtree or a bound the range does not overlap; the values found are values of the subtree |
| RangeQuery.TreeBounds | kdtree/src/KDTree.java:453-459 | the bound spans from the least to the greatest x and from the least to the greatest y of the tree |
| RangeQuery.RangeSearch | kdtree/src/KDTree.java:447-461 | null for an empty tree; otherwise null exactly when the range misses the tree's bound |
| RangeQuery.WithinHolds | kdtree/src/KDTree.java:463-486 | every entry of a subtree within a bound lies in the bound |
| RangeQuery.WithinFromEntries | kdtree/src/KDTree.java:463-486 | a subtree whose entries all lie in a bound is within it (converse of WithinHolds) |
| RangeQuery.TreeBoundsHoldAll | kdtree/src/KDTree.java:453-459 | the starting bound holds every entry of the tree |
| RangeQuery.WithinTrimRight | kdtree/src/KDTree.java:431-440 | a subtree below the node stays within the bound trimmed on the right |
| RangeQuery.WithinTrimLeft | kdtree/src/KDTree.java:412-423 | a subtree at or above the node stays within the bound trimmed on the left |
| RangeQuery.ChildBoundsHold | kdtree/src/KDTree.java:477-481 | each child's subtree lies within the bound it is searched with |
| RangeQuery.ValuesInAreValues | kdtree/src/KDTree.java:473 | the values in a range are values of the tree |
| RangeQuery.EnclosedValuesIn | kdtree/src/KDTree.java:466-468 | when the range encloses the bound, every value of the subtree lies in the range |
| RangeQuery.ApartValuesIn | kdtree/src/KDTree.java:465 | when the range shares no point with the bound, no value of the subtree lies in the range |
| RangeQuery.RangeSearchFromSound | kdtree/src/KDTree.java:463-486 | if contains implies enclosure, every value found belongs to an entry inside the closed range |
| RangeQuery.RangeSearchFromComplete | kdtree/src/KDTree.java:463-486 | if overlaps holds for rectangles sharing a point, every value of an entry inside the range is found |
| RangeQuery.RangeSearchExact | kdtree/src/KDTree.java:447-486 | under both assumptions the public search finds exactly the values of the entries inside the range |
| Selection.SwapMultiset | kdtree/src/KDTree.java:201-206 | exchanging two positions keeps the multiset of the list |
| Selection.PermutedWindow | kdtree/src/KDTree.java:214-260 | a rearrangement of a window keeps the window's multiset |
| Selection.Swap | kdtree/src/KDTree.java:201-206 | the two positions are exchanged, all others are unchanged, and the multiset of the list is kept |
| Selection.Partition | kdtree/src/KDTree.java:214-228 | the pivot lands at the returned index within the window; entries before it are strictly below the pivot, entries after it are at or above it; the list is permuted only inside the window |
| Selection.KeysRearranged | kdtree/src/KDTree.java:214-260 | rearranging a window's nodes rearranges their keys |
| Selection.PartitionRound | kdtree/src/KDTree.java:242-251 | one partition round narrows the search window toward the median position, keeping the keys outside it split around it |
| Selection.Narrow | kdtree/src/KDTree.java:239-252 | the quickselect loop ends with the median position settled: keys before it are below or equal, keys after it are at or above it |
| Selection.TieDone | kdtree/src/KDTree.java:254-257 | after the backward tie shift, keys before the returned index are strictly below it and keys after are at or above it |
| Selection.FindMedian | kdtree/src/KDTree.java:238-260 | for every pivot sequence, the index lies between the window's left end and its middle; keys before it are strictly below it, keys from it to the middle equal it, keys after it are at or above it; the list is permuted only inside the window |
| NodeLists.SameNodes | kdtree/src/KDTree.java:393-404 | two lists without repetitions that hold the same nodes are rearrangements of each other |
| NodeLists.SameMultisetNodes | kdtree/src/KDTree.java:393-404 | rearrangements hold the same nodes and are both free of repetitions or both not |
| NodeLists.DistinctSplit | kdtree/src/KDTree.java:192-196 | the pieces around the median of a list without repetitions share no node |
| NodeLists.ElementsSplit | kdtree/src/KDTree.java:192-196 | the nodes of a rearranged window are the two pieces and the median |
| NodeLists.EntriesOfConcat | kdtree/src/KDTree.java:393-404 | the entries of a concatenation are the entries of the two parts |
| NodeLists.EntriesOfPermuted | kdtree/src/KDTree.java:214-260 | a rearranged list holds the same entries |
| NodeLists.RemoveAt | kdtree/src/KDTree.java:393-404 | taking a node out of a list takes its entry out of the list's entries |
| NodeLists.TreeNodes | kdtree/src/KDTree.java:393-404 | the nodes of a valid subtree, listed, hold each node of its footprint exactly once |
| NodeLists.TreeEntries | kdtree/src/KDTree.java:393-404 | the entries held by the nodes of a valid subtree are those of its value view |
| NodeLists.DistinctJoin | kdtree/src/KDTree.java:393-404 | a node followed by two disjoint lists without repetitions that do not contain it has no repetitions |
| TreeOps.InsertAt | kdtree/src/KDTree.java:34-48 | the subtree becomes Lookup.Insert of its old view and stays valid; an existing root is returned; only fresh nodes are added |
| TreeOps.InsertLeft | kdtree/src/KDTree.java:42-43 | the left child becomes the insertion into the old left subtree |
| TreeOps.InsertRight | kdtree/src/KDTree.java:44-45 | the right child becomes the insertion into the old right subtree |
| TreeOps.ExistsFrom | kdtree/src/KDTree.java:54-65 | the answer is Lookup.Exists of the subtree's view |
| TreeOps.FindMinNode | kdtree/src/KDTree.java:74-93 | null exactly for an empty subtree; otherwise a node of the subtree holding Extremes.FindMin's entry |
| TreeOps.FindMaxNode | kdtree/src/KDTree.java:102-121 | null exactly for an empty subtree; otherwise a node of the subtree holding Extremes.FindMax's entry |
| TreeOps.DeleteAt | kdtree/src/KDTree.java:133-170 | the returned subtree's view is Deletion.Delete of the old view; a surviving root is the same node and stays valid over fewer nodes; a deleted root is an unchanged leaf |
| TreeOps.ReplaceFromRight | kdtree/src/KDTree.java:145-151 | copying the right subtree's minimum into the node and deleting it there gives Deletion.Delete |
| TreeOps.ReplaceFromLeft | kdtree/src/KDTree.java:152-159 | copying the left subtree's minimum into the node, deleting it there and moving the rest into the right slot gives Deletion.Delete |
| TreeOps.DeleteInLeft | kdtree/src/KDTree.java:164-165 | deleting in the left child gives Deletion.Delete |
| TreeOps.DeleteInRight | kdtree/src/KDTree.java:166-167 | deleting in the right child gives Deletion.Delete |
| Building.BelowFromNodes | kdtree/src/KDTree.java:192-195 | a subtree built from nodes below the median is below it on the axis |
| Building.AtLeastFromNodes | kdtree/src/KDTree.java:192-196 | a subtree built from nodes at or above the median is at or above it on the axis |
| Building.MedianSplit | kdtree/src/KDTree.java:192-196 | around the median, a window without repetitions splits into two disjoint pieces that together with it hold the window's nodes |
| Building.Build | kdtree/src/KDTree.java:181-199 | null exactly for an empty window; otherwise a valid tree made of exactly the window's nodes, keeping the invariant, each node at its level; the list outside the window is untouched |
| Building.PlaceMedian | kdtree/src/KDTree.java:192-193 | after findMedian the window splits at the median into disjoint pieces below and at or above it |
| Building.BuildAroundMedian | kdtree/src/KDTree.java:192-198 | a window of two or more nodes becomes a valid ordered tree of exactly its nodes |
| Building.LinkAroundMedian | kdtree/src/KDTree.java:193-198 | the median node gets the two subtrees built from the pieces |
| Building.BuildLeft | kdtree/src/KDTree.java:195 | the left piece becomes a valid ordered subtree one level deeper and below the median |
| Building.AttachRight | kdtree/src/KDTree.java:196-198 | building the right piece and linking both under the median makes a valid ordered tree |
| Building.BuildRight | kdtree/src/KDTree.java:196 | the right piece becomes a valid ordered subtree one level deeper and at or above the median, leaving the left subtree alone |
| Building.Join | kdtree/src/KDTree.java:194-196 | linking two ordered subtrees under a node that splits them gives an ordered tree at its depth |
| Traversal.Enqueue | kdtree/src/KDTree.java:283-284 | the queue after a visit is the old queue followed by the node's non-null children, left before right, and nothing else |
| Traversal.ForestSnoc | kdtree/src/KDTree.java:399-400 | queueing a child adds exactly that child's subtree to the nodes still to visit |
| Traversal.Visit | kdtree/src/KDTree.java:398-401 | taking the head off the queue and queueing its children keeps every node to visit exactly once |
| Traversal.Step | kdtree/src/KDTree.java:397-402 | one round of the queue loop keeps the visited-plus-pending nodes and decreases the work left |
| Traversal.Finish | kdtree/src/KDTree.java:397-403 | with the queue empty, the visited nodes are all the nodes |
| Traversal.TreeValues | kdtree/src/KDTree.java:277-288 | the values held by the nodes of a valid subtree are those of its value view |
| Traversal.ValuesOfPermuted | kdtree/src/KDTree.java:277-288 | rearranged lists hold the same values |
| Traversal.ValuesOfConcat | kdtree/src/KDTree.java:277-288 | the values of a concatenation are those of the two parts |
| Traversal.ConvertToList | kdtree/src/KDTree.java:393-404 | the list holds every node of the subtree exactly once and nothing else, and so holds exactly the subtree's entries |
| Traversal.GetAllValues | kdtree/src/KDTree.java:277-288 | the set is exactly the values of the subtree |
| Traversal.RangeSearchAt | kdtree/src/KDTree.java:463-486 | the result is RangeQuery.RangeSearchFrom of the subtree's view |
| KDTrees.KDTree.constructor | kdtree/src/KDTree.java:21-23 | an empty valid tree |
| KDTrees.KDTree.Insert | kdtree/src/KDTree.java:25-32 | a null value leaves the tree alone; otherwise the view becomes Lookup.Insert from depth 0 and the tree stays valid |
| KDTrees.KDTree.Exists | kdtree/src/KDTree.java:50-52 | true exactly when the tree holds the entry |
| KDTrees.KDTree.Delete | kdtree/src/KDTree.java:129-131 | the view becomes Deletion.PublicDelete of the old one and the tree stays valid over fewer nodes |
| KDTrees.KDTree.CreateKDTreeFromList | kdtree/src/KDTree.java:177-179 | the tree is made of exactly the list's nodes, holds exactly their entries, keeps the invariant, and is empty exactly for an empty list |
| KDTrees.KDTree.SetRoot | kdtree/src/KDTree.java:178 | storing a valid ordered subtree as the root makes a valid tree with its nodes and view |
| KDTrees.KDTree.Balance | kdtree/src/KDTree.java:265-271 | the tree keeps its nodes and its entry multiset and stays valid |
| KDTrees.KDTree.RangeSearch | kdtree/src/KDTree.java:447-461 | the result is RangeQuery.RangeSearch of the view |
| KDTrees.KDTree.Clear | kdtree/src/KDTree.java:491-493 | the tree becomes empty and valid |
| KDTrees.RebuiltEntries | kdtree/src/KDTree.java:177-199 | a tree made of exactly the nodes of a list without repetitions holds exactly the list's entries |

## Left out

- Console and logging output is not modelled: `System.out.println` in insert and delete, `printList`, `printTree` and the `Gdx.app.error` call. It is diagnostic I/O only.
- `validateTree` is the invariant `Trees.Ordered` and is not a method of the model. `searchEntireTree` is not modelled. Both are development checks that print instead of returning a result.
- The floating-point pivot `Math.random()*(float)(right-left+1)` is replaced by the caller-supplied `pick`. Every contract holds for every choice it makes.
- The libgdx `Rectangle` is an integer rectangle, and its `overlaps` and `contains` are parameters. Its float fields and the behaviour of its methods are not part of this model.
- Java's 32-bit wrap-around is not modelled. Coordinates are bounded so that the `int` subtractions in `compare` never overflow.
- The float fields of `Rectangle` are integers here, so float rounding is not modelled. It affects the bound arithmetic in `trimLeft`, `trimRight` and `rangeSearch` and the point test at `KDTree.java:473` once coordinates pass 2^24.
- `HashSet` is a mathematical `set`, and the `LinkedList` queue and `ArrayList` result are sequences.
- KDTrees.KDTree.Balance: requires a non-empty tree, because `convertToList(null)` dereferences the null root.
- Traversal.ConvertToList: requires a non-null subtree, because the Java loop reads `top.left` of the null it queued.
- Traversal.GetAllValues: requires a non-null subtree, for the same reason.
- Traversal.ConvertToList: states which nodes the list holds but not their breadth-first order.
- KDTrees.KDTree.CreateKDTreeFromList: requires a list without repeated nodes, which `balance` always passes. With a repeated node the Java code links a node under itself.
- KDTrees.KDTree.CreateKDTreeFromList: does not state that the list ends up as a rearrangement of itself, only what tree is built.
- The list of `createKDTreeFromList` is an `array` of nodes, not a growable `List`.
- KDTrees.KDTree.Exists and KDTrees.KDTree.Delete: take a non-null value, because `V` has no null. `insert` never stores null, but a caller can build nodes holding null and hand them to the public `createKDTreeFromList`. In that case `exists(null, x, y)` and `delete(null, x, y)` can match such a node, and the model does not state that case.
- Building.Build: gives every `findMedian` call in one rebuild the same `pick` function, and each call's rounds read it from 0 on, so the windows' pivot choices are not independent as random draws would be. Every contract holds for every `pick`, so no property rests on the choices.
- Selection.FindMedian: the Java `break` after a hit is a loop flag.
- The recursive helpers are split into one method per branch (`TreeOps.InsertLeft`, `TreeOps.ReplaceFromRight`, `Building.BuildLeft`, …), with the same branches and conditions as the single Java method.
- Building.Build: the rebuild writes a node's depth and children after both recursive calls rather than between them. The recursions never touch that node, so the resulting tree is the same.
