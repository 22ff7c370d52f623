# An R*-tree, modelled and verified in Dafny

This project models the R*-tree of the `spade` crate (`src/rtree.rs`) and
proves what its operations do. The tree stores spatial objects in leaves.
Every directory node caches the least rectangle around everything below it,
and every directory node knows its `depth`: the distance to the leaves.

The model covers the following:

* **Options.** `RTreeOptions`, its setters, and the relations the algorithms
  rely on: `1 <= min_size < max_size` and
  `1 <= reinsertion_count < max_size`.
* **Insertion.** `insert` descends with `choose_subtree` and grows the cached
  boxes on the way down. An overflowing node is handled by
  `resolve_overflow`: the first overflow on a level triggers a forced
  reinsertion (`reinsert`) and later ones a split (`split`, with
  `get_split_axis`). `RTree::insert` runs its insertion stack until it is
  empty and grows a new root when the root splits.
* **Removal.** `remove` and `lookup_and_remove`, including how emptied
  directory nodes are dropped and an emptied root goes back to depth 1.
* **Queries.** `contains`, `lookup` (a depth-first search with an explicit
  queue), `lookup_in_rectangle` and `lookup_in_circle`, each pruned by the
  cached boxes.
* **Nearest neighbours.**
  * `nearest_neighbor` prunes by the smallest min-max distance, then visits
    the candidates by distance.
  * `nearest_neighbors` returns every object at the least distance.
  * `nearest_n_neighbors` keeps a bounded result sorted by distance.
* **Iteration.** The nested `RTreeIterator` and `RTreeNodeIterator`.
* **The `RTree` wrapper.** Options, root and size, with every public
  operation.

The geometry is fixed to two dimensions with integer coordinates (module
`Geometry`):

* A stored object is an axis-aligned rectangle, and a point is a degenerate
  rectangle.
* An object's box is the rectangle itself. Its `distance2` is `min_dist2`, and
  `contains(point)` is point containment.
* `min_dist2`, `min_max_dist2`, `add_rect`, `area`, `half_margin`,
  `intersect` and `center` are written out. The centre is doubled so that it
  stays integral.

The nodes (`RTreeNode`, `DirectoryNodeData`) are values. Each node is owned
by exactly one parent and is never shared, so a node-level operation that
changes a node in place is a method that takes the node and returns the new
one. `RTree` and `InsertionState` are classes whose methods update their
fields.

Two validity predicates are preserved by every operation and assumed by
every query:

* `Nodes.ValidDir`:
  * the depth is at least 1;
  * every child of a node at depth 1 is a leaf, and every child of a deeper
    node is a non-empty directory node one level down;
  * each cached box is the least rectangle around the objects below the node,
    and there is no box exactly when the node has no children.
* `Nodes.ValidRoot`: the root is valid and is empty only at depth 1.

The objects stored below a node are `FlattenAll(children)`, in depth-first
order, and their multiset is `Elements`. Each operation is proved against
these objects:

* an insertion adds exactly the new object;
* a removal takes out exactly one copy;
* a query returns exactly the wanted objects;
* a nearest-neighbour search returns a nearest object.

## Model

| member | source | states |
|---|---|---|
| Options.New | src/rtree.rs:28-42 | The default options (max 6, min 3, reinsertion count 2) satisfy the relations the algorithms need, with `min_size` half of `max_size`. |
| Options.SetMaxSizeAsWritten | src/rtree.rs:44-48 | As written, `set_max_size` succeeds exactly when the new maximum exceeds `min_size`, and it changes only `max_size`. It does not check `reinsertion_count`. |
| Options.SetMinSizeAsWritten | src/rtree.rs:50-54 | As written, `set_min_size` succeeds exactly when the new minimum is below `max_size`, and it changes only `min_size`. It accepts 0. |
| Options.SetMaxSize | src/rtree.rs:44-48 | The corrected setter changes only `max_size`. On valid options it succeeds exactly when the result is valid again. |
| Options.SetMinSize | src/rtree.rs:50-54 | The corrected setter changes only `min_size`. On valid options it succeeds exactly when the result is valid again, so 0 is refused. |
| Options.SetReinsertionCount | src/rtree.rs:56-60 | Changes only `reinsertion_count`. On valid options it succeeds exactly when the count stays in `1 .. max_size - 1`. |
| Options.MaxSizeSetterLosesReinsertionBound | src/rtree.rs:44-60 | A chain of accepted setter calls reaches `max 2, min 1, reinsertion 5`. These options are invalid: `reinsert` would split off more children than an overflowing node has. The corrected setter refuses the last call. |
| Options.MinSizeSetterAcceptsZero | src/rtree.rs:50-54 | `set_min_size(0)` is accepted as written, which gives invalid options. The corrected setter refuses it. |
| Geometry.AddRect | src/rtree.rs:206-212 | `add_rect` contains both rectangles, and each of its faces is a face of one of them. |
| Geometry.AddRectIsLeast | src/rtree.rs:193-203 | Every rectangle containing both operands contains their `add_rect`: the grown box is the least one. |
| Geometry.TightIsLeast | src/rtree.rs:916-918 | A tight box is contained in every rectangle that contains all the objects it is tight for. |
| Geometry.TightUnique | src/rtree.rs:193-203 | Two tight boxes over the same set of objects are equal, so the cached box does not depend on the order of the children. |
| Geometry.TightAddRect | src/rtree.rs:193-212 | The `add_rect` of the tight boxes of two collections is tight for their concatenation. |
| Geometry.IntersectsIffCommonPoint | src/rtree.rs:624-636 | Two rectangles intersect exactly when they share a point. |
| Geometry.AreaMonotone | src/rtree.rs:336-396 | A rectangle's area is non-negative and at most the area of any rectangle containing it. |
| Geometry.MinDist2IsClosest | src/rtree.rs:604-622 | `min_dist2` is at most the squared distance to any point of the rectangle. |
| Geometry.ClampIsClosest | src/rtree.rs:604-622 | The clamped point lies in the rectangle and attains `min_dist2`. |
| Geometry.MinDist2ZeroIffContains | src/rtree.rs:604-622 | `min_dist2` is non-negative, and it is zero exactly on the rectangle's points. |
| Geometry.MinDist2Monotone | src/rtree.rs:604-622 | A containing rectangle is never farther from a point than a rectangle it contains, which is why pruning by cached boxes is sound. |
| Geometry.WithinMinMax | src/rtree.rs:447-458 | Some object below a tight box lies within the box's `min_max_dist2` of the point. |
| Geometry.MinDist2AtMostMinMax | src/rtree.rs:459-465 | A box's `min_dist2` never exceeds its `min_max_dist2`. |
| Nodes.ChildrenBox | src/rtree.rs:193-203 | The box `update_mbr` computes is absent exactly when there are no children. |
| Nodes.ChildrenBoxIsExact | src/rtree.rs:193-203 | Over valid children, `update_mbr` gives the least rectangle around every object below them. |
| Nodes.CachedBoxIsChildrenBox | src/rtree.rs:193-203 | In a valid node, the cached box equals what `update_mbr` would compute. |
| Nodes.MbrIsTight | src/rtree.rs:767-772 | `RTreeNode::mbr` of a valid node is the least rectangle around the objects below it. |
| Nodes.ObjectInsideMbr | src/rtree.rs:767-772 | Every object below a valid node lies inside the node's `mbr`. |
| Nodes.DepthIsHeight | src/rtree.rs:760-765 | In a valid node, every stored object is exactly `depth` levels below it. |
| Nodes.FlattenAllPermutation | src/rtree.rs:263 | Reordering the children does not change the multiset of stored objects. |
| Nodes.FoldBoxesIsTight | src/rtree.rs:196-198 | Growing a tight box child by child, as the `update_mbr` loop does, gives a tight box for everything seen. |
| Sorting.SortBy | src/rtree.rs:263 | `sort_by` returns a permutation sorted by the key. |
| Sorting.SplitOffLargest | src/rtree.rs:297-303 | Sorting and then `split_off` keep `len - count` elements and return `count`. Together they form a permutation of the input, and no kept element has a larger key than a returned one. |
| Sorting.InsertionPoint | src/rtree.rs:536-540 | The `binary_search_by` position: every element before it has a key at most the given one, and every element from it on has a key at least the given one. |
| Sorting.InsertAtPointSorted | src/rtree.rs:541 | `insert` at that position keeps the sequence sorted. |
| Sorting.InsertAtPointMultiset | src/rtree.rs:541 | `insert` adds exactly the one element. |
| Insertion.InsertionState.constructor | src/rtree.rs:740-746 | `InsertionState::new(max_depth)` has `max_depth` flags, all clear. |
| Insertion.InsertionState.DidReinsert | src/rtree.rs:748-750 | `did_reinsert` reads the flag of the given level. It is set exactly when marking the level again would use up no further reinsertion. |
| Insertion.InsertionState.MarkReinsertion | src/rtree.rs:752-754 | `mark_reinsertion` sets the flag of the given level and nothing else. |
| Insertion.MarkingUsesUpOne | src/rtree.rs:748-754 | Setting a clear flag lowers the number of levels that may still reinsert by one. This bounds the insertion loop. |
| Insertion.ExtendBox | src/rtree.rs:398-414 | The box after `add_children` is absent only when there was no box and nothing was added. |
| Insertion.ExtendBoxByOne | src/rtree.rs:206-212 | Growing a tight box by a node's tight box gives a tight box for both sets of objects. |
| Insertion.GrowBox | src/rtree.rs:196-198 | The loop that grows a box over a range of children computes the fold `FoldBoxes`. |
| Insertion.UpdateMbr | src/rtree.rs:193-203 | `update_mbr` replaces only the cached box, with the box of the children. |
| Insertion.UpdateMbrWithElement | src/rtree.rs:206-212 | `update_mbr_with_element` replaces only the cached box, with the old box grown by the element's box (or that box alone when there was none). |
| Insertion.AddChildren | src/rtree.rs:398-414 | `add_children` appends the nodes and grows the box by theirs. |
| Insertion.GrownBoxIsTight | src/rtree.rs:214-216 | The box grown at the start of `insert` is tight for the old objects plus the new node's. |
| Insertion.ChooseSubtree | src/rtree.rs:336-396 | The chosen child is one of the children. When some child's box contains the new node's box, the choice is a containing child of least area. Otherwise no child has a lexicographically smaller (overlap increase, area increase, area) cost. |
| Insertion.LeastAreaContaining | src/rtree.rs:342-354 | The first loop counts zero containing children exactly when none contains the new box. Otherwise it picks a containing child of least area. |
| Insertion.LeastEnlargement | src/rtree.rs:355-390 | The second loop picks a child whose enlargement cost no other child beats. |
| Insertion.ScoreChild | src/rtree.rs:356-388 | One iteration of the second loop computes the child's cost triple. The overlap increase counts only when the children are leaves. |
| Insertion.SiblingOverlaps | src/rtree.rs:362-372 | The inner loop sums the child's overlap, before and after growth, with every sibling. |
| Insertion.FirstLeast | src/rtree.rs:264-285 | Keeping a candidate only when it is strictly smaller selects the first position of least score. |
| Insertion.GetSplitAxis | src/rtree.rs:308-334 | Only that the chosen axis is one of the axes (`axis < Dim`). The body scores every admissible cut on every axis by half margin, with the source's comparison. |
| Insertion.ChooseSplitIndex | src/rtree.rs:264-285 | The cut lies in `min_size .. len - min_size`: no admissible cut costs less (overlap, then area), and every earlier cut costs more. When that range is empty, the cut is `min_size`. |
| Insertion.Split | src/rtree.rs:259-291 | The two nodes partition the children (as a multiset) and keep the depth. Both are non-empty, and the kept one has at least `min_size` children. The split-off one has at least `min_size` children only when `2 * min_size <= len`: otherwise the cut is `min_size` and fewer are split off (with max 6 and min 5, a node of 7 children leaves 2). Both get the box `update_mbr` computes. Some axis separates the two groups by lower coordinate. |
| Insertion.Reinsert | src/rtree.rs:294-306 | Removes exactly `reinsertion_count` children, and together with the kept children they form a permutation of the old ones. Every kept child's centre is no farther from the node's centre than a removed one's. The box is recomputed. |
| Insertion.ResolveOverflow | src/rtree.rs:241-256 | Complete and unchanged when there is no overflow. On overflow it splits when the level already reinserted, and otherwise sets the level's flag and reinserts `reinsertion_count` children. Reading a flag past the state's levels is `Abort`. In every case the objects are conserved and the nodes stay valid. |
| Insertion.SplitResolved | src/rtree.rs:245-246 | A split of a valid node leaves two valid nodes at its depth whose objects add up to the node's. |
| Insertion.ReinsertResolved | src/rtree.rs:249-251 | A reinsertion leaves a valid node and valid child nodes whose objects add up to the node's. |
| Insertion.ResolvedInserted | src/rtree.rs:217-221 | Adding a node and then resolving the overflow keeps the promises of `insert`. |
| Insertion.Insert | src/rtree.rs:214-239 | `insert` keeps the node valid and non-empty at its depth, and conserves objects: the node, a split-off node and the nodes handed back hold exactly the old objects plus the new node's. A handed-back node is shallower than the node. Only a reinsertion changes the flags, and it uses up one level. `Abort` happens only when the node's depth has no flag. |
| Insertion.InsertHere | src/rtree.rs:217-221 | The same promises when the node goes straight into this node. |
| Insertion.InsertBelow | src/rtree.rs:222-238 | The same promises when the insertion descends into the chosen child. A split child is added here, and a reinsertion recomputes the box. |
| Insertion.AbsorbSplit | src/rtree.rs:227-231 | The same promises after a child split. |
| Insertion.AbsorbReinsert | src/rtree.rs:232-236 | After a child's reinsertion, the node is valid and its objects plus the handed-back ones are the old objects plus the new node's. |
| Insertion.AddedHere | src/rtree.rs:216-219 | Appending a node one level down keeps the node valid and adds exactly its objects. |
| Insertion.AddedSplitOff | src/rtree.rs:227-229 | Replacing the split child and appending the split-off node keeps the node valid and adds exactly the new objects. |
| Insertion.ReplacedChild | src/rtree.rs:222-225 | Replacing the chosen child by the child after insertion keeps the node valid and adds exactly the new objects. |
| Tree.GrowRoot | src/rtree.rs:1046-1054 | The new root has depth one higher and the old root and the split-off node as children. It is a valid root and holds the objects of both. |
| Tree.InsertAtRoot | src/rtree.rs:1044-1060 | One round of the insertion loop conserves the objects in the tree and on the stack, and keeps the root valid. Either it uses up one level's reinsertion, or it changes no flag and hands nothing back. A panic happens only when the root's depth has no flag. |
| Tree.InsertObject | src/rtree.rs:1040-1064 | Unless it panics, the insertion loop ends with a valid root holding the old objects plus the new one. A panic happens only after the root grew. |
| Tree.RemoveFromRoot | src/rtree.rs:1098-1110 | Over the corrected node-level `remove`, the root stays valid and loses exactly one copy of the object, which is removed exactly when one was stored. |
| Tree.LookupAndRemoveFromRoot | src/rtree.rs:1073-1086 | Over the corrected node-level `lookup_and_remove`, it finds nothing exactly when no stored object contains the point, and then the root is unchanged. Otherwise it removes exactly one stored object containing the point. |
| Tree.BoxIffStored | src/rtree.rs:916-918 | A valid node has a cached box exactly when it stores an object. |
| Tree.RTree.NewWithOptions | src/rtree.rs:911-927 | Given valid options (those the corrected setters produce), a new tree is valid and empty, with its root at depth 1 and the given options. |
| Tree.RTree.Size | src/rtree.rs:930-932 | `size` is the number of stored objects. |
| Tree.RTree.Insert | src/rtree.rs:1040-1066 | Unless it panics, the tree stays valid, stores one more copy of the object, and its size grows by one. |
| Tree.RTree.Remove | src/rtree.rs:1098-1110 | Over the corrected node-level `remove`, it reports whether a copy was stored, removes exactly one, and updates the size. An emptied root is back at depth 1. |
| Tree.RTree.LookupAndRemove | src/rtree.rs:1073-1086 | Over the corrected node-level `lookup_and_remove`, as the method's documentation promises, it returns none exactly when no stored object contains the point, and then leaves the tree unchanged. Otherwise it removes exactly the returned stored object containing the point, and the size drops by one. |
| Tree.RTree.Contains | src/rtree.rs:1113-1115 | True exactly when an equal object is stored. |
| Tree.RTree.Mbr | src/rtree.rs:916-918 | None exactly when the tree is empty. Otherwise it is a rectangle containing every stored object and contained in every rectangle that does. |
| Tree.RTree.Lookup | src/rtree.rs:1015-1021 | Returns a stored object containing the point, and none exactly when there is none. |
| Tree.RTree.LookupInRectangle | src/rtree.rs:987-993 | Every stored object meeting the rectangle appears as many times as it is stored, and nothing else appears. |
| Tree.RTree.LookupInCircle | src/rtree.rs:999-1006 | Every stored object strictly within the squared radius appears as many times as it is stored, and nothing else appears. |
| Tree.RTree.NearestNeighbor | src/rtree.rs:948-954 | Some exactly when the tree is non-empty. The result is a stored object at the least distance. |
| Tree.RTree.NearestNeighbors | src/rtree.rs:966-972 | Exactly the stored objects at the least distance, as many times as each is stored; empty for an empty tree. |
| Tree.RTree.NearestNNeighbors | src/rtree.rs:975-984 | Returns `min(n, size)` stored objects sorted by distance, and no stored object left out is nearer than the last one returned. `n = 0` gives an empty result. |
| Tree.RTree.Iter | src/rtree.rs:935-937 | The iterator over the root is well formed and yields exactly the stored objects. |
| Removal.RemoveFirstRemovesOne | src/rtree.rs:668-703 | Taking out the first occurrence removes exactly one copy, and nothing when the object is absent. |
| Removal.FirstContaining | src/rtree.rs:582-602 | The first object containing a point is a member that contains it, and there is none exactly when no member contains it. |
| Removal.LastContaining | src/rtree.rs:554-571 | The last object containing a point is a member that contains it, and there is none exactly when no member contains it. |
| Removal.Outside | src/rtree.rs:554-571 | The objects kept by the drain are exactly those not containing the point. |
| Removal.OutsideBoxNotStored | src/rtree.rs:669-671 | An object the cached box does not contain is not stored below the node. |
| Removal.OutsideBoxNoneContains | src/rtree.rs:549-550 | No object below a node whose box misses the point contains it. |
| Removal.DroppedHolder | src/rtree.rs:679-697 | Dropping the child that held the object alone leaves a valid node without that copy. |
| Removal.ReplacedHolder | src/rtree.rs:676-684 | A child that gave up the object leaves a valid node without that copy once the box is recomputed. |
| Removal.Remove | src/rtree.rs:668-703 | Corrected `remove`: reports whether the object was stored, removes exactly its first copy in depth-first order, and keeps the node valid at its depth, including the boxes of every ancestor. An absent object leaves the node unchanged. |
| Removal.RemoveAsWritten | src/rtree.rs:668-703 | `remove` as written: it removes the first copy, but the box is kept whenever no child was dropped. The box is recomputed only after a child that held the object alone is dropped. |
| Removal.StaleBoxAfterRemove | src/rtree.rs:668-703 | On a valid tree holding (0,0), (1,1) and (2,2), removing (0,0) as written leaves the root box from (0,0) to (2,2) around objects that span only (1,1) to (2,2). |
| Removal.LookupAndRemove | src/rtree.rs:548-580 | Corrected `lookup_and_remove`: returns the first stored object containing the point (none exactly when there is none) and removes that one copy. The node stays valid and is unchanged when nothing is found. |
| Removal.LookupAndRemoveAsWritten | src/rtree.rs:548-580 | `lookup_and_remove` as written: returns the last object containing the point but removes every object containing it. The node stays valid. |
| Removal.DrainChildren | src/rtree.rs:554-571 | The drain loop keeps exactly the objects not containing the point, keeps the children valid, and reports the last object that does. |
| Removal.DrainChild | src/rtree.rs:555-570 | Draining one child, whose directory node is dropped when it becomes empty, behaves the same way. |
| Removal.BothRemovedByLookup | src/rtree.rs:548-580 | On a valid leaf-level root holding the point (0,0) and the square from (0,0) to (1,1), `lookup_and_remove` at (0,0) returns the square and removes both objects, so the tree's size is off by one. |
| Queries.Select | src/rtree.rs:604-636 | The selected objects are exactly the members that are wanted. |
| Queries.SelectCount | src/rtree.rs:604-636 | Selection keeps every stored copy of a wanted object and no copy of any other. |
| Queries.MissedBox | src/rtree.rs:626 | A subtree whose box misses the query rectangle holds nothing meeting it. |
| Queries.DistantBox | src/rtree.rs:608-611 | A subtree whose box is beyond the radius holds nothing within it. |
| Queries.Contains | src/rtree.rs:705-725 | `contains` is true exactly when an equal object is stored below the node. |
| Queries.LookupInRectangle | src/rtree.rs:624-636 | The result is exactly the stored objects meeting the rectangle, in depth-first order. |
| Queries.LookupInCircle | src/rtree.rs:604-622 | The result is exactly the stored objects strictly within the squared radius, in depth-first order. |
| Queries.RangeQueriesExact | src/rtree.rs:604-636 | Both range queries report each wanted object as often as it is stored, and nothing else. |
| Queries.Scan | src/rtree.rs:587-598 | Scanning a popped node's children either finds a stored object containing the point, or queues its directory children. Queueing keeps "some queued node holds a match" and decreases the work left. |
| Queries.Lookup | src/rtree.rs:582-602 | Returns a stored object containing the point, and none exactly when no stored object contains it. |
| Neighbors.SmallestMinMax | src/rtree.rs:447-458 | The smallest `min_max_dist2` over the children's boxes is attained by one child and is at most every child's. |
| Neighbors.Candidates | src/rtree.rs:459-465 | Exactly the children whose box is within the smallest min-max distance. |
| Neighbors.MinMaxWitness | src/rtree.rs:447-465 | Some object below a valid child lies within the min-max distance of its box. |
| Neighbors.BoxIsNearer | src/rtree.rs:468-472 | No object below a valid child is nearer than the child's box. |
| Neighbors.NodeNearest | src/rtree.rs:774-787 | A leaf is returned when it is nearer than the bound, and a directory node is searched. The result is a nearest object below the node within the bound. |
| Neighbors.NearestNeighbor | src/rtree.rs:444-482 | Returns a stored object strictly nearer than the bound and no farther than any other stored object, or none when nothing is within the bound. |
| Neighbors.VisitByDistance | src/rtree.rs:468-480 | Visiting the candidates by distance and stopping at the first box beyond the best distance misses nothing nearer. |
| Neighbors.BeyondBest | src/rtree.rs:469-472 | Past the first box beyond the best distance, no sorted candidate holds anything nearer. |
| Neighbors.PrunedByMinMax | src/rtree.rs:459-465 | The children left out by the min-max filter hold nothing nearer than the best found. |
| Neighbors.NodeNearestAll | src/rtree.rs:789-817 | A leaf at the best distance joins the result, a nearer leaf replaces it, and a directory node is searched. Afterwards the result holds exactly the objects at the least distance. |
| Neighbors.NearestNeighbors | src/rtree.rs:484-516 | The result holds every object below the node at the least distance within the bound, as many times as each is stored, and the returned distance is that least distance. |
| Neighbors.GatherByDistance | src/rtree.rs:502-514 | The loop over the sorted children visits every child not beyond the min-max or best distance, and every object it skips is beyond one of them. |
| Neighbors.GatheredAll | src/rtree.rs:499-515 | After the loop, the outcome covers all objects below the node. |
| Neighbors.BestWithinMinMax | src/rtree.rs:487-498 | The best distance found never exceeds the smallest min-max distance, so children skipped for being beyond it hold nothing at the least distance. |
| Neighbors.NearestNCount | src/rtree.rs:518-546 | A result holding up to `n` nearest objects has `n` of them, or all when fewer are stored. |
| Neighbors.PruneAsWritten | src/rtree.rs:522 | As written, the pruning test fails (it reads the last result) exactly when the result is full and `n` is 0. |
| Neighbors.ZeroNeighborsFails | src/rtree.rs:518-525 | With `n = 0`, the first child of a non-empty node already reaches that failure. |
| Neighbors.OfferLeaf | src/rtree.rs:530-543 | Offering a leaf keeps the `n` nearest objects seen so far, sorted by distance. |
| Neighbors.InsertedWithRoom | src/rtree.rs:536-541 | Inserting at the binary-search position into a result with room keeps it the nearest objects seen. |
| Neighbors.ReplacedLast | src/rtree.rs:532-541 | Popping the last of a full result and inserting a nearer object keeps it the nearest objects seen. |
| Neighbors.PrunedChild | src/rtree.rs:522-525 | A child whose box is no nearer than the last of a full result holds nothing that would enter it. |
| Neighbors.NodeNearestN | src/rtree.rs:520-545 | One child of the loop keeps the `n` nearest objects seen so far, sorted by distance. |
| Neighbors.NearestNNeighbors | src/rtree.rs:518-546 | For `n > 0`, keeps the `n` nearest objects seen so far, sorted by distance, with no object left out nearer than the last. |
| Neighbors.NearestAtTop | src/rtree.rs:948-954 | Searching the root without a bound finds an object exactly when one is stored, and it is at the least distance. |
| Neighbors.TiesAtTop | src/rtree.rs:966-972 | Collecting from the root without a bound gathers every object at the least distance, once per stored copy. |
| Iteration.New | src/rtree.rs:85-92 | A new iterator is well formed and has exactly the node's objects to yield, in depth-first order. |
| Iteration.NodeNew | src/rtree.rs:131-138 | A new node iterator yields exactly the node's objects. |
| Iteration.NodeNext | src/rtree.rs:145-151 | A leaf iterator yields its object once. A directory iterator delegates. The item is the head of what was left. |
| Iteration.Next | src/rtree.rs:99-125 | Yields the head of the remaining objects and leaves the rest, or none exactly when nothing is left. The iterator stays well formed. |
| Iteration.MoveOn | src/rtree.rs:105-122 | Once the current child is exhausted, moving from child to child yields the head of the later children's objects, or none when they hold none. |
| Iteration.StartChild | src/rtree.rs:110-116 | Starting the next child's iterator and taking its first object splits that child's objects and the later ones into the item and what is left. |

## Left out

- Dimension: points have exactly two integer coordinates. The source is generic over the point type and its scalar; floating point and `partial_cmp` are not modelled, and every comparison is an integer comparison.
- Objects: the stored objects are rectangles. A general `SpatialObject` with its own `distance2` and `contains` is not modelled. `distance2` is `min_dist2`, and `contains` is point containment.
- `SpatialObject` and `BoundingRect` are not part of this model. Their operations (`min_dist2`, `min_max_dist2`, `add_rect`, `intersect`, `area`, `half_margin`, `center`) are written out in `Geometry` from their usual definitions. The centre is doubled so that it stays integral, which leaves the reinsertion order unchanged.
- Panics: the panics of the source are results. A flag read past the insertion state's levels is `Abort`, or `panicked` on `RTree.Insert`, whose contract then says only that the root grew. The `n = 0` failure of `nearest_n_neighbors` is `PruneAsWritten` returning none. The unwraps of a box in a valid tree cannot fail, and `NoBox` stands in for them.
- Insertion.GetSplitAxis: its contract says only that the axis is one of the axes. The margin comparison is written as in the source (every cut on axis 0 overwrites the best score), but no optimality of the axis is stated. It sorts copies of the children, while the source sorts `self.children` in place, so the source's `split` starts its own sort from the order of the last axis. With `sort_by` stability not modelled, this changes no contract.
- `min_size` is not an occupancy guarantee: the setters accept any `min_size < max_size`, and when `2 * min_size` exceeds `max_size + 1`, `split` leaves a node with fewer than `min_size` children. `Insertion.Split` states the bound only under `2 * min_size <= len`, and validity of a node does not include a minimum fill.
- Insertion.ChooseSubtree: it states which child wins by the source's own criteria (least area among containing children, least cost triple otherwise). It does not claim that the choice is good for the tree's shape.
- Tree.RemoveFromRoot and Tree.RTree.Remove compose the corrected node-level `remove` (`Removal.Remove`, the corrected half of the stale-box finding), so they promise a valid root with exact boxes. The code as written is `Removal.RemoveAsWritten`: it removes the same copy but can leave ancestors' boxes too large (`Removal.StaleBoxAfterRemove`).
- Tree.LookupAndRemoveFromRoot and Tree.RTree.LookupAndRemove compose the corrected node-level `lookup_and_remove` (`Removal.LookupAndRemove`), which removes the one object it returns, as `RTree::lookup_and_remove` documents. The code as written is `Removal.LookupAndRemoveAsWritten`: it removes every object containing the point while `size` drops by one (`Removal.BothRemovedByLookup`).
- Tree.RTree.NewWithOptions requires valid options: it takes only the options the corrected setters (`Options.SetMaxSize`, `Options.SetMinSize`, `Options.SetReinsertionCount`) produce. `new_with_options` itself demands nothing, and options reached through the setters as written are outside the model.
- Insertion.Split and Insertion.Reinsert do not state the order of the children they leave behind, because `sort_by` stability is not modelled.
- Tree.RTree.Insert: when the insertion panics, the contract states only that the root grew. The tree's state after a panic is not described, because a panic in the source unwinds and leaves the tree unusable.
- Neighbors.NearestNeighbors and Tree.RTree.NearestNeighbors state the multiset of the result, not its order.
- `RTree::new`, `Default`, `RTreeOptions::build` and `DirectoryNodeData::new`/`new_parent` are not separate members. They are `NewWithOptions(Options.New())`, the `DirNode` constructor with no box, and `Split`'s construction of the split-off node.
- `close_neighbor` (a greedy descent with no guarantee), `lookup_mut` (a mutable twin of `lookup`), `root()` and the `children()`/`depth()` accessors are left out, because mutable references into the tree have no counterpart in a value model.
- `Arc` sharing of the options, `SmallVec`, `Vec::with_capacity` and other memory-layout concerns are left out; they have no observable effect.
- Iterators are values, and `next` returns the advanced iterator. The borrow of the tree for the iterator's lifetime is not modelled, and neither is a loop consuming the iterator; `Iteration.Next` is proved for one step.
- `usize` overflow of the size counter and of `depth` is not modelled, because integers are unbounded.
- `DirectoryNodeData::remove` is specified on the sequence of stored objects in depth-first order. The source's `break` after the first success matches the removal of the first copy.

## Findings

| source | as written | input that shows it | evidently intended | confidence | as-written member | corrected member |
|---|---|---|---|---|---|---|
| src/rtree.rs:548-580 | `lookup_and_remove` drains every child, removes every object containing the point and returns the last one, while `RTree::lookup_and_remove` lowers `size` by one | a leaf-level root holding the point (0,0) and the square (0,0)-(1,1); look up and remove at (0,0) | remove and return one object containing the point | not executed | Removal.BothRemovedByLookup | Removal.LookupAndRemove |
| src/rtree.rs:44-48 | `set_max_size` checks only `max_size > min_size`, not `reinsertion_count < max_size` | `new().set_reinsertion_count(5).set_min_size(1).set_max_size(2)`; the first node to overflow has 3 children, and `reinsert` computes `3 - 5` in `usize` | refuse a maximum that breaks the reinsertion bound | not executed | Options.MaxSizeSetterLosesReinsertionBound | Options.SetMaxSize |
| src/rtree.rs:50-54 | `set_min_size` accepts 0, after which `split` and `get_split_axis` read `children[k - 1]` with `k = 0` | `new().set_min_size(0)`, then enough insertions to split a node | require `min_size >= 1` | not executed | Options.MinSizeSetterAcceptsZero | Options.SetMinSize |
| src/rtree.rs:518-546 | `nearest_n_neighbors(p, 0)` on a non-empty tree evaluates `result.last().unwrap()` on an empty result | any non-empty tree, `n = 0` | return an empty result | not executed | Neighbors.ZeroNeighborsFails | Tree.RTree.NearestNNeighbors |
| src/rtree.rs:668-703 | `remove` recomputes a node's box only when it drops a child, so ancestors of a node that lost an object keep a box that is too large | a height-2 tree over leaf-level nodes {(0,0), (1,1)} and {(2,2)}; remove (0,0) | recompute the box of every node an object was removed from | not executed | Removal.StaleBoxAfterRemove | Removal.Remove |
