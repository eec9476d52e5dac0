# NativeOctree range query, modelled in Dafny

NativeOctree stores points in a flat, implicit octree. The tree does not keep
child pointers. Its nodes are slots of a count table (`lookup`) addressed by
flat offsets. The children of the node whose children start at `prevOffset`
sit at `prevOffset + l * depthSize` for octant codes `l = 0..7`. Here
`depthSize` is the size of a subtree one level further down. A slot whose
count exceeds `maxLeafElements` (below the maximum depth) is split. Any other
non-empty slot is a leaf: a descriptor in `nodes` gives the leaf's span in
the reordered element store.

A range query (`OctreeRangeQuery` in `Assets/NativeOctreeRangeQuery.cs`) works
like this:
- It resets a write cursor and descends from the root box at offset 1, depth 1.
- In each step it makes sure the caller's result list has room for
  `8 * maxLeafElements` more entries, then visits the eight octant boxes in
  order.
- An octant the query box neither contains nor intersects is skipped.
- An octant the query box contains is marked contained. Below a contained
  octant no box is tested again.
- A split octant is descended into. For a leaf, the span is copied whole when
  the octant is contained, and otherwise copied element by element, keeping
  the points inside the query box.
- At the end, the list's length is set to the number of entries written.

The project has five modules:

- `Geometry` (geometry.dfy) holds points and boxes with exact real
  coordinates, plus three tests:
  - closed containment of a point or a box;
  - the strict overlap test `Intersects`;
  - the octant split `GetChildBounds`.
- `Octree` (octree.dfy) holds the tree as the query sees it: a read-only
  value with its tables and the subtree-size table. `ValidTree` and `Frame`
  state what the query relies on about those tables. Every slot a descent
  reads is in range, and every leaf span lies inside the store. The subtree
  sizes follow `s(k) = 1 + 8 * s(k - 1)`.
- `QuerySpec` (query_spec.dfy) gives, as functions, what a descent step
  appends (`Children`, `ChildOut`, `Visit`) and what a query returns
  (`QueryResult`). It adds two reference traversals:
  - `AllChildren` makes no box test at all;
  - `FilterChildren` never takes the containment shortcut.

  Its lemmas relate the query to these traversals.
- `RangeQuery` (range_query.dfy) is the query itself, imperative like the
  source:
  - A class `ResultList` models the caller's growable list: an array whose
    length is the capacity, and a length.
  - A class `OctreeRangeQuery` has the source's fields `tree`, `fastResults`,
    `count` and `bounds`.
  - Each method is proved against the `QuerySpec` functions. The slots
    `0 .. count` of the buffer always hold exactly what the descent has
    appended so far.
- `Reservation` (reservation.dfy) follows the cursor and the capacity through
  a query. It has one trace for the reservation exactly as written and one
  for the corrected reservation. See Findings.
- `Completeness` (completeness.dfy) says which stored points a query returns.
  Every point strictly inside the region is returned. A point on the region's
  face can be lost, because octants are pruned by the strict overlap test.
  The module also defines a corrected traversal (`ClosedQuery`) that prunes
  with the closed overlap test `Touches`. It returns exactly the stored points
  inside the region. See Findings.

`Query` resets the cursor to 0 and sets the list's length to the number
written. `Query` therefore overwrites the list from index 0; it does not
append to it.

## Model

| member | source | states |
|---|---|---|
| Geometry.GetChildBounds | Assets/NativeOctreeRangeQuery.cs:101-116 | Exactly the codes 0..7 give a box; every other code is the error outcome. The three extents are half the parent's x extent. The center moves by that half: +x exactly when bit 0 is set, -y exactly when bit 1 is set, +z exactly when bit 2 is set. |
| Geometry.Child | Assets/NativeOctreeRangeQuery.cs:44 | A valid octant code gives a cubic box whose extent is half the parent's x extent. It is the box `GetChildBounds` returns. |
| Geometry.Abs | Assets/NativeOctreeRangeQuery.cs:96-98 | The absolute value is non-negative and equals `v` or `-v`. |
| Geometry.ContainsPoint | Assets/NativeOctreeRangeQuery.cs:84 | The point test `bounds.Contains(element.pos)`: on every axis the point lies in the closed interval `center - extents .. center + extents`. |
| Geometry.ContainsPointByDistance | Assets/NativeOctreeRangeQuery.cs:84 | The point test holds exactly when, on every axis, the point is at most the extent away from the center. |
| Geometry.ContainsBox | Assets/NativeOctreeRangeQuery.cs:49 | The box test `bounds.Contains(childBounds)`: on every axis the inner interval lies within the outer one, and faces may coincide. |
| Geometry.ContainsBoxByCorners | Assets/NativeOctreeRangeQuery.cs:49 | A box of non-negative size is contained exactly when its lowest and highest corners are. |
| Geometry.Intersects | Assets/NativeOctreeRangeQuery.cs:94-99 | The strict overlap test: on every axis the centers are closer than the sum of the extents. |
| Geometry.IntersectsByIntervals | Assets/NativeOctreeRangeQuery.cs:94-99 | The overlap test holds exactly when the two boxes' intervals overlap strictly on every axis. |
| Geometry.Touches | Assets/NativeOctreeRangeQuery.cs:94-99 | The corrected overlap test: the test of lines 96-98 with `<=` in place of `<`. |
| Geometry.TouchesByIntervals | Assets/NativeOctreeRangeQuery.cs:94-99 | The closed overlap test holds exactly when the two boxes' closed intervals overlap on every axis. |
| Geometry.IntersectsTouches | Assets/NativeOctreeRangeQuery.cs:94-99 | Every pair of boxes that passes the strict test also passes the closed one, so the corrected test prunes no octant that the strict test keeps. |
| Geometry.SharedPointTouches | Assets/NativeOctreeRangeQuery.cs:53-84 | A box holding a point that passes the region's closed point test at line 84 passes the closed overlap test. |
| Geometry.InInterior | Assets/NativeOctreeRangeQuery.cs:84 | The point lies strictly inside the box on every axis, off its faces: the part of the closed test at line 84 that excludes the boundary. |
| Geometry.InteriorPointIntersects | Assets/NativeOctreeRangeQuery.cs:53-84 | A box holding a point that lies strictly inside the region passes the overlap test at line 53, and the point passes the test at line 84. |
| Geometry.IntersectsSymmetric | Assets/NativeOctreeRangeQuery.cs:94-99 | The overlap test gives the same answer with its arguments swapped. |
| Geometry.TouchingBoxesDoNotIntersect | Assets/NativeOctreeRangeQuery.cs:94-99 | Boxes that meet exactly at a face on some axis do not intersect, in either order. |
| Geometry.SiblingsDoNotIntersect | Assets/NativeOctreeRangeQuery.cs:94-116 | Two different octants of one box never intersect. |
| Geometry.ChildInsideParent | Assets/NativeOctreeRangeQuery.cs:101-116 | Every octant of a cubic box of non-negative size lies inside it. |
| Geometry.ContainsBoxTransitive | Assets/NativeOctreeRangeQuery.cs:49-51 | Box containment is transitive: a box inside a contained box is contained. |
| Geometry.ContainsPointTransitive | Assets/NativeOctreeRangeQuery.cs:84 | A point inside a box that the region contains lies in the region. |
| Geometry.ContainedIntersects | Assets/NativeOctreeRangeQuery.cs:49-56 | A box of positive size that the region contains also intersects it. |
| Geometry.DisjointFromInner | Assets/NativeOctreeRangeQuery.cs:53-56 | A region that does not intersect a box does not intersect any box inside it. |
| Octree.DepthSizesPositive | Assets/NativeOctreeRangeQuery.cs:41 | Every subtree size is non-negative, and at least 1 past the first entry. |
| Octree.DepthSize | Assets/NativeOctreeRangeQuery.cs:41 | The subtree size read for a depth is non-negative. |
| Octree.ChildOffset | Assets/NativeOctreeRangeQuery.cs:59-61 | The offset of child `l` is at or after the parent's first-child offset and inside the count table. |
| Octree.DescentStaysInTables | Assets/NativeOctreeRangeQuery.cs:63-65 | A descent into child `l` with offset `at + 1` and depth `depth + 1` is again a well-formed step. Its depth is at most the maximum depth, and every slot it reads is inside the tables. |
| QuerySpec.Filter | Assets/NativeOctreeRangeQuery.cs:79-88 | The filter path's output: the span's elements inside the query box, in span order. It is never longer than the span. |
| QuerySpec.FilterMembers | Assets/NativeOctreeRangeQuery.cs:79-88 | An element is written by the filter path exactly when it belongs to the span and lies in the query box. The filter writes no more elements than the span has. |
| QuerySpec.FilterSound | Assets/NativeOctreeRangeQuery.cs:81-87 | Every element the filter path writes lies in the query box. |
| QuerySpec.FilterKeepsAll | Assets/NativeOctreeRangeQuery.cs:79-88 | A span whose points all lie in the query box is written whole, in order. |
| QuerySpec.Grown | Assets/NativeOctreeRangeQuery.cs:36-39 | After the reservation check, the capacity is at least `count + needed` and never below the old capacity. It is unchanged when there was room; otherwise it becomes the larger of twice the old capacity and `count + needed`. |
| QuerySpec.Span | Assets/NativeOctreeRangeQuery.cs:69-83 | The leaf span at offset `at`: the descriptor read at line 69, then the elements from `firstChildIndex`, `count` of them, which lines 73-76 copy and line 83 reads. |
| QuerySpec.LeafOut | Assets/NativeOctreeRangeQuery.cs:71-89 | What a leaf appends: its whole span when the octant is contained, and otherwise the span's elements inside the query box. |
| QuerySpec.Children | Assets/NativeOctreeRangeQuery.cs:42-91 | What the loop over the first `l` octants of a step appends: the outputs of children `0 .. l - 1`, in octant order. |
| QuerySpec.ChildOut | Assets/NativeOctreeRangeQuery.cs:44 | What child `l` appends: the output of its octant box `Child(parentBounds, l)`. |
| QuerySpec.Visit | Assets/NativeOctreeRangeQuery.cs:46-90 | What one octant appends. A pruned octant appends nothing. A split octant below the maximum depth appends the next step from `at + 1` at `depth + 1`. A non-empty leaf appends its span, whole when contained and filtered otherwise. An empty slot appends nothing. |
| QuerySpec.QueryResult | Assets/NativeOctreeRangeQuery.cs:20-32 | What a query returns: the root step over the tree's bounds, not contained, from offset 1 at depth 1. |
| QuerySpec.PrunedChild | Assets/NativeOctreeRangeQuery.cs:46-57 | A child that is neither contained nor intersecting appends nothing, whatever the tables hold at its offset. |
| QuerySpec.ContainedChildren | Assets/NativeOctreeRangeQuery.cs:46-65 | Once a step is contained, it appends every leaf span below it: exactly the reference traversal without box tests. |
| QuerySpec.ContainedChild | Assets/NativeOctreeRangeQuery.cs:46-78 | A child of a contained step appends what the reference traversal without box tests appends for it. |
| QuerySpec.FilterChildrenSound | Assets/NativeOctreeRangeQuery.cs:42-91 | Without the containment shortcut, every element a descent step appends lies in the query box. |
| QuerySpec.FilterChildSound | Assets/NativeOctreeRangeQuery.cs:44-90 | Without the containment shortcut, every element one child appends lies in the query box. |
| QuerySpec.FilterStored | Assets/NativeOctreeRangeQuery.cs:79-88 | As a multiset, the filter path's output is contained in the span. |
| QuerySpec.FilterChildrenStored | Assets/NativeOctreeRangeQuery.cs:42-91 | Without the shortcut, what a step appends is, as a multiset, contained in the stored elements below it. |
| QuerySpec.FilterChildStored | Assets/NativeOctreeRangeQuery.cs:44-90 | The same for one child. |
| QuerySpec.WithinChildren | Assets/NativeOctreeRangeQuery.cs:79-88 | Inside a box the region contains, filtering every leaf keeps every span whole. This needs the build's invariant that each leaf's points lie in the leaf's box. |
| QuerySpec.WithinChild | Assets/NativeOctreeRangeQuery.cs:79-88 | The same for one child. |
| QuerySpec.SpanInRegion | Assets/NativeOctreeRangeQuery.cs:79-88 | A span inside a box that the region contains is written whole by the filter path. |
| QuerySpec.ShortcutMatchesFilter | Assets/NativeOctreeRangeQuery.cs:46-88 | The containment shortcut never changes the answer. The whole-span copy under containment appends exactly what filtering every leaf appends, in the same order, provided each leaf's points lie in its box. |
| QuerySpec.ShortcutMatchesFilterChild | Assets/NativeOctreeRangeQuery.cs:46-88 | The same for one child. |
| QuerySpec.QuerySound | Assets/NativeOctreeRangeQuery.cs:20-92 | For a root box of positive size whose leaves hold only points inside their own boxes, a query returns exactly what a query without the shortcut returns. Every element it returns lies in the query box and is a stored element of the tree. As a multiset, the result is contained in the stored elements, so no element is returned more often than it is stored. |
| QuerySpec.DisjointChildren | Assets/NativeOctreeRangeQuery.cs:53-56 | For a cubic root box of positive size that the region does not intersect, every child of the root step is pruned and nothing is appended. For a root box that is not cubic this can fail: the octants reach outside it. |
| QuerySpec.QueryDisjoint | Assets/NativeOctreeRangeQuery.cs:20-32 | For cubic tree bounds of positive size, a query whose box does not intersect the bounds returns nothing. |
| QuerySpec.EnclosingChildren | Assets/NativeOctreeRangeQuery.cs:46-52 | For a cubic root box of non-negative size that the region contains, every root child is contained and the step appends every leaf span of the tree. |
| QuerySpec.QueryEnclosing | Assets/NativeOctreeRangeQuery.cs:20-32 | For cubic tree bounds of non-negative size, a query whose box contains the bounds returns every leaf span, in traversal order. |
| RangeQuery.ResultList.Resize | Assets/NativeOctreeRangeQuery.cs:38 | Resizing sets the length. It grows the buffer to the requested size when that is larger, keeps every old slot, and otherwise keeps the buffer. |
| RangeQuery.OctreeRangeQuery.constructor | Assets/NativeOctreeRangeQuery.cs:11-18 | A query object over a valid tree, with the fields of lines 13-18, whose cursor is 0 and which has written nothing. |
| RangeQuery.OctreeRangeQuery.Query | Assets/NativeOctreeRangeQuery.cs:20-32 | The query fields are set. The list's length equals the cursor, which equals the number of elements `QueryResult` returns. The first `length` slots hold exactly `QueryResult`, whatever the list held before. The capacity never shrinks. |
| RangeQuery.OctreeRangeQuery.Reserve | Assets/NativeOctreeRangeQuery.cs:36-39 | After reserving `needed` slots, the capacity is `Grown(count, capacity, needed)`, so at least `count + needed`. The written slots are unchanged. |
| RangeQuery.OctreeRangeQuery.RecursiveRangeQuery | Assets/NativeOctreeRangeQuery.cs:34-92 | A descent step appends exactly `Children(..., 8)` at the cursor and leaves the earlier results unchanged. The capacity never shrinks. |
| RangeQuery.OctreeRangeQuery.QueryChildren | Assets/NativeOctreeRangeQuery.cs:42-91 | The loop over the eight octants appends the children's outputs in octant order. |
| RangeQuery.OctreeRangeQuery.QueryChild | Assets/NativeOctreeRangeQuery.cs:44-90 | One octant appends exactly `ChildOut`, as follows. A pruned octant returns before its count is read. A split octant descends with offset `at + 1` and depth `depth + 1`. A leaf writes its span. A zero count writes nothing. |
| RangeQuery.OctreeRangeQuery.QueryLeaf | Assets/NativeOctreeRangeQuery.cs:67-90 | A leaf appends its span whole when contained and its filtered span otherwise. It first reserves room for its span, which is the correction in Findings. |
| RangeQuery.OctreeRangeQuery.CopySpan | Assets/NativeOctreeRangeQuery.cs:71-78 | The contained path copies exactly `node.count` elements from the span's start to the slots from `count` on, and `count` grows by `node.count`. No slot at or past the new cursor changes. |
| RangeQuery.OctreeRangeQuery.FilterSpan | Assets/NativeOctreeRangeQuery.cs:79-88 | The filter path writes, in span order and at consecutive slots from `count`, exactly the span's elements that lie in the query box. No slot at or past the new cursor changes. |
| Reservation.StepAsWritten | Assets/NativeOctreeRangeQuery.cs:34-92 | The cursor and capacity through one step as written: the reservation check of lines 36-39, then the eight children. The capacity never shrinks, and the cursor never moves back. |
| Reservation.ChildrenAsWritten | Assets/NativeOctreeRangeQuery.cs:42-91 | The same for the children from `l` on. An overflow already reached is kept. |
| Reservation.ChildAsWritten | Assets/NativeOctreeRangeQuery.cs:44-90 | One child as written. A split octant runs the next step with no further check. A leaf writes at the cursor with no reservation and overflows when its output passes the capacity. |
| Reservation.DeepLeafOverflows | Assets/NativeOctreeRangeQuery.cs:36-39 | As written, the root step of a query started at cursor 0 overflows when its octant 0 is a leaf at the maximum depth inside the region that holds more elements than the step's reservation. The lemma covers only this case, octant 0 of the root step. |
| Reservation.DeepLeafTreeOverflows | Assets/NativeOctreeRangeQuery.cs:63-78 | A concrete tree with maximum depth 1, at most 1 element per leaf, and 9 points at the center of one octant meets the conditions of `DeepLeafOverflows`. Its root step, queried with its own bounds into an empty list, overflows. |
| Reservation.SiblingOverflows | Assets/NativeOctreeRangeQuery.cs:36-39 | As written, after a split octant fills the step's reservation, the next octant's leaf is written at its first index, which equals the capacity. This happens although no leaf exceeds `maxLeafElements`. |
| Reservation.SiblingTreeOverflows | Assets/NativeOctreeRangeQuery.cs:63-78 | A concrete tree of maximum depth 2 meets the conditions of `SiblingOverflows`: one split octant of eight one-point leaves, then a one-point leaf, each point at its leaf's center. Queried with its own bounds into an empty list, it overflows at index 8 with capacity 8. |
| Reservation.StepCorrected | Assets/NativeOctreeRangeQuery.cs:34-92 | The cursor and capacity through one step with the corrected bookkeeping. The capacity never shrinks, and the cursor never moves back. |
| Reservation.ChildrenCorrected | Assets/NativeOctreeRangeQuery.cs:42-91 | The same for the first `l` children. |
| Reservation.ChildCorrected | Assets/NativeOctreeRangeQuery.cs:44-90 | One child with the corrected bookkeeping: a leaf first grows the capacity by the rule of lines 36-39 for its own `node.count`, then writes. |
| Reservation.StepCorrectedWithin | Assets/NativeOctreeRangeQuery.cs:34-92 | With a reservation before each leaf's write, no write reaches the capacity. The cursor ends advanced by exactly what the step appends. |
| Reservation.ChildrenCorrectedWithin | Assets/NativeOctreeRangeQuery.cs:42-91 | The same for the first `l` children of a step. |
| Reservation.ChildCorrectedWithin | Assets/NativeOctreeRangeQuery.cs:44-90 | The same for one child. |
| Completeness.FilterChildrenComplete | Assets/NativeOctreeRangeQuery.cs:42-91 | Without the shortcut, a step appends every stored point below it that lies strictly inside the region, given that each leaf's points lie in its box. Every such point also lies in the step's box. |
| Completeness.FilterChildComplete | Assets/NativeOctreeRangeQuery.cs:44-90 | The same for one child. The point lies in the child's box, so that box passes the overlap test at line 53. |
| Completeness.QueryCompleteInterior | Assets/NativeOctreeRangeQuery.cs:20-92 | For a cubic root box of positive size whose leaves hold only points of their own boxes, every stored point strictly inside the region is returned. |
| Completeness.ClosedChildren | Assets/NativeOctreeRangeQuery.cs:42-91 | The corrected traversal of a step: the outputs of children `0 .. l - 1` in octant order, with no containment shortcut. |
| Completeness.ClosedChildOut | Assets/NativeOctreeRangeQuery.cs:44-90 | One child of the corrected traversal: pruned when its box does not pass `Touches`, otherwise the next step for a split octant, the filtered span for a leaf, and nothing for an empty slot. |
| Completeness.ClosedQuery | Assets/NativeOctreeRangeQuery.cs:20-32 | The corrected query: the corrected traversal from the root box at offset 1, depth 1. |
| Completeness.ClosedChildrenSound | Assets/NativeOctreeRangeQuery.cs:42-91 | Every element the corrected traversal appends for a step is stored below it and lies in the region. |
| Completeness.ClosedChildSound | Assets/NativeOctreeRangeQuery.cs:44-90 | The same for one child. |
| Completeness.ClosedChildrenComplete | Assets/NativeOctreeRangeQuery.cs:42-91 | The corrected traversal appends every stored point below a step that lies in the region, given that each leaf's points lie in its box. |
| Completeness.ClosedChildComplete | Assets/NativeOctreeRangeQuery.cs:44-90 | The same for one child. The point lies in the child's box, so that box passes `Touches`. |
| Completeness.ClosedQueryExact | Assets/NativeOctreeRangeQuery.cs:20-92 | For a cubic root box of non-negative size whose leaves hold only points of their own boxes, an element is returned by the corrected query exactly when it is stored and passes the closed point test of line 84. |
| Completeness.ClosedFindsFacePoint | Assets/NativeOctreeRangeQuery.cs:53-84 | On the tree of `FacePointMissed`, the corrected query returns the face point that the query as written misses. |
| Completeness.FacePointMissed | Assets/NativeOctreeRangeQuery.cs:53-84 | As written, a tree whose one point lies on the region's face, in octant 0, which only touches the region, meets every other condition of `QueryCompleteInterior`. The point passes the closed test, yet the query returns nothing. |

## Left out

- The tree build (`ClearAndBulkInsert`), the `LookupTables` class and the `AABB` type are not part of this model. Their code is not modelled. `ValidTree` and `LeavesInBoxes` state, as preconditions, what the query needs of them.
- The subtree-size table is assumed to satisfy `s(k) = 1 + 8 * s(k - 1)` from a non-negative start; its values are not modelled.
- `AABB.Contains` is modelled as closed per-axis interval tests: for a point, `center - extents <= p <= center + extents`; for a box, the inner face bounds lie within the outer ones.
- Coordinates are exact reals. 32-bit float rounding, including the halving in `GetChildBounds`, is not modelled.
- Integer offsets, counts and capacities are unbounded. 32-bit overflow of `int` is not modelled.
- The unsafe memory operations are array writes in the model: pointer casts, `MemCpy`, `ReadArrayElement`/`WriteArrayElement`, and `GetInternalListDataPtrUnchecked`. The caller's list is a class with an array and a length.
- RangeQuery.ResultList.Resize: grows the capacity to exactly the requested length. Any rounding up that the list type performs is not modelled, so the capacities in the model are the smallest the code allows.
- RangeQuery.OctreeRangeQuery.QueryLeaf: reserves room for a leaf's span before writing it, which the code as written does not do. The model writes the corrected reservation; the as-written bookkeeping is kept in `Reservation`.
- Concurrency (queries run from jobs), allocator lifetime and `Dispose` are not modelled.
- Drawing, the editor window, the job wrappers and the timing tests are not modelled; they hold no query logic.
- Completeness.ClosedQuery: the corrected traversal has no containment shortcut; every leaf is filtered. That the shortcut gives the same answer with the closed test is not proved.
- Completeness is proved for two cases: every stored point strictly inside the region (`Completeness.QueryCompleteInterior`), and every leaf span for a region that contains the tree's bounds (`QuerySpec.QueryEnclosing`). Points on the region's boundary can be missed by the query as written; the corrected `Completeness.ClosedQuery` returns them. See Findings.

## Findings

| source | as written | input that shows it | evidently intended | confidence | as-written member | corrected member |
|---|---|---|---|---|---|---|
| Assets/NativeOctreeRangeQuery.cs:36-78 | The only reservation is `8 * maxLeafElements` slots on entry to a step. A leaf at the maximum depth is never split, so it can hold more elements than that, and its copy runs past the capacity. | `DeepLeafTree`: maximum depth 1, one element per leaf, 9 points in octant 0, queried with its own bounds into an empty list. The step reserves 8 slots and the leaf writes 9. | Room for every element written. For example, reserve `node.count` slots before writing a leaf. | not executed; assumes the list grows to exactly the requested capacity | Reservation.DeepLeafOverflows | Reservation.StepCorrectedWithin |
| Assets/NativeOctreeRangeQuery.cs:36-88 | A recursive child's writes use up the parent step's reservation, which is not renewed for the remaining siblings. | `SiblingTree`: maximum depth 2, one element per leaf, octant 0 split into eight one-point leaves and octant 1 a one-point leaf, queried with its own bounds into an empty list. The root step and the inner step both settle for 8 slots, the inner step fills them, and the sibling leaf writes at index 8. | Room for every element written. For example, reserve `node.count` slots before writing a leaf. | not executed; assumes the list grows to exactly the requested capacity | Reservation.SiblingOverflows | Reservation.StepCorrectedWithin |
| Assets/NativeOctreeRangeQuery.cs:53-84 | Octants are pruned by the strict overlap test of line 53, but points are kept by the closed test of line 84. A point on the region's face, stored in an octant that only touches the region, is never returned. | `FaceTree`: maximum depth 1, one point (0, 1, -1) in the leaf of octant 0, whose box spans x from -4 to 0. The region `FaceRegion` spans x from 0 to 2 and contains the point. Octant 0 only touches it and is pruned, so the query returns nothing. | Every stored point that passes the closed point test is returned: prune with the closed test `Touches`, `<=` in place of `<` at lines 96-98. | not executed; the build's tie-breaking for points on a split plane is not part of this model, but whichever octant holds such a point, a region on the other side of the plane whose face holds the point misses it | Completeness.FacePointMissed | Completeness.ClosedQueryExact |

The imperative model (`RangeQuery.OctreeRangeQuery.QueryLeaf`) uses the corrected reservation. There, every write to the buffer is proved to be inside it. The boundary behaviour of the imperative model is left as written: it keeps the strict overlap test, and `QueryCompleteInterior` states how far completeness holds with it. The corrected traversal `ClosedQuery` prunes with `Touches`. `ClosedQueryExact` proves that it returns exactly the stored points inside the region, and `ClosedFindsFacePoint` shows that it finds the point of the as-written counterexample.
