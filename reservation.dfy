/** The output-capacity bookkeeping of RecursiveRangeQuery. As written, there is
    one reservation of 8 * maxLeafElements slots on entry to each descent step
    and none before a leaf's elements are written; the corrected bookkeeping
    also reserves a leaf's span before writing it. Both traces thread the write
    cursor and the capacity through the same traversal as `Children` and report
    the first write index that would reach the capacity. */
module Reservation {
  import opened Geometry
  import opened Octree
  import opened QuerySpec

  /** The output buffer during a query: its write cursor and capacity, or the
      first write index that lies at or beyond the capacity. */
  datatype Buffer = Within(count: int, capacity: int) | Overflow(index: int, capacity: int)

  /** One descent step as written: reserve, then the eight children in order. */
  function StepAsWritten<T>(t: NativeOctree<T>, region: AABB, pb: AABB, pc: bool,
                            p: int, d: int, count: int, capacity: int): (r: Buffer)
    requires Frame(t, p, d)
    ensures r.capacity >= capacity && (r.Within? ==> r.count >= count)
    decreases t.maxDepth + 1 - d, 9, 0
  {
    var cap := Grown(count, capacity, 8 * t.maxLeafElements);
    ChildrenAsWritten(t, region, pb, pc, p, d, 0, Within(count, cap))
  }

  /** The buffer after children `l .. 7`, starting from `b`; an overflow is
      kept as it is. */
  function ChildrenAsWritten<T>(t: NativeOctree<T>, region: AABB, pb: AABB, pc: bool,
                                p: int, d: int, l: int, b: Buffer): (r: Buffer)
    requires Frame(t, p, d) && 0 <= l <= 8
    ensures r.capacity >= b.capacity && (r.Within? ==> b.Within? && r.count >= b.count)
    decreases t.maxDepth + 1 - d, 8 - l, 1
  {
    if l == 8 || b.Overflow? then b
    else ChildrenAsWritten(t, region, pb, pc, p, d, l + 1,
                           ChildAsWritten(t, region, pb, pc, p, d, l, b.count, b.capacity))
  }

  /** Child `l` as written: a leaf's writes go to count, count + 1, ... with
      no further reservation. */
  function ChildAsWritten<T>(t: NativeOctree<T>, region: AABB, pb: AABB, pc: bool,
                             p: int, d: int, l: int, count: int, capacity: int): (r: Buffer)
    requires Frame(t, p, d) && 0 <= l < 8
    ensures r.capacity >= capacity && (r.Within? ==> r.count >= count)
    decreases t.maxDepth + 1 - d, 8 - l, 0
  {
    var cb := Child(pb, l);
    var contained := pc || ContainsBox(region, cb);
    if !contained && !Intersects(region, cb) then Within(count, capacity)
    else
      var at := ChildOffset(t, p, d, l);
      var elementCount := t.lookup[at];
      if elementCount > t.maxLeafElements && d < t.maxDepth then
        DescentStaysInTables(t, p, d, l);
        StepAsWritten(t, region, cb, contained, at + 1, d + 1, count, capacity)
      else if elementCount != 0 then
        var n := |LeafOut(t, region, contained, at)|;
        if count + n > capacity then Overflow(if count > capacity then count else capacity, capacity)
        else Within(count + n, capacity)
      else Within(count, capacity)
  }

  /** A leaf at the maximum depth is never split, so it may hold more than
      maxLeafElements elements; when the first octant is such a leaf, inside
      the region, holding more elements than the reservation on entry, its
      writes run past the capacity. */
  lemma DeepLeafOverflows<T>(t: NativeOctree<T>, region: AABB, capacity: int)
    requires ValidTree(t) && capacity >= 0
    requires Cubic(t.bounds) && NonNegative(t.bounds) && ContainsBox(region, t.bounds)
    requires 1 < |t.lookup| && t.lookup[1] != 0 && !(t.lookup[1] > t.maxLeafElements && 1 < t.maxDepth)
    requires t.nodes[1].count > Grown(0, capacity, 8 * t.maxLeafElements)
    ensures StepAsWritten(t, region, t.bounds, false, 1, 1, 0, capacity).Overflow?
  {
    var cap := Grown(0, capacity, 8 * t.maxLeafElements);
    var at := ChildOffset(t, 1, 1, 0);
    ChildInsideParent(t.bounds, 0);
    ContainsBoxTransitive(region, t.bounds, Child(t.bounds, 0));
    assert |LeafOut(t, region, true, at)| == t.nodes[at].count;
    var b := ChildAsWritten(t, region, t.bounds, false, 1, 1, 0, 0, cap);
    assert b.Overflow?;
    assert ChildrenAsWritten(t, region, t.bounds, false, 1, 1, 1, b) == b;
    assert ChildrenAsWritten(t, region, t.bounds, false, 1, 1, 0, Within(0, cap)) == b;
  }

  /** A tree of maximum depth 1 and at most one element per leaf whose first
      root octant holds nine points: at the maximum depth they stay one leaf. */
  function DeepLeafTree(): (t: NativeOctree<int>)
    ensures ValidTree(t)
  {
    var root := AABB(Vec3(0.0, 0.0, 0.0), Vec3(2.0, 2.0, 2.0));
    NativeOctree(
      root, 1, 1,
      seq(9, i => if i == 1 then 9 else 0),
      seq(9, i => if i == 1 then OctNode(0, 9) else OctNode(0, 0)),
      seq(9, i => OctElement(Vec3(-1.0, 1.0, -1.0), i)),
      [0, 1])
  }

  /** DeepLeafTree, queried with its own bounds into an empty list, meets
      DeepLeafOverflows: the step reserves 8 slots and the leaf holds 9, so
      the step overflows. */
  lemma DeepLeafTreeOverflows()
    ensures Cubic(DeepLeafTree().bounds) && NonNegative(DeepLeafTree().bounds)
    ensures ContainsBox(DeepLeafTree().bounds, DeepLeafTree().bounds)
    ensures DeepLeafTree().lookup[1] == 9 && DeepLeafTree().maxDepth == 1
    ensures DeepLeafTree().nodes[1].count == 9
    ensures Grown(0, 0, 8 * DeepLeafTree().maxLeafElements) == 8
    ensures var t := DeepLeafTree();
      StepAsWritten(t, t.bounds, t.bounds, false, 1, 1, 0, 0).Overflow?
  {
    DeepLeafOverflows(DeepLeafTree(), DeepLeafTree().bounds, 0);
  }

  /** Siblings handled after a split octant: the reservation on entry to the
      root step is not renewed after the first octant's descent fills it, so
      the second octant's leaf is written past the capacity, although no leaf
      holds more than maxLeafElements elements. */
  lemma SiblingOverflows<T>(t: NativeOctree<T>, region: AABB)
    requires ValidTree(t) && t.maxDepth == 2 && t.maxLeafElements == 1
    requires t.depthSizes[1] == 1 && t.depthSizes[2] == 9
    requires Cubic(t.bounds) && NonNegative(t.bounds) && ContainsBox(region, t.bounds)
    requires t.lookup[1] == 8
    requires forall i :: 2 <= i <= 10 ==> t.lookup[i] == 1 && t.nodes[i].count == 1
    ensures StepAsWritten(t, region, t.bounds, false, 1, 1, 0, 0) == Overflow(8, 8)
  {
    var c0 := Child(t.bounds, 0);
    var c1 := Child(t.bounds, 1);
    ChildInsideParent(t.bounds, 0);
    ChildInsideParent(t.bounds, 1);
    ContainsBoxTransitive(region, t.bounds, c0);
    ContainsBoxTransitive(region, t.bounds, c1);
    assert ChildOffset(t, 1, 1, 0) == 1 && ChildOffset(t, 1, 1, 1) == 10;
    DescentStaysInTables(t, 1, 1, 0);
    var l := 0;
    while l < 8
      invariant 0 <= l <= 8
      invariant ChildrenAsWritten(t, region, c0, true, 2, 2, 0, Within(0, 8))
             == ChildrenAsWritten(t, region, c0, true, 2, 2, l, Within(l, 8))
    {
      assert ChildOffset(t, 2, 2, l) == 2 + l;
      assert |LeafOut(t, region, true, 2 + l)| == 1;
      assert ChildAsWritten(t, region, c0, true, 2, 2, l, l, 8) == Within(l + 1, 8);
      l := l + 1;
    }
    assert ChildrenAsWritten(t, region, c0, true, 2, 2, 8, Within(8, 8)) == Within(8, 8);
    assert StepAsWritten(t, region, c0, true, 2, 2, 0, 8) == Within(8, 8);
    var b0 := ChildAsWritten(t, region, t.bounds, false, 1, 1, 0, 0, 8);
    assert b0 == Within(8, 8);
    assert |LeafOut(t, region, true, 10)| == 1;
    var b1 := ChildAsWritten(t, region, t.bounds, false, 1, 1, 1, 8, 8);
    assert b1 == Overflow(8, 8);
    assert ChildrenAsWritten(t, region, t.bounds, false, 1, 1, 2, b1) == b1;
    assert ChildrenAsWritten(t, region, t.bounds, false, 1, 1, 1, b0) == b1;
    assert Grown(0, 0, 8 * t.maxLeafElements) == 8;
    assert ChildrenAsWritten(t, region, t.bounds, false, 1, 1, 0, Within(0, 8)) == b1;
  }

  /** The point stored in SiblingTree for element `i`: the center of leaf
      `i` of the first root octant for i < 8, the center of the second root
      octant for i == 8. */
  function LeafCenter(i: int): Vec3
  {
    if i == 8 then Vec3(2.0, 2.0, -2.0)
    else Vec3(if i % 2 == 1 then -1.0 else -3.0,
              if (i / 2) % 2 == 1 then 1.0 else 3.0,
              if i / 4 == 1 then -1.0 else -3.0)
  }

  /** A tree of maximum depth 2 with at most one element per leaf: the first
      root octant is split into eight one-element leaves, the second root
      octant is a one-element leaf. Each point sits at its leaf's center. */
  function SiblingTree(): (t: NativeOctree<int>)
    ensures ValidTree(t)
  {
    var root := AABB(Vec3(0.0, 0.0, 0.0), Vec3(4.0, 4.0, 4.0));
    NativeOctree(
      root, 2, 1,
      seq(73, i => if i == 1 then 8 else if 2 <= i <= 10 then 1 else 0),
      seq(73, i => if 2 <= i <= 10 then OctNode(i - 2, 1) else OctNode(0, 0)),
      seq(9, i => OctElement(LeafCenter(i), i)),
      [0, 1, 9])
  }

  /** SiblingTree, queried with its own bounds into an empty list, meets
      SiblingOverflows: the sibling leaf is written at index 8, which is the
      capacity. */
  lemma SiblingTreeOverflows()
    ensures var t := SiblingTree();
      t.maxDepth == 2 && t.maxLeafElements == 1 &&
      t.depthSizes[1] == 1 && t.depthSizes[2] == 9 &&
      Cubic(t.bounds) && NonNegative(t.bounds) && ContainsBox(t.bounds, t.bounds) &&
      t.lookup[1] == 8 &&
      forall i :: 2 <= i <= 10 ==> t.lookup[i] == 1 && t.nodes[i].count == 1
    ensures var t := SiblingTree();
      StepAsWritten(t, t.bounds, t.bounds, false, 1, 1, 0, 0) == Overflow(8, 8)
  {
    SiblingOverflows(SiblingTree(), SiblingTree().bounds);
  }

  /** One descent step with the corrected bookkeeping: the same reservation on
      entry, then the first `8` children. */
  function StepCorrected<T>(t: NativeOctree<T>, region: AABB, pb: AABB, pc: bool,
                            p: int, d: int, count: int, capacity: int): (r: Buffer)
    requires Frame(t, p, d)
    ensures r.capacity >= capacity && (r.Within? ==> r.count >= count)
    decreases t.maxDepth + 1 - d, 9, 0
  {
    ChildrenCorrected(t, region, pb, pc, p, d, 8, count, Grown(count, capacity, 8 * t.maxLeafElements))
  }

  /** The buffer after the first `l` children, starting from `count` and
      `capacity`. */
  function ChildrenCorrected<T>(t: NativeOctree<T>, region: AABB, pb: AABB, pc: bool,
                                p: int, d: int, l: int, count: int, capacity: int): (r: Buffer)
    requires Frame(t, p, d) && 0 <= l <= 8
    ensures r.capacity >= capacity && (r.Within? ==> r.count >= count)
    decreases t.maxDepth + 1 - d, l, 1
  {
    if l == 0 then Within(count, capacity)
    else
      var b := ChildrenCorrected(t, region, pb, pc, p, d, l - 1, count, capacity);
      if b.Overflow? then b
      else ChildCorrected(t, region, pb, pc, p, d, l - 1, b.count, b.capacity)
  }

  /** Child `l` with the corrected bookkeeping: a leaf reserves room for its
      own span before it is written. */
  function ChildCorrected<T>(t: NativeOctree<T>, region: AABB, pb: AABB, pc: bool,
                             p: int, d: int, l: int, count: int, capacity: int): (r: Buffer)
    requires Frame(t, p, d) && 0 <= l < 8
    ensures r.capacity >= capacity && (r.Within? ==> r.count >= count)
    decreases t.maxDepth + 1 - d, l, 0
  {
    var cb := Child(pb, l);
    var contained := pc || ContainsBox(region, cb);
    if !contained && !Intersects(region, cb) then Within(count, capacity)
    else
      var at := ChildOffset(t, p, d, l);
      var elementCount := t.lookup[at];
      if elementCount > t.maxLeafElements && d < t.maxDepth then
        DescentStaysInTables(t, p, d, l);
        StepCorrected(t, region, cb, contained, at + 1, d + 1, count, capacity)
      else if elementCount != 0 then
        var n := |LeafOut(t, region, contained, at)|;
        var cap := Grown(count, capacity, t.nodes[at].count);
        if count + n > cap then Overflow(if count > cap then count else cap, cap)
        else Within(count + n, cap)
      else Within(count, capacity)
  }

  /** With the corrected bookkeeping no write reaches the capacity: the step
      ends inside the buffer, with the cursor advanced by exactly what the
      step appends. */
  lemma {:induction false} StepCorrectedWithin<T>(t: NativeOctree<T>, region: AABB, pb: AABB, pc: bool,
                                                  p: int, d: int, count: int, capacity: int)
    requires Frame(t, p, d) && 0 <= count <= capacity
    ensures var b := StepCorrected(t, region, pb, pc, p, d, count, capacity);
      b.Within? && b.count == count + |Children(t, region, pb, pc, p, d, 8)| && b.count <= b.capacity
    decreases t.maxDepth + 1 - d, 9, 0
  {
    ChildrenCorrectedWithin(t, region, pb, pc, p, d, 8, count, Grown(count, capacity, 8 * t.maxLeafElements));
  }

  lemma {:induction false} ChildrenCorrectedWithin<T>(t: NativeOctree<T>, region: AABB, pb: AABB, pc: bool,
                                                      p: int, d: int, l: int, count: int, capacity: int)
    requires Frame(t, p, d) && 0 <= l <= 8 && 0 <= count <= capacity
    ensures var b := ChildrenCorrected(t, region, pb, pc, p, d, l, count, capacity);
      b.Within? && b.count == count + |Children(t, region, pb, pc, p, d, l)| && b.count <= b.capacity
    decreases t.maxDepth + 1 - d, l, 1
  {
    if l > 0 {
      ChildrenCorrectedWithin(t, region, pb, pc, p, d, l - 1, count, capacity);
      var b := ChildrenCorrected(t, region, pb, pc, p, d, l - 1, count, capacity);
      ChildCorrectedWithin(t, region, pb, pc, p, d, l - 1, b.count, b.capacity);
    }
  }

  lemma {:induction false} ChildCorrectedWithin<T>(t: NativeOctree<T>, region: AABB, pb: AABB, pc: bool,
                                                   p: int, d: int, l: int, count: int, capacity: int)
    requires Frame(t, p, d) && 0 <= l < 8 && 0 <= count <= capacity
    ensures var b := ChildCorrected(t, region, pb, pc, p, d, l, count, capacity);
      b.Within? && b.count == count + |ChildOut(t, region, pb, pc, p, d, l)| && b.count <= b.capacity
    decreases t.maxDepth + 1 - d, l, 0
  {
    var cb := Child(pb, l);
    var contained := pc || ContainsBox(region, cb);
    var out := Visit(t, region, cb, pc, p, d, l);
    assert ChildOut(t, region, pb, pc, p, d, l) == out;
    if contained || Intersects(region, cb) {
      var at := ChildOffset(t, p, d, l);
      if t.lookup[at] > t.maxLeafElements && d < t.maxDepth {
        DescentStaysInTables(t, p, d, l);
        StepCorrectedWithin(t, region, cb, contained, at + 1, d + 1, count, capacity);
        assert out == Children(t, region, cb, contained, at + 1, d + 1, 8);
      } else if t.lookup[at] != 0 {
        FilterMembers(region, Span(t, at));
        assert out == LeafOut(t, region, contained, at);
      }
    }
  }
}
