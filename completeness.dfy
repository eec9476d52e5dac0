/** Which stored points a query returns. The overlap test that prunes an
    octant is strict while the point test is closed, so a point on the
    region's boundary can be lost with the octant that only touches the
    region. Every point strictly inside the region is returned. A corrected
    traversal that prunes with the closed test returns exactly the stored
    points inside the region. */
module Completeness {
  import opened Geometry
  import opened Octree
  import opened QuerySpec

  /** Without the shortcut, every stored point below a step that lies
      strictly inside the region is appended; it also lies in the step's box. */
  lemma {:induction false} FilterChildrenComplete<T>(t: NativeOctree<T>, region: AABB, pb: AABB,
                                                     p: int, d: int, l: int, e: OctElement<T>)
    requires Frame(t, p, d) && 0 <= l <= 8
    requires Cubic(pb) && NonNegative(pb) && LeavesInBoxes(t, pb, p, d, l)
    requires e in AllChildren(t, p, d, l) && InInterior(region, e.pos)
    ensures e in FilterChildren(t, region, pb, p, d, l) && ContainsPoint(pb, e.pos)
    decreases t.maxDepth + 1 - d, l, 1
  {
    if l == 0 {
      assert false;
    } else if e in AllChildren(t, p, d, l - 1) {
      FilterChildrenComplete(t, region, pb, p, d, l - 1, e);
    } else {
      FilterChildComplete(t, region, pb, p, d, l - 1, e);
      ChildInsideParent(pb, l - 1);
      ContainsPointTransitive(pb, Child(pb, l - 1), e.pos);
    }
  }

  lemma {:induction false} FilterChildComplete<T>(t: NativeOctree<T>, region: AABB, pb: AABB,
                                                  p: int, d: int, l: int, e: OctElement<T>)
    requires Frame(t, p, d) && 0 <= l < 8
    requires Cubic(pb) && NonNegative(pb) && ChildLeavesInBox(t, pb, p, d, l)
    requires e in AllChildOut(t, p, d, l) && InInterior(region, e.pos)
    ensures e in FilterChildOut(t, region, pb, p, d, l) && ContainsPoint(Child(pb, l), e.pos)
    decreases t.maxDepth + 1 - d, l, 0
  {
    var cb := Child(pb, l);
    assert Cubic(cb) && NonNegative(cb);
    var at := ChildOffset(t, p, d, l);
    if t.lookup[at] > t.maxLeafElements && d < t.maxDepth {
      DescentAll(t, pb, p, d, l);
      FilterChildrenComplete(t, region, cb, at + 1, d + 1, 8, e);
      InteriorPointIntersects(region, cb, e.pos);
      DescentFilter(t, region, pb, p, d, l);
    } else if t.lookup[at] != 0 {
      assert AllChildOut(t, p, d, l) == Span(t, at);
      LeafComplete(region, cb, Span(t, at), e);
      assert FilterChildOut(t, region, pb, p, d, l) == Filter(region, Span(t, at));
    } else {
      assert false;
    }
  }

  /** An octant that is split holds the points of the eight steps below it;
      when its leaves hold only points of their own boxes, so do theirs. */
  lemma DescentAll<T>(t: NativeOctree<T>, pb: AABB, p: int, d: int, l: int)
    requires Frame(t, p, d) && 0 <= l < 8
    requires t.lookup[ChildOffset(t, p, d, l)] > t.maxLeafElements && d < t.maxDepth
    ensures Frame(t, ChildOffset(t, p, d, l) + 1, d + 1)
    ensures AllChildOut(t, p, d, l) == AllChildren(t, ChildOffset(t, p, d, l) + 1, d + 1, 8)
    ensures ChildLeavesInBox(t, pb, p, d, l) ==>
      LeavesInBoxes(t, Child(pb, l), ChildOffset(t, p, d, l) + 1, d + 1, 8)
  {
    DescentStaysInTables(t, p, d, l);
  }

  /** An octant that is split and passes the overlap test appends what the
      eight steps below it append. */
  lemma DescentFilter<T>(t: NativeOctree<T>, region: AABB, pb: AABB, p: int, d: int, l: int)
    requires Frame(t, p, d) && 0 <= l < 8
    requires t.lookup[ChildOffset(t, p, d, l)] > t.maxLeafElements && d < t.maxDepth
    requires Intersects(region, Child(pb, l))
    ensures Frame(t, ChildOffset(t, p, d, l) + 1, d + 1)
    ensures FilterChildOut(t, region, pb, p, d, l)
         == FilterChildren(t, region, Child(pb, l), ChildOffset(t, p, d, l) + 1, d + 1, 8)
  {
    DescentStaysInTables(t, p, d, l);
  }

  /** A leaf span whose points lie in the leaf's box keeps each of them that
      lies strictly inside the region, and the leaf's box passes the overlap
      test. */
  lemma LeafComplete<T>(region: AABB, cb: AABB, span: seq<OctElement<T>>, e: OctElement<T>)
    requires forall j :: 0 <= j < |span| ==> ContainsPoint(cb, span[j].pos)
    requires e in span && InInterior(region, e.pos)
    ensures e in Filter(region, span) && ContainsPoint(cb, e.pos) && Intersects(region, cb)
  {
    var i :| 0 <= i < |span| && span[i] == e;
    InteriorPointIntersects(region, cb, e.pos);
    FilterMembers(region, span);
  }

  /** Every stored point strictly inside the region is returned, for a cubic
      root of positive size whose leaves hold only points of their own boxes. */
  lemma QueryCompleteInterior<T>(t: NativeOctree<T>, region: AABB, e: OctElement<T>)
    requires ValidTree(t) && Cubic(t.bounds) && Positive(t.bounds)
    requires LeavesInBoxes(t, t.bounds, 1, 1, 8)
    requires e in AllChildren(t, 1, 1, 8) && InInterior(region, e.pos)
    ensures e in QueryResult(t, region)
  {
    QuerySound(t, region);
    FilterChildrenComplete(t, region, t.bounds, 1, 1, 8, e);
  }

  /** The tables of a tree of maximum depth 1, at most one element per leaf,
      root box centered at the origin with extent 4, whose one point
      (0, 1, -1) is stored in the leaf of octant 0; that octant's box spans x
      from -4 to 0. */
  predicate FaceShape<T>(t: NativeOctree<T>)
  {
    ValidTree(t) && t.maxDepth == 1 && t.maxLeafElements == 1 && t.depthSizes == [0, 1] &&
    t.bounds == AABB(Vec3(0.0, 0.0, 0.0), Vec3(4.0, 4.0, 4.0)) &&
    t.lookup[1] == 1 && (forall k :: 2 <= k <= 8 ==> t.lookup[k] == 0) &&
    t.nodes[1] == OctNode(0, 1) &&
    |t.elements| == 1 && t.elements[0].pos == Vec3(0.0, 1.0, -1.0)
  }

  /** A region spanning x from 0 to 2: its face x = 0 holds the point of a
      FaceShape tree and touches the box of octant 0. */
  function FaceRegion(): AABB
  {
    AABB(Vec3(1.0, 1.0, -1.0), Vec3(1.0, 1.0, 1.0))
  }

  /** Octants 1 to 7 of a FaceShape tree are empty: they hold no point and
      append nothing. */
  lemma FaceEmptyOctant<T>(t: NativeOctree<T>, r: AABB, l: int)
    requires FaceShape(t) && 1 <= l < 8
    ensures ChildLeavesInBox(t, t.bounds, 1, 1, l)
    ensures AllChildOut(t, 1, 1, l) == []
    ensures ChildOut(t, r, t.bounds, false, 1, 1, l) == []
  {
    assert DepthSize(t, 1) == 1;
    assert t.lookup[1 + l] == 0;
    assert Visit(t, r, Child(t.bounds, l), false, 1, 1, l) == [];
  }

  /** Octant 0 of a FaceShape tree is a leaf holding the tree's one point
      inside its box. */
  lemma FaceFirstLeaf<T>(t: NativeOctree<T>)
    requires FaceShape(t)
    ensures ChildLeavesInBox(t, t.bounds, 1, 1, 0)
    ensures AllChildOut(t, 1, 1, 0) == t.elements
  {
    assert DepthSize(t, 1) == 1;
    assert Span(t, 1) == t.elements;
    assert Child(t.bounds, 0) == AABB(Vec3(-2.0, 2.0, -2.0), Vec3(2.0, 2.0, 2.0));
  }

  /** FaceRegion only touches the box of octant 0, so the query appends
      nothing for it. */
  lemma FaceFirstPruned<T>(t: NativeOctree<T>)
    requires FaceShape(t)
    ensures ChildOut(t, FaceRegion(), t.bounds, false, 1, 1, 0) == []
  {
    var r := FaceRegion();
    var c0 := Child(t.bounds, 0);
    assert c0 == AABB(Vec3(-2.0, 2.0, -2.0), Vec3(2.0, 2.0, 2.0));
    assert !ContainsBox(r, c0) && !Intersects(r, c0);
    assert Visit(t, r, c0, false, 1, 1, 0) == [];
  }

  /** As written, the query of FaceRegion on a FaceShape tree misses the
      stored point although the point test would keep it: octant 0 only
      touches the region, so the strict overlap test prunes it. The tree
      meets every other condition of QueryCompleteInterior. */
  lemma FacePointMissed<T>(t: NativeOctree<T>)
    requires FaceShape(t)
    ensures Cubic(t.bounds) && Positive(t.bounds) && LeavesInBoxes(t, t.bounds, 1, 1, 8)
    ensures t.elements[0] in AllChildren(t, 1, 1, 8)
    ensures ContainsPoint(FaceRegion(), t.elements[0].pos)
    ensures !InInterior(FaceRegion(), t.elements[0].pos)
    ensures QueryResult(t, FaceRegion()) == []
  {
    var r := FaceRegion();
    var e := t.elements[0];
    FaceFirstLeaf(t);
    FaceFirstPruned(t);
    assert e in AllChildren(t, 1, 1, 1);
    for l := 1 to 8
      invariant LeavesInBoxes(t, t.bounds, 1, 1, l)
      invariant e in AllChildren(t, 1, 1, l)
      invariant Children(t, r, t.bounds, false, 1, 1, l) == []
    {
      FaceEmptyOctant(t, r, l);
    }
  }

  /** A FaceShape tree: one point (0, 1, -1) with payload 0. */
  function FaceTree(): (t: NativeOctree<int>)
    ensures FaceShape(t)
  {
    var none := OctNode(0, 0);
    NativeOctree(
      AABB(Vec3(0.0, 0.0, 0.0), Vec3(4.0, 4.0, 4.0)), 1, 1,
      [0, 1, 0, 0, 0, 0, 0, 0, 0],
      [none, OctNode(0, 1), none, none, none, none, none, none, none],
      [OctElement(Vec3(0.0, 1.0, -1.0), 0)],
      [0, 1])
  }

  /** The corrected traversal: children are pruned only when they do not
      touch the region under the closed test, and every leaf is filtered by
      the closed point test. It is `FilterChildren` with `Touches` in place
      of `Intersects`. */
  function ClosedChildren<T>(t: NativeOctree<T>, region: AABB, pb: AABB,
                             p: int, d: int, l: int): seq<OctElement<T>>
    requires Frame(t, p, d) && 0 <= l <= 8
    decreases t.maxDepth + 1 - d, l, 1
  {
    if l == 0 then []
    else ClosedChildren(t, region, pb, p, d, l - 1) + ClosedChildOut(t, region, pb, p, d, l - 1)
  }

  function ClosedChildOut<T>(t: NativeOctree<T>, region: AABB, pb: AABB,
                             p: int, d: int, l: int): seq<OctElement<T>>
    requires Frame(t, p, d) && 0 <= l < 8
    decreases t.maxDepth + 1 - d, l, 0
  {
    var cb := Child(pb, l);
    if !Touches(region, cb) then []
    else
      var at := ChildOffset(t, p, d, l);
      var count := t.lookup[at];
      if count > t.maxLeafElements && d < t.maxDepth then
        DescentStaysInTables(t, p, d, l);
        ClosedChildren(t, region, cb, at + 1, d + 1, 8)
      else if count != 0 then Filter(region, Span(t, at))
      else []
  }

  /** The corrected query: the corrected traversal from the root. */
  function ClosedQuery<T>(t: NativeOctree<T>, region: AABB): seq<OctElement<T>>
    requires ValidTree(t)
  {
    ClosedChildren(t, region, t.bounds, 1, 1, 8)
  }

  /** The corrected traversal appends only stored elements that lie in the
      region. */
  lemma {:induction false} ClosedChildrenSound<T>(t: NativeOctree<T>, region: AABB, pb: AABB,
                                                  p: int, d: int, l: int)
    requires Frame(t, p, d) && 0 <= l <= 8
    ensures forall e :: e in ClosedChildren(t, region, pb, p, d, l) ==>
      e in AllChildren(t, p, d, l) && ContainsPoint(region, e.pos)
    decreases t.maxDepth + 1 - d, l, 1
  {
    if l > 0 {
      ClosedChildrenSound(t, region, pb, p, d, l - 1);
      ClosedChildSound(t, region, pb, p, d, l - 1);
    }
  }

  lemma {:induction false} ClosedChildSound<T>(t: NativeOctree<T>, region: AABB, pb: AABB,
                                               p: int, d: int, l: int)
    requires Frame(t, p, d) && 0 <= l < 8
    ensures forall e :: e in ClosedChildOut(t, region, pb, p, d, l) ==>
      e in AllChildOut(t, p, d, l) && ContainsPoint(region, e.pos)
    decreases t.maxDepth + 1 - d, l, 0
  {
    var cb := Child(pb, l);
    if Touches(region, cb) {
      var at := ChildOffset(t, p, d, l);
      if t.lookup[at] > t.maxLeafElements && d < t.maxDepth {
        ClosedDescent(t, region, pb, p, d, l);
        DescentAll(t, pb, p, d, l);
        ClosedChildrenSound(t, region, cb, at + 1, d + 1, 8);
      } else if t.lookup[at] != 0 {
        ClosedLeafOut(t, region, pb, p, d, l);
        forall e | e in ClosedChildOut(t, region, pb, p, d, l)
          ensures e in AllChildOut(t, p, d, l) && ContainsPoint(region, e.pos)
        {
          FilterMember(region, Span(t, at), e);
        }
      } else {
        assert ClosedChildOut(t, region, pb, p, d, l) == [];
      }
    }
  }

  /** The corrected traversal appends every stored point below a step that
      lies in the region; it also lies in the step's box. */
  lemma {:induction false} ClosedChildrenComplete<T>(t: NativeOctree<T>, region: AABB, pb: AABB,
                                                     p: int, d: int, l: int, e: OctElement<T>)
    requires Frame(t, p, d) && 0 <= l <= 8
    requires Cubic(pb) && NonNegative(pb) && LeavesInBoxes(t, pb, p, d, l)
    requires e in AllChildren(t, p, d, l) && ContainsPoint(region, e.pos)
    ensures e in ClosedChildren(t, region, pb, p, d, l) && ContainsPoint(pb, e.pos)
    decreases t.maxDepth + 1 - d, l, 1
  {
    if l == 0 {
      assert false;
    } else if e in AllChildren(t, p, d, l - 1) {
      ClosedChildrenComplete(t, region, pb, p, d, l - 1, e);
    } else {
      ClosedChildComplete(t, region, pb, p, d, l - 1, e);
      ChildInsideParent(pb, l - 1);
      ContainsPointTransitive(pb, Child(pb, l - 1), e.pos);
    }
  }

  lemma {:induction false} ClosedChildComplete<T>(t: NativeOctree<T>, region: AABB, pb: AABB,
                                                  p: int, d: int, l: int, e: OctElement<T>)
    requires Frame(t, p, d) && 0 <= l < 8
    requires Cubic(pb) && NonNegative(pb) && ChildLeavesInBox(t, pb, p, d, l)
    requires e in AllChildOut(t, p, d, l) && ContainsPoint(region, e.pos)
    ensures e in ClosedChildOut(t, region, pb, p, d, l) && ContainsPoint(Child(pb, l), e.pos)
    decreases t.maxDepth + 1 - d, l, 0
  {
    var cb := Child(pb, l);
    assert Cubic(cb) && NonNegative(cb);
    var at := ChildOffset(t, p, d, l);
    if t.lookup[at] > t.maxLeafElements && d < t.maxDepth {
      DescentAll(t, pb, p, d, l);
      ClosedChildrenComplete(t, region, cb, at + 1, d + 1, 8, e);
      SharedPointTouches(region, cb, e.pos);
      ClosedDescent(t, region, pb, p, d, l);
    } else if t.lookup[at] != 0 {
      ClosedLeafOut(t, region, pb, p, d, l);
      ClosedLeafComplete(region, cb, Span(t, at), e);
    } else {
      assert false;
    }
  }

  /** A split octant that touches the region appends, in the corrected
      traversal, what the eight steps below it append. */
  lemma ClosedDescent<T>(t: NativeOctree<T>, region: AABB, pb: AABB, p: int, d: int, l: int)
    requires Frame(t, p, d) && 0 <= l < 8
    requires t.lookup[ChildOffset(t, p, d, l)] > t.maxLeafElements && d < t.maxDepth
    requires Touches(region, Child(pb, l))
    ensures Frame(t, ChildOffset(t, p, d, l) + 1, d + 1)
    ensures ClosedChildOut(t, region, pb, p, d, l)
         == ClosedChildren(t, region, Child(pb, l), ChildOffset(t, p, d, l) + 1, d + 1, 8)
  {
    DescentStaysInTables(t, p, d, l);
  }

  /** An element the filter keeps is in the span and in the region. */
  lemma FilterMember<T>(region: AABB, span: seq<OctElement<T>>, e: OctElement<T>)
    requires e in Filter(region, span)
    ensures e in span && ContainsPoint(region, e.pos)
  {
    FilterMembers(region, span);
  }

  /** An octant that is a non-empty leaf holds its span, and appends the
      span's points in the region when it touches the region. */
  lemma ClosedLeafOut<T>(t: NativeOctree<T>, region: AABB, pb: AABB, p: int, d: int, l: int)
    requires Frame(t, p, d) && 0 <= l < 8
    requires t.lookup[ChildOffset(t, p, d, l)] != 0
    requires !(t.lookup[ChildOffset(t, p, d, l)] > t.maxLeafElements && d < t.maxDepth)
    ensures AllChildOut(t, p, d, l) == Span(t, ChildOffset(t, p, d, l))
    ensures Touches(region, Child(pb, l)) ==>
      ClosedChildOut(t, region, pb, p, d, l) == Filter(region, Span(t, ChildOffset(t, p, d, l)))
  {
  }

  /** A leaf span whose points lie in the leaf's box keeps each of them that
      lies in the region, and the leaf's box touches the region. */
  lemma ClosedLeafComplete<T>(region: AABB, cb: AABB, span: seq<OctElement<T>>, e: OctElement<T>)
    requires forall j :: 0 <= j < |span| ==> ContainsPoint(cb, span[j].pos)
    requires e in span && ContainsPoint(region, e.pos)
    ensures e in Filter(region, span) && ContainsPoint(cb, e.pos) && Touches(region, cb)
  {
    var i :| 0 <= i < |span| && span[i] == e;
    SharedPointTouches(region, cb, e.pos);
    FilterMembers(region, span);
  }

  /** With the closed overlap test, a query returns exactly the stored points
      that pass the closed point test, for a cubic root of non-negative size
      whose leaves hold only points of their own boxes. */
  lemma ClosedQueryExact<T>(t: NativeOctree<T>, region: AABB, e: OctElement<T>)
    requires ValidTree(t) && Cubic(t.bounds) && NonNegative(t.bounds)
    requires LeavesInBoxes(t, t.bounds, 1, 1, 8)
    ensures e in ClosedQuery(t, region) <==> e in AllChildren(t, 1, 1, 8) && ContainsPoint(region, e.pos)
  {
    ClosedChildrenSound(t, region, t.bounds, 1, 1, 8);
    if e in AllChildren(t, 1, 1, 8) && ContainsPoint(region, e.pos) {
      ClosedChildrenComplete(t, region, t.bounds, 1, 1, 8, e);
    }
  }

  /** The corrected query of FaceRegion on a FaceShape tree returns the point
      that the query as written misses. */
  lemma ClosedFindsFacePoint<T>(t: NativeOctree<T>)
    requires FaceShape(t)
    ensures t.elements[0] in ClosedQuery(t, FaceRegion())
    ensures QueryResult(t, FaceRegion()) == []
  {
    FacePointMissed(t);
    ClosedQueryExact(t, FaceRegion(), t.elements[0]);
  }
}
