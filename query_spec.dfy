/** What one range-query descent appends to the output, as functions of the
    tree, the query region and the descent's arguments, and the properties of
    that output. `Children` follows RecursiveRangeQuery child by child;
    `AllChildren` and `FilterChildren` are two reference traversals: the first
    makes no box test at all, the second never takes the containment shortcut. */
module QuerySpec {
  import opened Geometry
  import opened Octree

  /** The elements of `s` whose position lies in `region`, in span order. */
  function Filter<T>(region: AABB, s: seq<OctElement<T>>): (r: seq<OctElement<T>>)
    ensures |r| <= |s|
  {
    if s == [] then []
    else
      var last := s[|s| - 1];
      Filter(region, s[..|s| - 1]) + (if ContainsPoint(region, last.pos) then [last] else [])
  }

  /** An element is kept exactly when it is in the span and inside the region. */
  lemma {:induction false} FilterMembers<T>(region: AABB, s: seq<OctElement<T>>)
    ensures forall e :: e in Filter(region, s) <==> e in s && ContainsPoint(region, e.pos)
    ensures |Filter(region, s)| <= |s|
  {
    if s != [] {
      FilterMembers(region, s[..|s| - 1]);
      assert s == s[..|s| - 1] + [s[|s| - 1]];
    }
  }

  /** Every element of `s` lies in `region`. */
  predicate AllInside<T>(region: AABB, s: seq<OctElement<T>>)
  {
    forall i :: 0 <= i < |s| ==> ContainsPoint(region, s[i].pos)
  }

  /** Every kept element lies in the region. */
  lemma {:induction false} FilterSound<T>(region: AABB, s: seq<OctElement<T>>)
    ensures AllInside(region, Filter(region, s))
  {
    if s != [] {
      FilterSound(region, s[..|s| - 1]);
    }
  }

  /** A span lying wholly inside the region is kept whole. */
  lemma {:induction false} FilterKeepsAll<T>(region: AABB, s: seq<OctElement<T>>)
    requires forall i :: 0 <= i < |s| ==> ContainsPoint(region, s[i].pos)
    ensures Filter(region, s) == s
  {
    if s != [] {
      var init := s[..|s| - 1];
      FilterKeepsAll(region, init);
      assert s == init + [s[|s| - 1]];
    }
  }

  /** The capacity after a reservation of `needed` spare slots: grown to
      max(2 * capacity, count + needed) when the spare room is short. */
  function Grown(count: int, capacity: int, needed: int): (c: int)
    ensures c >= capacity && c >= count + needed
    ensures count + needed <= capacity ==> c == capacity
    ensures count + needed > capacity ==>
      c == (if 2 * capacity > count + needed then 2 * capacity else count + needed)
  {
    if count + needed > capacity then
      (if 2 * capacity > count + needed then 2 * capacity else count + needed)
    else capacity
  }

  /** The leaf span stored at offset `at`. */
  function Span<T>(t: NativeOctree<T>, at: int): seq<OctElement<T>>
    requires SpansInStore(t) && 0 <= at < |t.nodes|
  {
    var n := t.nodes[at];
    t.elements[n.firstChildIndex .. n.firstChildIndex + n.count]
  }

  /** What a leaf contributes: its whole span under containment, otherwise the
      elements of its span inside the region. */
  function LeafOut<T>(t: NativeOctree<T>, region: AABB, contained: bool, at: int): seq<OctElement<T>>
    requires SpansInStore(t) && 0 <= at < |t.nodes|
  {
    if contained then Span(t, at) else Filter(region, Span(t, at))
  }

  /** What the first `l` children of a descent step append, in order. */
  function Children<T>(t: NativeOctree<T>, region: AABB, pb: AABB, pc: bool,
                       p: int, d: int, l: int): seq<OctElement<T>>
    requires Frame(t, p, d) && 0 <= l <= 8
    decreases t.maxDepth + 1 - d, l, 2
  {
    if l == 0 then []
    else Children(t, region, pb, pc, p, d, l - 1) + ChildOut(t, region, pb, pc, p, d, l - 1)
  }

  /** What child `l` of a descent step appends: what its octant box
      contributes. */
  function ChildOut<T>(t: NativeOctree<T>, region: AABB, pb: AABB, pc: bool,
                       p: int, d: int, l: int): seq<OctElement<T>>
    requires Frame(t, p, d) && 0 <= l < 8
    decreases t.maxDepth + 1 - d, l, 1
  {
    Visit(t, region, Child(pb, l), pc, p, d, l)
  }

  /** What the octant with box `cb` at child position `l` appends: nothing
      when it is pruned, its subtree when it is split, its span (whole or
      filtered) when it is a leaf. */
  function Visit<T>(t: NativeOctree<T>, region: AABB, cb: AABB, pc: bool,
                    p: int, d: int, l: int): seq<OctElement<T>>
    requires Frame(t, p, d) && 0 <= l < 8
    decreases t.maxDepth + 1 - d, l, 0
  {
    var contained := pc || ContainsBox(region, cb);
    if !contained && !Intersects(region, cb) then []
    else
      var at := ChildOffset(t, p, d, l);
      var count := t.lookup[at];
      if count > t.maxLeafElements && d < t.maxDepth then
        DescentStaysInTables(t, p, d, l);
        Children(t, region, cb, contained, at + 1, d + 1, 8)
      else if count != 0 then LeafOut(t, region, contained, at)
      else []
  }

  /** What a query of `region` returns: the root step over the tree's bounds,
      not contained, children from offset 1, depth 1. */
  function QueryResult<T>(t: NativeOctree<T>, region: AABB): seq<OctElement<T>>
    requires ValidTree(t)
  {
    Children(t, region, t.bounds, false, 1, 1, 8)
  }

  /** Reference traversal without any box test: every leaf span below a step. */
  function AllChildren<T>(t: NativeOctree<T>, p: int, d: int, l: int): seq<OctElement<T>>
    requires Frame(t, p, d) && 0 <= l <= 8
    decreases t.maxDepth + 1 - d, l, 1
  {
    if l == 0 then []
    else AllChildren(t, p, d, l - 1) + AllChildOut(t, p, d, l - 1)
  }

  function AllChildOut<T>(t: NativeOctree<T>, p: int, d: int, l: int): seq<OctElement<T>>
    requires Frame(t, p, d) && 0 <= l < 8
    decreases t.maxDepth + 1 - d, l, 0
  {
    var at := ChildOffset(t, p, d, l);
    var count := t.lookup[at];
    if count > t.maxLeafElements && d < t.maxDepth then
      DescentStaysInTables(t, p, d, l);
      AllChildren(t, at + 1, d + 1, 8)
    else if count != 0 then Span(t, at)
    else []
  }

  /** Reference traversal with the containment shortcut switched off: children
      are pruned only when they do not intersect, and every leaf is filtered. */
  function FilterChildren<T>(t: NativeOctree<T>, region: AABB, pb: AABB,
                             p: int, d: int, l: int): seq<OctElement<T>>
    requires Frame(t, p, d) && 0 <= l <= 8
    decreases t.maxDepth + 1 - d, l, 1
  {
    if l == 0 then []
    else FilterChildren(t, region, pb, p, d, l - 1) + FilterChildOut(t, region, pb, p, d, l - 1)
  }

  function FilterChildOut<T>(t: NativeOctree<T>, region: AABB, pb: AABB,
                             p: int, d: int, l: int): seq<OctElement<T>>
    requires Frame(t, p, d) && 0 <= l < 8
    decreases t.maxDepth + 1 - d, l, 0
  {
    var cb := Child(pb, l);
    if !Intersects(region, cb) then []
    else
      var at := ChildOffset(t, p, d, l);
      var count := t.lookup[at];
      if count > t.maxLeafElements && d < t.maxDepth then
        DescentStaysInTables(t, p, d, l);
        FilterChildren(t, region, cb, at + 1, d + 1, 8)
      else if count != 0 then Filter(region, Span(t, at))
      else []
  }

  /** The build's invariant that every element of a leaf's span lies in that
      leaf's box, for the leaves a descent reaches. */
  predicate LeavesInBoxes<T>(t: NativeOctree<T>, pb: AABB, p: int, d: int, l: int)
    requires Frame(t, p, d) && 0 <= l <= 8
    decreases t.maxDepth + 1 - d, l, 1
  {
    l == 0 || (LeavesInBoxes(t, pb, p, d, l - 1) && ChildLeavesInBox(t, pb, p, d, l - 1))
  }

  predicate ChildLeavesInBox<T>(t: NativeOctree<T>, pb: AABB, p: int, d: int, l: int)
    requires Frame(t, p, d) && 0 <= l < 8
    decreases t.maxDepth + 1 - d, l, 0
  {
    var cb := Child(pb, l);
    var at := ChildOffset(t, p, d, l);
    var count := t.lookup[at];
    if count > t.maxLeafElements && d < t.maxDepth then
      DescentStaysInTables(t, p, d, l);
      LeavesInBoxes(t, cb, at + 1, d + 1, 8)
    else
      var span := Span(t, at);
      count != 0 ==> forall i :: 0 <= i < |span| ==> ContainsPoint(cb, span[i].pos)
  }

  /** A child whose box the region neither contains nor intersects appends
      nothing, whatever the tables hold at its offset. */
  lemma PrunedChild<T>(t: NativeOctree<T>, region: AABB, pb: AABB, p: int, d: int, l: int)
    requires Frame(t, p, d) && 0 <= l < 8
    requires !ContainsBox(region, Child(pb, l)) && !Intersects(region, Child(pb, l))
    ensures ChildOut(t, region, pb, false, p, d, l) == []
  {
    assert Visit(t, region, Child(pb, l), false, p, d, l) == [];
  }

  /** Once a step is contained, no box test is made below it: what it appends
      is every leaf span of its subtree, whatever the region and boxes. */
  lemma {:induction false} ContainedChildren<T>(t: NativeOctree<T>, region: AABB, pb: AABB,
                                                p: int, d: int, l: int)
    requires Frame(t, p, d) && 0 <= l <= 8
    ensures Children(t, region, pb, true, p, d, l) == AllChildren(t, p, d, l)
    decreases t.maxDepth + 1 - d, l, 1
  {
    if l > 0 {
      ContainedChildren(t, region, pb, p, d, l - 1);
      ContainedChild(t, region, pb, p, d, l - 1);
    }
  }

  lemma {:induction false} ContainedChild<T>(t: NativeOctree<T>, region: AABB, pb: AABB,
                                             p: int, d: int, l: int)
    requires Frame(t, p, d) && 0 <= l < 8
    ensures ChildOut(t, region, pb, true, p, d, l) == AllChildOut(t, p, d, l)
    decreases t.maxDepth + 1 - d, l, 0
  {
    var at := ChildOffset(t, p, d, l);
    if t.lookup[at] > t.maxLeafElements && d < t.maxDepth {
      DescentStaysInTables(t, p, d, l);
      ContainedChildren(t, region, Child(pb, l), at + 1, d + 1, 8);
    }
  }

  /** Without the shortcut, every element appended lies in the region. */
  lemma {:induction false} FilterChildrenSound<T>(t: NativeOctree<T>, region: AABB, pb: AABB,
                                                  p: int, d: int, l: int)
    requires Frame(t, p, d) && 0 <= l <= 8
    ensures AllInside(region, FilterChildren(t, region, pb, p, d, l))
    decreases t.maxDepth + 1 - d, l, 1
  {
    if l > 0 {
      var a: seq<OctElement<T>> := FilterChildren(t, region, pb, p, d, l - 1);
      var b: seq<OctElement<T>> := FilterChildOut(t, region, pb, p, d, l - 1);
      FilterChildrenSound(t, region, pb, p, d, l - 1);
      FilterChildSound(t, region, pb, p, d, l - 1);
      forall i | 0 <= i < |a + b|
        ensures ContainsPoint(region, (a + b)[i].pos)
      {
        if i < |a| {
          assert (a + b)[i] == a[i];
        } else {
          assert (a + b)[i] == b[i - |a|];
        }
      }
    }
  }

  lemma {:induction false} FilterChildSound<T>(t: NativeOctree<T>, region: AABB, pb: AABB,
                                               p: int, d: int, l: int)
    requires Frame(t, p, d) && 0 <= l < 8
    ensures AllInside(region, FilterChildOut(t, region, pb, p, d, l))
    decreases t.maxDepth + 1 - d, l, 0
  {
    var cb := Child(pb, l);
    if Intersects(region, cb) {
      var at := ChildOffset(t, p, d, l);
      if t.lookup[at] > t.maxLeafElements && d < t.maxDepth {
        DescentStaysInTables(t, p, d, l);
        FilterChildrenSound(t, region, cb, at + 1, d + 1, 8);
        assert FilterChildOut(t, region, pb, p, d, l) == FilterChildren(t, region, cb, at + 1, d + 1, 8);
      } else {
        FilterSound(region, Span(t, at));
      }
    }
  }

  /** The filter keeps each element of the span at most as often as the span
      holds it. */
  lemma {:induction false} FilterStored<T>(region: AABB, s: seq<OctElement<T>>)
    ensures multiset(Filter(region, s)) <= multiset(s)
  {
    if s != [] {
      var init := s[..|s| - 1];
      FilterStored(region, init);
      assert s == init + [s[|s| - 1]];
    }
  }

  /** Without the shortcut, a step appends only stored elements below it, each
      at most as often as it is stored there. */
  lemma {:induction false} FilterChildrenStored<T>(t: NativeOctree<T>, region: AABB, pb: AABB,
                                                   p: int, d: int, l: int)
    requires Frame(t, p, d) && 0 <= l <= 8
    ensures multiset(FilterChildren(t, region, pb, p, d, l)) <= multiset(AllChildren(t, p, d, l))
    decreases t.maxDepth + 1 - d, l, 1
  {
    if l > 0 {
      FilterChildrenStored(t, region, pb, p, d, l - 1);
      FilterChildStored(t, region, pb, p, d, l - 1);
    }
  }

  lemma {:induction false} FilterChildStored<T>(t: NativeOctree<T>, region: AABB, pb: AABB,
                                                p: int, d: int, l: int)
    requires Frame(t, p, d) && 0 <= l < 8
    ensures multiset(FilterChildOut(t, region, pb, p, d, l)) <= multiset(AllChildOut(t, p, d, l))
    decreases t.maxDepth + 1 - d, l, 0
  {
    var cb := Child(pb, l);
    if Intersects(region, cb) {
      var at := ChildOffset(t, p, d, l);
      if t.lookup[at] > t.maxLeafElements && d < t.maxDepth {
        DescentStaysInTables(t, p, d, l);
        FilterChildrenStored(t, region, cb, at + 1, d + 1, 8);
      } else if t.lookup[at] != 0 {
        FilterStored(region, Span(t, at));
      }
    }
  }

  /** Inside a box the region contains, filtering keeps every leaf span whole. */
  lemma {:induction false} WithinChildren<T>(t: NativeOctree<T>, region: AABB, pb: AABB,
                                             p: int, d: int, l: int)
    requires Frame(t, p, d) && 0 <= l <= 8
    requires Cubic(pb) && Positive(pb) && ContainsBox(region, pb)
    requires LeavesInBoxes(t, pb, p, d, l)
    ensures FilterChildren(t, region, pb, p, d, l) == AllChildren(t, p, d, l)
    decreases t.maxDepth + 1 - d, l, 1
  {
    if l > 0 {
      WithinChildren(t, region, pb, p, d, l - 1);
      WithinChild(t, region, pb, p, d, l - 1);
    }
  }

  lemma {:induction false} WithinChild<T>(t: NativeOctree<T>, region: AABB, pb: AABB,
                                          p: int, d: int, l: int)
    requires Frame(t, p, d) && 0 <= l < 8
    requires Cubic(pb) && Positive(pb) && ContainsBox(region, pb)
    requires ChildLeavesInBox(t, pb, p, d, l)
    ensures FilterChildOut(t, region, pb, p, d, l) == AllChildOut(t, p, d, l)
    decreases t.maxDepth + 1 - d, l, 0
  {
    var cb := Child(pb, l);
    ChildInsideParent(pb, l);
    ContainsBoxTransitive(region, pb, cb);
    ContainedIntersects(region, cb);
    var at := ChildOffset(t, p, d, l);
    if t.lookup[at] > t.maxLeafElements && d < t.maxDepth {
      DescentStaysInTables(t, p, d, l);
      WithinChildren(t, region, cb, at + 1, d + 1, 8);
    } else if t.lookup[at] != 0 {
      SpanInRegion(t, region, cb, at);
    }
  }

  /** A span inside a box the region contains is kept whole by the filter. */
  lemma SpanInRegion<T>(t: NativeOctree<T>, region: AABB, b: AABB, at: int)
    requires SpansInStore(t) && 0 <= at < |t.nodes| && ContainsBox(region, b)
    requires forall i :: 0 <= i < |Span(t, at)| ==> ContainsPoint(b, Span(t, at)[i].pos)
    ensures Filter(region, Span(t, at)) == Span(t, at)
  {
    var span := Span(t, at);
    forall i | 0 <= i < |span|
      ensures ContainsPoint(region, span[i].pos)
    {
      ContainsPointTransitive(region, b, span[i].pos);
    }
    FilterKeepsAll(region, span);
  }

  /** The containment shortcut never changes the answer: when every leaf's
      elements lie in the leaf's box, the descent with the shortcut appends
      exactly what the descent that filters every leaf appends. */
  lemma {:induction false} ShortcutMatchesFilter<T>(t: NativeOctree<T>, region: AABB, pb: AABB,
                                                    p: int, d: int, l: int)
    requires Frame(t, p, d) && 0 <= l <= 8
    requires Positive(pb) && LeavesInBoxes(t, pb, p, d, l)
    ensures Children(t, region, pb, false, p, d, l) == FilterChildren(t, region, pb, p, d, l)
    decreases t.maxDepth + 1 - d, l, 1
  {
    if l > 0 {
      ShortcutMatchesFilter(t, region, pb, p, d, l - 1);
      ShortcutMatchesFilterChild(t, region, pb, p, d, l - 1);
    }
  }

  lemma {:induction false} ShortcutMatchesFilterChild<T>(t: NativeOctree<T>, region: AABB, pb: AABB,
                                                         p: int, d: int, l: int)
    requires Frame(t, p, d) && 0 <= l < 8
    requires Positive(pb) && ChildLeavesInBox(t, pb, p, d, l)
    ensures ChildOut(t, region, pb, false, p, d, l) == FilterChildOut(t, region, pb, p, d, l)
    decreases t.maxDepth + 1 - d, l, 0
  {
    var cb := Child(pb, l);
    var at := ChildOffset(t, p, d, l);
    var internal := t.lookup[at] > t.maxLeafElements && d < t.maxDepth;
    if ContainsBox(region, cb) {
      ContainedIntersects(region, cb);
      if internal {
        DescentStaysInTables(t, p, d, l);
        ContainedChildren(t, region, cb, at + 1, d + 1, 8);
        WithinChildren(t, region, cb, at + 1, d + 1, 8);
      } else if t.lookup[at] != 0 {
        SpanInRegion(t, region, cb, at);
      }
    } else if Intersects(region, cb) && internal {
      DescentStaysInTables(t, p, d, l);
      ShortcutMatchesFilter(t, region, cb, at + 1, d + 1, 8);
    }
  }

  /** A query returns only stored elements inside the region, none more often
      than it is stored, provided every leaf's elements lie in the leaf's box. */
  lemma QuerySound<T>(t: NativeOctree<T>, region: AABB)
    requires ValidTree(t) && Positive(t.bounds) && LeavesInBoxes(t, t.bounds, 1, 1, 8)
    ensures QueryResult(t, region) == FilterChildren(t, region, t.bounds, 1, 1, 8)
    ensures AllInside(region, QueryResult(t, region))
    ensures multiset(QueryResult(t, region)) <= multiset(AllChildren(t, 1, 1, 8))
    ensures forall e :: e in QueryResult(t, region) ==> e in AllChildren(t, 1, 1, 8)
  {
    ShortcutMatchesFilter(t, region, t.bounds, 1, 1, 8);
    FilterChildrenSound(t, region, t.bounds, 1, 1, 8);
    FilterChildrenStored(t, region, t.bounds, 1, 1, 8);
    forall e | e in QueryResult(t, region)
      ensures e in AllChildren(t, 1, 1, 8)
    {
      assert e in multiset(QueryResult(t, region));
    }
  }

  /** A region that does not intersect the (cubic) root box gets nothing. */
  lemma {:induction false} DisjointChildren<T>(t: NativeOctree<T>, region: AABB, l: int)
    requires ValidTree(t) && 0 <= l <= 8
    requires Cubic(t.bounds) && Positive(t.bounds) && !Intersects(region, t.bounds)
    ensures Children(t, region, t.bounds, false, 1, 1, l) == []
  {
    if l > 0 {
      DisjointChildren(t, region, l - 1);
      var cb := Child(t.bounds, l - 1);
      ChildInsideParent(t.bounds, l - 1);
      DisjointFromInner(region, t.bounds, cb);
      if ContainsBox(region, cb) {
        ContainedIntersects(region, cb);
      }
      assert ChildOut(t, region, t.bounds, false, 1, 1, l - 1) == [];
    }
  }

  lemma QueryDisjoint<T>(t: NativeOctree<T>, region: AABB)
    requires ValidTree(t) && Cubic(t.bounds) && Positive(t.bounds) && !Intersects(region, t.bounds)
    ensures QueryResult(t, region) == []
  {
    DisjointChildren(t, region, 8);
  }

  /** A region containing the (cubic) root box gets every leaf span the tree
      reaches, with no box test below the root's children. */
  lemma {:induction false} EnclosingChildren<T>(t: NativeOctree<T>, region: AABB, l: int)
    requires ValidTree(t) && 0 <= l <= 8
    requires Cubic(t.bounds) && NonNegative(t.bounds) && ContainsBox(region, t.bounds)
    ensures Children(t, region, t.bounds, false, 1, 1, l) == AllChildren(t, 1, 1, l)
  {
    if l > 0 {
      EnclosingChildren(t, region, l - 1);
      var cb := Child(t.bounds, l - 1);
      ChildInsideParent(t.bounds, l - 1);
      ContainsBoxTransitive(region, t.bounds, cb);
      ContainedChild(t, region, t.bounds, 1, 1, l - 1);
      assert ChildOut(t, region, t.bounds, false, 1, 1, l - 1)
          == ChildOut(t, region, t.bounds, true, 1, 1, l - 1);
    }
  }

  lemma QueryEnclosing<T>(t: NativeOctree<T>, region: AABB)
    requires ValidTree(t) && Cubic(t.bounds) && NonNegative(t.bounds) && ContainsBox(region, t.bounds)
    ensures QueryResult(t, region) == AllChildren(t, 1, 1, 8)
  {
    EnclosingChildren(t, region, 8);
  }
}
