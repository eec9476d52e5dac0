/** The flat octree as the range query sees it: a read-only value holding the
    per-offset count table, the leaf-descriptor table, the reordered element
    store, the configuration and the per-depth subtree-size table. The build
    that fills these tables is not part of this model; `ValidTree` states the
    facts about them that the query relies on. */
module Octree {
  import opened Geometry

  /** A stored point with its opaque payload. */
  datatype OctElement<T> = OctElement(pos: Vec3, element: T)

  /** A leaf descriptor: the span [firstChildIndex, firstChildIndex + count) of
      the element store. */
  datatype OctNode = OctNode(firstChildIndex: int, count: int)

  datatype NativeOctree<T> = NativeOctree(
    bounds: AABB,
    maxDepth: int,
    maxLeafElements: int,
    lookup: seq<int>,                 // count table, indexed by flat offset
    nodes: seq<OctNode>,              // leaf-descriptor table, same indexing
    elements: seq<OctElement<T>>,     // reordered element store
    depthSizes: seq<int>)             // the per-depth subtree-size table

  /** Entry `j` of the subtree-size table is one node plus eight subtrees of
      the size at `j - 1`. */
  predicate SizeStep(d: seq<int>, j: int)
    requires 1 <= j < |d|
  {
    d[j] == 1 + 8 * d[j - 1]
  }

  /** The subtree-size table follows s(k) = 1 + 8 * s(k - 1) from a
      non-negative start. */
  predicate DepthSizesOk(d: seq<int>)
  {
    |d| > 0 && d[0] >= 0 &&
    forall j :: 1 <= j < |d| ==> SizeStep(d, j)
  }

  /** Number of count-table slots, starting at the first child offset, that a
      descent with table index `k` may read. */
  function Reach(d: seq<int>, k: int): int
    requires DepthSizesOk(d) && 0 <= k < |d|
  {
    if k == 0 then 7 * d[0] + 1 else 8 * d[k]
  }

  /** Every entry of the table is non-negative, and positive past index 0. */
  lemma {:induction false} DepthSizesPositive(d: seq<int>, k: int)
    requires DepthSizesOk(d) && 0 <= k < |d|
    ensures d[k] >= 0 && (k >= 1 ==> d[k] >= 1)
  {
    if k >= 1 {
      assert SizeStep(d, k);
      DepthSizesPositive(d, k - 1);
    }
  }

  /** Every leaf descriptor names a span inside the element store. */
  predicate SpansInStore<T>(t: NativeOctree<T>)
  {
    forall o :: 0 <= o < |t.nodes| ==>
      0 <= t.nodes[o].firstChildIndex && 0 <= t.nodes[o].count &&
      t.nodes[o].firstChildIndex + t.nodes[o].count <= |t.elements|
  }

  /** What the query demands of the tree: a subtree-size table long enough for
      the maximum depth, count and descriptor tables that cover every offset a
      descent from the root can reach, and leaf spans inside the store. */
  predicate ValidTree<T>(t: NativeOctree<T>)
  {
    t.maxDepth >= 0 &&
    DepthSizesOk(t.depthSizes) && t.maxDepth < |t.depthSizes| &&
    |t.nodes| == |t.lookup| &&
    1 + Reach(t.depthSizes, t.maxDepth) <= |t.lookup| &&
    SpansInStore(t)
  }

  /** The arguments of one descent step are well formed: `depth` at least one
      and at most the maximum depth (or the root call of a maximum depth of
      zero), and every slot the step may read is in the tables. */
  predicate Frame<T>(t: NativeOctree<T>, prevOffset: int, depth: int)
  {
    ValidTree(t) &&
    1 <= depth && (depth <= t.maxDepth || depth == 1) &&
    0 <= prevOffset &&
    prevOffset + Reach(t.depthSizes, t.maxDepth - depth + 1) <= |t.lookup|
  }

  /** The subtree size used at `depth` (DepthSizeLookup[maxDepth - depth + 1]). */
  function DepthSize<T>(t: NativeOctree<T>, depth: int): (r: int)
    requires ValidTree(t) && 1 <= depth && (depth <= t.maxDepth || depth == 1)
    ensures r >= 0
  {
    DepthSizesPositive(t.depthSizes, t.maxDepth - depth + 1);
    t.depthSizes[t.maxDepth - depth + 1]
  }

  /** Flat offset of child `l` of the node whose children start at `prevOffset`. */
  function ChildOffset<T>(t: NativeOctree<T>, prevOffset: int, depth: int, l: int): (at: int)
    requires Frame(t, prevOffset, depth) && 0 <= l < 8
    ensures prevOffset <= at < |t.lookup|
  {
    DepthSizesPositive(t.depthSizes, t.maxDepth - depth + 1);
    prevOffset + l * DepthSize(t, depth)
  }

  /** Descending into child `l` (offset `at`, children from `at + 1`, depth
      `depth + 1`) stays inside the tables. */
  lemma DescentStaysInTables<T>(t: NativeOctree<T>, prevOffset: int, depth: int, l: int)
    requires Frame(t, prevOffset, depth) && 0 <= l < 8 && depth < t.maxDepth
    ensures Frame(t, ChildOffset(t, prevOffset, depth, l) + 1, depth + 1)
  {
    var d := t.depthSizes;
    var k := t.maxDepth - depth + 1;
    assert k >= 2;
    assert SizeStep(d, k);
    DepthSizesPositive(d, k);
    assert l * d[k] <= 7 * d[k] by {
      assert (7 - l) * d[k] >= 0;
    }
  }
}
