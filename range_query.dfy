/** The range query itself: the query object with its write cursor, writing
    into the caller's growable result list. Each method is proved against the
    functions of QuerySpec. */
module RangeQuery {
  import opened Geometry
  import opened Octree
  import opened QuerySpec

  lemma AppendAssoc<E>(a: seq<E>, b: seq<E>, c: seq<E>)
    ensures (a + b) + c == a + (b + c)
  {
  }

  /** The caller's result list: a buffer whose length is its capacity, and the
      number of slots in use. */
  class ResultList<T(0)> {
    var data: array<OctElement<T>>
    var length: int

    constructor (capacity: nat)
      ensures fresh(data) && data.Length == capacity && length == 0
    {
      data := new OctElement<T>[capacity];
      length := 0;
    }

    /** Sets the length, growing the buffer to exactly `newLength` slots when
        it is shorter, and keeps every slot of the old buffer. */
    method Resize(newLength: nat)
      modifies this
      ensures length == newLength
      ensures data.Length == if newLength > old(data.Length) then newLength else old(data.Length)
      ensures data[..old(data.Length)] == old(data[..])
      ensures data == old(data) || fresh(data)
    {
      if newLength > data.Length {
        var previous := data;
        var grown := new OctElement<T>[newLength];
        var i := 0;
        while i < previous.Length
          invariant 0 <= i <= previous.Length
          invariant forall j :: 0 <= j < i ==> grown[j] == previous[j]
        {
          grown[i] := previous[i];
          i := i + 1;
        }
        assert grown[..previous.Length] == previous[..];
        data := grown;
      }
      length := newLength;
    }
  }

  /** One query in progress: the tree and region it reads, the result list it
      writes and the write cursor `count`. */
  class OctreeRangeQuery<T(0)> {
    var tree: NativeOctree<T>
    var fastResults: ResultList<T>
    var count: int
    var bounds: AABB

    /** A query object over `tree` that has written nothing yet. */
    constructor (tree: NativeOctree<T>, results: ResultList<T>)
      requires ValidTree(tree)
      ensures this.tree == tree && fastResults == results && count == 0
      ensures Valid() && Written() == []
    {
      this.tree := tree;
      fastResults := results;
      count := 0;
      bounds := tree.bounds;
    }

    ghost predicate Valid()
      reads this, fastResults
    {
      ValidTree(tree) && 0 <= count <= fastResults.data.Length
    }

    /** The results written so far in this query. */
    ghost function Written(): seq<OctElement<T>>
      reads this, fastResults, fastResults.data
      requires Valid()
    {
      fastResults.data[..count]
    }

    /** Queries `bounds`: restarts the cursor at 0, descends from the root and
        sets the list's length to the number of elements written. */
    method Query(tree: NativeOctree<T>, bounds: AABB, results: ResultList<T>)
      requires ValidTree(tree)
      modifies this, results, results.data
      ensures this.tree == tree && this.bounds == bounds && fastResults == results
      ensures Valid()
      ensures results.length == count == |QueryResult(tree, bounds)|
      ensures results.data[..results.length] == QueryResult(tree, bounds)
      ensures results.data.Length >= old(results.data.Length)
    {
      this.tree := tree;
      this.bounds := bounds;
      count := 0;
      fastResults := results;
      RecursiveRangeQuery(tree.bounds, false, 1, 1);
      fastResults.length := count;
      assert fastResults.data[..fastResults.length] == QueryResult(tree, bounds);
    }

    /** Makes room for `needed` more results: when count + needed exceeds the
        capacity, grows it to max(2 * capacity, count + needed). */
    method Reserve(needed: int)
      requires Valid()
      modifies fastResults
      ensures Valid()
      ensures fastResults.data.Length == Grown(count, old(fastResults.data.Length), needed)
      ensures Written() == old(Written())
      ensures fastResults.data == old(fastResults.data) || fresh(fastResults.data)
    {
      var capacity := fastResults.data.Length;
      if count + needed > capacity {
        fastResults.Resize(if capacity * 2 > count + needed then capacity * 2 else count + needed);
      }
    }

    /** The contained path: copies the whole span of `node` to count, count + 1, ...
        and leaves every other slot as it was. */
    method CopySpan(node: OctNode)
      requires Valid()
      requires 0 <= node.firstChildIndex && 0 <= node.count
      requires node.firstChildIndex + node.count <= |tree.elements|
      requires count + node.count <= fastResults.data.Length
      modifies this`count, fastResults.data
      ensures Valid() && count == old(count) + node.count
      ensures Written() == old(Written()) +
        tree.elements[node.firstChildIndex .. node.firstChildIndex + node.count]
      ensures forall i :: count <= i < fastResults.data.Length ==>
        fastResults.data[i] == old(fastResults.data[i])
    {
      var data := fastResults.data;
      var start := count;
      forall k | 0 <= k < node.count {
        data[start + k] := tree.elements[node.firstChildIndex + k];
      }
      count := count + node.count;
      assert Written() == old(Written()) +
        tree.elements[node.firstChildIndex .. node.firstChildIndex + node.count];
    }

    /** The filter path: writes the elements of the span of `node` that lie in
        the query region, in span order, to count, count + 1, ... */
    method FilterSpan(node: OctNode)
      requires Valid()
      requires 0 <= node.firstChildIndex && 0 <= node.count
      requires node.firstChildIndex + node.count <= |tree.elements|
      requires count + node.count <= fastResults.data.Length
      modifies this`count, fastResults.data
      ensures Valid() && old(count) <= count <= old(count) + node.count
      ensures Written() == old(Written()) +
        Filter(bounds, tree.elements[node.firstChildIndex .. node.firstChildIndex + node.count])
      ensures forall i :: count <= i < fastResults.data.Length ==>
        fastResults.data[i] == old(fastResults.data[i])
    {
      var data := fastResults.data;
      ghost var span := tree.elements[node.firstChildIndex .. node.firstChildIndex + node.count];
      for k := 0 to node.count
        invariant Valid() && old(count) <= count <= old(count) + k
        invariant Written() == old(Written()) + Filter(bounds, span[..k])
        invariant forall i :: count <= i < data.Length ==> data[i] == old(data[i])
      {
        var element := tree.elements[node.firstChildIndex + k];
        assert span[..k + 1][..k] == span[..k] && span[k] == element;
        if ContainsPoint(bounds, element.pos) {
          data[count] := element;
          count := count + 1;
        }
      }
      assert span[..node.count] == span;
    }

    /** One descent step: reserves room for 8 * maxLeafElements more results,
        then handles the eight children of the box `parentBounds`, and appends
        exactly what `Children` describes. */
    method RecursiveRangeQuery(parentBounds: AABB, parentContained: bool, prevOffset: int, depth: int)
      requires Valid() && Frame(tree, prevOffset, depth)
      modifies this`count, fastResults, fastResults.data
      ensures Valid()
      ensures fastResults.data == old(fastResults.data) || fresh(fastResults.data)
      ensures fastResults.data.Length >= old(fastResults.data.Length)
      ensures Written() == old(Written()) +
        Children(tree, bounds, parentBounds, parentContained, prevOffset, depth, 8)
      decreases tree.maxDepth + 1 - depth, 2
    {
      Reserve(8 * tree.maxLeafElements);
      QueryChildren(parentBounds, parentContained, prevOffset, depth);
    }

    /** The descent loop: the eight children in order, pruning, recursing or
        writing leaves. */
    method QueryChildren(parentBounds: AABB, parentContained: bool, prevOffset: int, depth: int)
      requires Valid() && Frame(tree, prevOffset, depth)
      modifies this`count, fastResults, fastResults.data
      ensures Valid()
      ensures fastResults.data == old(fastResults.data) || fresh(fastResults.data)
      ensures fastResults.data.Length >= old(fastResults.data.Length)
      ensures Written() == old(Written()) +
        Children(tree, bounds, parentBounds, parentContained, prevOffset, depth, 8)
      decreases tree.maxDepth + 1 - depth, 1
    {
      ghost var start := Written();
      ghost var done: seq<OctElement<T>> := [];
      for l := 0 to 8
        invariant Valid()
        invariant fastResults.data == old(fastResults.data) || fresh(fastResults.data)
        invariant fastResults.data.Length >= old(fastResults.data.Length)
        invariant Written() == start + done
        invariant done == Children(tree, bounds, parentBounds, parentContained, prevOffset, depth, l)
      {
        ghost var next := ChildOut(tree, bounds, parentBounds, parentContained, prevOffset, depth, l);
        QueryChild(parentBounds, parentContained, prevOffset, depth, l);
        AppendAssoc(start, done, next);
        done := done + next;
      }
    }

    /** The body of the descent loop for child `l`: its box, the containment
        and pruning tests, the count read at its flat offset, then a descent,
        a leaf, or nothing. */
    method QueryChild(parentBounds: AABB, parentContained: bool, prevOffset: int, depth: int, l: int)
      requires Valid() && Frame(tree, prevOffset, depth) && 0 <= l < 8
      modifies this`count, fastResults, fastResults.data
      ensures Valid()
      ensures fastResults.data == old(fastResults.data) || fresh(fastResults.data)
      ensures fastResults.data.Length >= old(fastResults.data.Length)
      ensures Written() == old(Written()) +
        ChildOut(tree, bounds, parentBounds, parentContained, prevOffset, depth, l)
      decreases tree.maxDepth + 1 - depth, 0
    {
      var childBounds := Child(parentBounds, l);
      ghost var out := Visit(tree, bounds, childBounds, parentContained, prevOffset, depth, l);
      assert ChildOut(tree, bounds, parentBounds, parentContained, prevOffset, depth, l) == out;
      var contained := parentContained;
      if !contained {
        if ContainsBox(bounds, childBounds) {
          contained := true;
        } else if !Intersects(bounds, childBounds) {
          assert out == [];
          return;
        }
      }
      var at := prevOffset + l * DepthSize(tree, depth);
      assert at == ChildOffset(tree, prevOffset, depth, l);
      var elementCount := tree.lookup[at];
      if elementCount > tree.maxLeafElements && depth < tree.maxDepth {
        DescentStaysInTables(tree, prevOffset, depth, l);
        assert out == Children(tree, bounds, childBounds, contained, at + 1, depth + 1, 8);
        RecursiveRangeQuery(childBounds, contained, at + 1, depth + 1);
      } else if elementCount != 0 {
        assert out == LeafOut(tree, bounds, contained, at);
        QueryLeaf(at, contained);
      } else {
        assert out == [];
      }
    }

    /** A leaf at offset `at`: reserves room for its span, then copies the
        span whole when contained and filters it otherwise. */
    method QueryLeaf(at: int, contained: bool)
      requires Valid() && 0 <= at < |tree.nodes|
      modifies this`count, fastResults, fastResults.data
      ensures Valid()
      ensures fastResults.data == old(fastResults.data) || fresh(fastResults.data)
      ensures fastResults.data.Length >= old(fastResults.data.Length)
      ensures Written() == old(Written()) + LeafOut(tree, bounds, contained, at)
    {
      var node := tree.nodes[at];
      Reserve(node.count);
      if contained {
        CopySpan(node);
      } else {
        FilterSpan(node);
      }
    }
  }
}
