// The bounding-volume tree of the broad phase: a tree of boxes whose leaves hold
// (box, object id) items, the spatial join of two trees, and the refit of all boxes
// from new per-object bounds.
module AabbTrees {
  import opened Wrappers
  import opened Boxes

  /** An object's box and its id, as stored in a leaf. */
  datatype Item = Item(box: Aabb, id: nat)

  /** A tree node: its box, its children and, for a leaf, its items. */
  datatype Node = Node(aabb: Aabb, children: seq<Node>, items: seq<Item>)

  /** A freshly made node: empty box, no children, no items. */
  const EmptyNode: Node := Node(Empty, [], [])

  predicate IsLeaf(n: Node) { |n.children| == 0 }

  /** A node is named by the child indices leading to it from the root. */
  type Path = seq<nat>

  function Subtree(n: Node, x: Path): Option<Node>
    decreases |x|
  {
    if |x| == 0 then Some(n)
    else if x[0] < |n.children| then Subtree(n.children[x[0]], x[1..])
    else None
  }

  /** x names a leaf of l, y a leaf of r, and the two leaf boxes overlap. */
  predicate LeafPairAt(l: Node, r: Node, x: Path, y: Path) {
    Subtree(l, x).Some? && Subtree(r, y).Some?
    && IsLeaf(Subtree(l, x).value) && IsLeaf(Subtree(r, y).value)
    && Intersect(Subtree(l, x).value.aabb, Subtree(r, y).value.aabb)
  }

  /** Every inner box contains its children's boxes and every leaf box its items' boxes. */
  predicate WellBounded(n: Node)
    decreases n
  {
    (forall i :: 0 <= i < |n.children| ==> Contains(n.aabb, n.children[i].aabb) && WellBounded(n.children[i]))
    && (IsLeaf(n) ==> forall i :: 0 <= i < |n.items| ==> Contains(n.aabb, n.items[i].box))
  }

  // ---------------------------------------------------------------------------
  // Spatial join

  /** A pair of nodes reported by the join, named by their paths. */
  datatype NodePair = NodePair(lhs: Path, rhs: Path)

  /** The pairs reported below `l` and `r`, whose paths are `lp` and `rp`, in report order:
      nothing when the boxes miss, the pair itself for two leaves, otherwise the leaf side
      against every child of the other side, or every child against every child. */
  function Join(l: Node, r: Node, lp: Path, rp: Path): seq<NodePair>
    decreases l, r, 3, 0
  {
    if !Intersect(l.aabb, r.aabb) then []
    else if IsLeaf(l) && IsLeaf(r) then [NodePair(lp, rp)]
    else if IsLeaf(l) then JoinRight(l, r, lp, rp, |r.children|)
    else if IsLeaf(r) then JoinLeft(l, r, lp, rp, |l.children|)
    else JoinRows(l, r, lp, rp, |l.children|)
  }

  /** `l` against the first n children of `r`. */
  function JoinRight(l: Node, r: Node, lp: Path, rp: Path, n: nat): seq<NodePair>
    requires n <= |r.children|
    decreases l, r, 2, n
  {
    if n == 0 then []
    else JoinRight(l, r, lp, rp, n - 1) + Join(l, r.children[n - 1], lp, rp + [n - 1])
  }

  /** The first n children of `l` against `r`. */
  function JoinLeft(l: Node, r: Node, lp: Path, rp: Path, n: nat): seq<NodePair>
    requires n <= |l.children|
    decreases l, r, 2, n
  {
    if n == 0 then []
    else JoinLeft(l, r, lp, rp, n - 1) + Join(l.children[n - 1], r, lp + [n - 1], rp)
  }

  /** Each of the first n children of `l` against every child of `r`, row by row. */
  function JoinRows(l: Node, r: Node, lp: Path, rp: Path, n: nat): seq<NodePair>
    requires n <= |l.children|
    decreases l, r, 2, n
  {
    if n == 0 then []
    else JoinRows(l, r, lp, rp, n - 1) + JoinRight(l.children[n - 1], r, lp + [n - 1], rp, |r.children|)
  }

  /** The subtree one step below a node. */
  lemma SubtreeStep(n: Node, i: nat, x: Path)
    requires i < |n.children|
    ensures Subtree(n, [i] + x) == Subtree(n.children[i], x)
  {
    assert ([i] + x)[1..] == x;
  }

  /** A leaf pair below a child of `r` is a leaf pair below `r`. */
  lemma StepRight(l: Node, r: Node, j: nat, x: Path, y: Path)
    requires j < |r.children| && LeafPairAt(l, r.children[j], x, y)
    ensures LeafPairAt(l, r, x, [j] + y) && ([j] + y)[0] == j
  {
    SubtreeStep(r, j, y);
  }

  /** A leaf pair below a child of `l` is a leaf pair below `l`. */
  lemma StepLeft(l: Node, r: Node, i: nat, x: Path, y: Path)
    requires i < |l.children| && LeafPairAt(l.children[i], r, x, y)
    ensures LeafPairAt(l, r, [i] + x, y) && ([i] + x)[0] == i
  {
    SubtreeStep(l, i, x);
  }

  /** p names a leaf of l below lp and a leaf of r below rp whose boxes overlap. */
  ghost predicate PairBelow(l: Node, r: Node, lp: Path, rp: Path, p: NodePair) {
    exists x, y :: p == NodePair(lp + x, rp + y) && LeafPairAt(l, r, x, y)
  }

  /** Soundness: every reported pair names two leaves, below l and r, whose boxes overlap. */
  lemma {:induction false} JoinSound(l: Node, r: Node, lp: Path, rp: Path)
    ensures forall p :: p in Join(l, r, lp, rp) ==> PairBelow(l, r, lp, rp, p)
    decreases l, r, 3, 0
  {
    if !Intersect(l.aabb, r.aabb) {
    } else if IsLeaf(l) && IsLeaf(r) {
      assert lp + [] == lp && rp + [] == rp;
      assert LeafPairAt(l, r, [], []);
      assert PairBelow(l, r, lp, rp, NodePair(lp + [], rp + []));
    } else if IsLeaf(l) {
      JoinRightSound(l, r, lp, rp, |r.children|);
    } else if IsLeaf(r) {
      JoinLeftSound(l, r, lp, rp, |l.children|);
    } else {
      JoinRowsSound(l, r, lp, rp, |l.children|);
    }
  }

  lemma {:induction false} JoinRightSound(l: Node, r: Node, lp: Path, rp: Path, n: nat)
    requires n <= |r.children|
    ensures forall p :: p in JoinRight(l, r, lp, rp, n) ==>
              PairBelow(l, r, lp, rp, p) && |p.rhs| > |rp| && p.rhs[|rp|] < n
    decreases l, r, 2, n
  {
    if n > 0 {
      var k := n - 1;
      JoinRightSound(l, r, lp, rp, k);
      JoinSound(l, r.children[k], lp, rp + [k]);
      forall p | p in Join(l, r.children[k], lp, rp + [k])
        ensures PairBelow(l, r, lp, rp, p) && |p.rhs| > |rp| && p.rhs[|rp|] < n
      {
        assert PairBelow(l, r.children[k], lp, rp + [k], p);
        var x, y :| p == NodePair(lp + x, rp + [k] + y) && LeafPairAt(l, r.children[k], x, y);
        StepRight(l, r, k, x, y);
        assert rp + [k] + y == rp + ([k] + y);
        assert p == NodePair(lp + x, rp + ([k] + y));
      }
    }
  }

  lemma {:induction false} JoinLeftSound(l: Node, r: Node, lp: Path, rp: Path, n: nat)
    requires n <= |l.children|
    ensures forall p :: p in JoinLeft(l, r, lp, rp, n) ==>
              PairBelow(l, r, lp, rp, p) && |p.lhs| > |lp| && p.lhs[|lp|] < n
    decreases l, r, 2, n
  {
    if n > 0 {
      var k := n - 1;
      JoinLeftSound(l, r, lp, rp, k);
      JoinSound(l.children[k], r, lp + [k], rp);
      forall p | p in Join(l.children[k], r, lp + [k], rp)
        ensures PairBelow(l, r, lp, rp, p) && |p.lhs| > |lp| && p.lhs[|lp|] < n
      {
        assert PairBelow(l.children[k], r, lp + [k], rp, p);
        var x, y :| p == NodePair(lp + [k] + x, rp + y) && LeafPairAt(l.children[k], r, x, y);
        StepLeft(l, r, k, x, y);
        assert lp + [k] + x == lp + ([k] + x);
        assert p == NodePair(lp + ([k] + x), rp + y);
      }
    }
  }

  lemma {:induction false} JoinRowsSound(l: Node, r: Node, lp: Path, rp: Path, n: nat)
    requires n <= |l.children|
    ensures forall p :: p in JoinRows(l, r, lp, rp, n) ==>
              PairBelow(l, r, lp, rp, p) && |p.lhs| > |lp| && p.lhs[|lp|] < n
    decreases l, r, 2, n
  {
    if n > 0 {
      var k := n - 1;
      var m := |r.children|;
      JoinRowsSound(l, r, lp, rp, k);
      JoinRightSound(l.children[k], r, lp + [k], rp, m);
      forall p | p in JoinRight(l.children[k], r, lp + [k], rp, m)
        ensures PairBelow(l, r, lp, rp, p) && |p.lhs| > |lp| && p.lhs[|lp|] < n
      {
        assert PairBelow(l.children[k], r, lp + [k], rp, p);
        var x, y :| p == NodePair(lp + [k] + x, rp + y) && LeafPairAt(l.children[k], r, x, y);
        StepLeft(l, r, k, x, y);
        assert lp + [k] + x == lp + ([k] + x);
        assert p == NodePair(lp + ([k] + x), rp + y);
      }
    }
  }

  lemma ContainsReflexive(a: Aabb)
    ensures Contains(a, a)
  {
  }

  /** In a well-bounded tree every subtree's box lies in the root box. */
  lemma {:induction false} SubtreeContained(n: Node, x: Path)
    requires WellBounded(n) && Subtree(n, x).Some?
    ensures Contains(n.aabb, Subtree(n, x).value.aabb)
    decreases |x|
  {
    if |x| > 0 {
      var c := n.children[x[0]];
      SubtreeContained(c, x[1..]);
      ContainsTransitive(n.aabb, c.aabb, Subtree(n, x).value.aabb);
    } else {
      ContainsReflexive(n.aabb);
    }
  }

  /** Completeness: when both trees are well bounded, every pair of leaves whose boxes
      overlap is reported. */
  lemma {:induction false} JoinComplete(l: Node, r: Node, lp: Path, rp: Path, x: Path, y: Path)
    requires WellBounded(l) && WellBounded(r) && LeafPairAt(l, r, x, y)
    ensures NodePair(lp + x, rp + y) in Join(l, r, lp, rp)
    decreases l, r, 3, 0
  {
    SubtreeContained(l, x);
    SubtreeContained(r, y);
    IntersectGrows(l.aabb, Subtree(l, x).value.aabb, r.aabb, Subtree(r, y).value.aabb);
    if IsLeaf(l) && IsLeaf(r) {
      assert |x| == 0 && |y| == 0;
      assert lp + x == lp && rp + y == rp;
    } else if IsLeaf(l) {
      assert |x| == 0 && |y| > 0;
      JoinRightComplete(l, r, lp, rp, |r.children|, x, y);
    } else if IsLeaf(r) {
      assert |x| > 0 && |y| == 0;
      JoinLeftComplete(l, r, lp, rp, |l.children|, x, y);
    } else {
      assert |x| > 0 && |y| > 0;
      JoinRowsComplete(l, r, lp, rp, |l.children|, x, y);
    }
  }

  lemma {:induction false} JoinRightComplete(l: Node, r: Node, lp: Path, rp: Path, n: nat, x: Path, y: Path)
    requires n <= |r.children|
    requires WellBounded(l) && WellBounded(r) && LeafPairAt(l, r, x, y) && |y| > 0 && y[0] < n
    ensures NodePair(lp + x, rp + y) in JoinRight(l, r, lp, rp, n)
    decreases l, r, 2, n
  {
    var j := y[0];
    if j < n - 1 {
      JoinRightComplete(l, r, lp, rp, n - 1, x, y);
    } else {
      assert y == [j] + y[1..];
      SubtreeStep(r, j, y[1..]);
      assert rp + y == rp + [j] + y[1..];
      JoinComplete(l, r.children[j], lp, rp + [j], x, y[1..]);
    }
  }

  lemma {:induction false} JoinLeftComplete(l: Node, r: Node, lp: Path, rp: Path, n: nat, x: Path, y: Path)
    requires n <= |l.children|
    requires WellBounded(l) && WellBounded(r) && LeafPairAt(l, r, x, y) && |x| > 0 && x[0] < n
    ensures NodePair(lp + x, rp + y) in JoinLeft(l, r, lp, rp, n)
    decreases l, r, 2, n
  {
    var i := x[0];
    if i < n - 1 {
      JoinLeftComplete(l, r, lp, rp, n - 1, x, y);
    } else {
      assert x == [i] + x[1..];
      SubtreeStep(l, i, x[1..]);
      assert lp + x == lp + [i] + x[1..];
      JoinComplete(l.children[i], r, lp + [i], rp, x[1..], y);
    }
  }

  lemma {:induction false} JoinRowsComplete(l: Node, r: Node, lp: Path, rp: Path, n: nat, x: Path, y: Path)
    requires n <= |l.children| && !IsLeaf(r)
    requires WellBounded(l) && WellBounded(r) && LeafPairAt(l, r, x, y) && |x| > 0 && x[0] < n
    ensures NodePair(lp + x, rp + y) in JoinRows(l, r, lp, rp, n)
    decreases l, r, 2, n
  {
    var i := x[0];
    if i < n - 1 {
      JoinRowsComplete(l, r, lp, rp, n - 1, x, y);
    } else {
      assert x == [i] + x[1..];
      SubtreeStep(l, i, x[1..]);
      assert lp + x == lp + [i] + x[1..];
      assert |y| > 0;
      JoinRightComplete(l.children[i], r, lp + [i], rp, |r.children|, x[1..], y);
    }
  }

  predicate NoDuplicates(s: seq<NodePair>) {
    forall i, j :: 0 <= i < j < |s| ==> s[i] != s[j]
  }

  lemma DistinctConcat(a: seq<NodePair>, b: seq<NodePair>)
    requires NoDuplicates(a) && NoDuplicates(b)
    requires forall p :: p in a ==> p !in b
    ensures NoDuplicates(a + b)
  {
    forall i, j | 0 <= i < j < |a + b|
      ensures (a + b)[i] != (a + b)[j]
    {
      if i < |a| && j >= |a| {
        assert (a + b)[i] in a;
        assert (a + b)[j] == b[j - |a|];
      } else if i >= |a| {
        assert (a + b)[i] == b[i - |a|] && (a + b)[j] == b[j - |a|];
      }
    }
  }

  /** Each pair is reported at most once. */
  lemma {:induction false} JoinDistinct(l: Node, r: Node, lp: Path, rp: Path)
    ensures NoDuplicates(Join(l, r, lp, rp))
    decreases l, r, 3, 0
  {
    if !Intersect(l.aabb, r.aabb) || (IsLeaf(l) && IsLeaf(r)) {
    } else if IsLeaf(l) {
      JoinRightDistinct(l, r, lp, rp, |r.children|);
    } else if IsLeaf(r) {
      JoinLeftDistinct(l, r, lp, rp, |l.children|);
    } else {
      JoinRowsDistinct(l, r, lp, rp, |l.children|);
    }
  }

  lemma {:induction false} JoinRightDistinct(l: Node, r: Node, lp: Path, rp: Path, n: nat)
    requires n <= |r.children|
    ensures NoDuplicates(JoinRight(l, r, lp, rp, n))
    decreases l, r, 2, n
  {
    if n > 0 {
      var front := JoinRight(l, r, lp, rp, n - 1);
      var last := Join(l, r.children[n - 1], lp, rp + [n - 1]);
      JoinRightDistinct(l, r, lp, rp, n - 1);
      JoinDistinct(l, r.children[n - 1], lp, rp + [n - 1]);
      JoinRightSound(l, r, lp, rp, n - 1);
      JoinSound(l, r.children[n - 1], lp, rp + [n - 1]);
      forall q | q in last
        ensures |q.rhs| > |rp| && q.rhs[|rp|] == n - 1
      {
        assert PairBelow(l, r.children[n - 1], lp, rp + [n - 1], q);
        var x, y :| q == NodePair(lp + x, rp + [n - 1] + y) && LeafPairAt(l, r.children[n - 1], x, y);
      }
      DistinctConcat(front, last);
    }
  }

  lemma {:induction false} JoinLeftDistinct(l: Node, r: Node, lp: Path, rp: Path, n: nat)
    requires n <= |l.children|
    ensures NoDuplicates(JoinLeft(l, r, lp, rp, n))
    decreases l, r, 2, n
  {
    if n > 0 {
      var front := JoinLeft(l, r, lp, rp, n - 1);
      var last := Join(l.children[n - 1], r, lp + [n - 1], rp);
      JoinLeftDistinct(l, r, lp, rp, n - 1);
      JoinDistinct(l.children[n - 1], r, lp + [n - 1], rp);
      JoinLeftSound(l, r, lp, rp, n - 1);
      JoinSound(l.children[n - 1], r, lp + [n - 1], rp);
      forall q | q in last
        ensures |q.lhs| > |lp| && q.lhs[|lp|] == n - 1
      {
        assert PairBelow(l.children[n - 1], r, lp + [n - 1], rp, q);
        var x, y :| q == NodePair(lp + [n - 1] + x, rp + y) && LeafPairAt(l.children[n - 1], r, x, y);
      }
      DistinctConcat(front, last);
    }
  }

  lemma {:induction false} JoinRowsDistinct(l: Node, r: Node, lp: Path, rp: Path, n: nat)
    requires n <= |l.children|
    ensures NoDuplicates(JoinRows(l, r, lp, rp, n))
    decreases l, r, 2, n
  {
    if n > 0 {
      var front := JoinRows(l, r, lp, rp, n - 1);
      var last := JoinRight(l.children[n - 1], r, lp + [n - 1], rp, |r.children|);
      JoinRowsDistinct(l, r, lp, rp, n - 1);
      JoinRightDistinct(l.children[n - 1], r, lp + [n - 1], rp, |r.children|);
      JoinRowsSound(l, r, lp, rp, n - 1);
      JoinRightSound(l.children[n - 1], r, lp + [n - 1], rp, |r.children|);
      forall q | q in last
        ensures |q.lhs| > |lp| && q.lhs[|lp|] == n - 1
      {
        assert PairBelow(l.children[n - 1], r, lp + [n - 1], rp, q);
        var x, y :| q == NodePair(lp + [n - 1] + x, rp + y) && LeafPairAt(l.children[n - 1], r, x, y);
      }
      DistinctConcat(front, last);
    }
  }

  /** The recursive join, appending to `result` as it goes. */
  method SpatialJoinNodes(l: Node, r: Node, lp: Path, rp: Path, result: seq<NodePair>)
    returns (out: seq<NodePair>)
    ensures out == result + Join(l, r, lp, rp)
    decreases l, r
  {
    if !Intersect(l.aabb, r.aabb) {
      return result;
    }
    if IsLeaf(l) && IsLeaf(r) {
      return result + [NodePair(lp, rp)];
    }
    out := result;
    if IsLeaf(l) {
      for j := 0 to |r.children|
        invariant out == result + JoinRight(l, r, lp, rp, j)
      {
        out := SpatialJoinNodes(l, r.children[j], lp, rp + [j], out);
      }
    } else if IsLeaf(r) {
      for i := 0 to |l.children|
        invariant out == result + JoinLeft(l, r, lp, rp, i)
      {
        out := SpatialJoinNodes(l.children[i], r, lp + [i], rp, out);
      }
    } else {
      for i := 0 to |l.children|
        invariant out == result + JoinRows(l, r, lp, rp, i)
      {
        for j := 0 to |r.children|
          invariant out == result + JoinRows(l, r, lp, rp, i) + JoinRight(l.children[i], r, lp + [i], rp, j)
        {
          out := SpatialJoinNodes(l.children[i], r.children[j], lp + [i], rp + [j], out);
        }
      }
    }
  }

  // ---------------------------------------------------------------------------
  // Refit

  /** Every item id is an index into the bounds. */
  predicate IdsBelow(n: Node, count: nat)
    decreases n
  {
    (forall i :: 0 <= i < |n.items| ==> n.items[i].id < count)
    && (forall i :: 0 <= i < |n.children| ==> IdsBelow(n.children[i], count))
  }

  /** The smallest box holding every item's box (an empty leaf has an empty box). */
  function ItemsBox(items: seq<Item>): Aabb {
    if |items| == 0 then Empty else Merge(ItemsBox(items[..|items| - 1]), items[|items| - 1].box)
  }

  /** The smallest box holding every node's box. */
  function NodesBox(nodes: seq<Node>): Aabb {
    if |nodes| == 0 then Empty else Merge(NodesBox(nodes[..|nodes| - 1]), nodes[|nodes| - 1].aabb)
  }

  /** The tree with every leaf item's box replaced by the bounds of its object and every
      node box recomputed bottom-up. */
  function Refit(bounds: seq<Aabb>, n: Node): Node
    requires IdsBelow(n, |bounds|)
    decreases n
  {
    if IsLeaf(n) then
      var items := seq(|n.items|, i requires 0 <= i < |n.items| => Item(bounds[n.items[i].id], n.items[i].id));
      Node(ItemsBox(items), [], items)
    else
      var kids := seq(|n.children|, i requires 0 <= i < |n.children| => Refit(bounds, n.children[i]));
      Node(NodesBox(kids), kids, n.items)
  }

  lemma {:induction false} ItemsBoxContains(items: seq<Item>)
    ensures forall i :: 0 <= i < |items| ==> Contains(ItemsBox(items), items[i].box)
  {
    if |items| > 0 {
      var front := items[..|items| - 1];
      ItemsBoxContains(front);
      forall i | 0 <= i < |items|
        ensures Contains(ItemsBox(items), items[i].box)
      {
        if i < |items| - 1 {
          assert items[i] == front[i];
          ContainsTransitive(ItemsBox(items), ItemsBox(front), items[i].box);
        }
      }
    }
  }

  lemma {:induction false} NodesBoxContains(nodes: seq<Node>)
    ensures forall i :: 0 <= i < |nodes| ==> Contains(NodesBox(nodes), nodes[i].aabb)
  {
    if |nodes| > 0 {
      var front := nodes[..|nodes| - 1];
      NodesBoxContains(front);
      forall i | 0 <= i < |nodes|
        ensures Contains(NodesBox(nodes), nodes[i].aabb)
      {
        if i < |nodes| - 1 {
          assert nodes[i] == front[i];
          ContainsTransitive(NodesBox(nodes), NodesBox(front), nodes[i].aabb);
        }
      }
    }
  }

  /** The refit keeps the shape and the ids, gives each item the bounds of its object, and
      leaves a well-bounded tree, which is what the join's completeness needs. */
  lemma {:induction false} RefitWellBounded(bounds: seq<Aabb>, n: Node)
    requires IdsBelow(n, |bounds|)
    ensures WellBounded(Refit(bounds, n))
    ensures |Refit(bounds, n).children| == |n.children| && |Refit(bounds, n).items| == |n.items|
    ensures IsLeaf(n) ==> forall i :: 0 <= i < |n.items| ==>
              Refit(bounds, n).items[i] == Item(bounds[n.items[i].id], n.items[i].id)
    decreases n
  {
    var m := Refit(bounds, n);
    if IsLeaf(n) {
      ItemsBoxContains(m.items);
    } else {
      NodesBoxContains(m.children);
      forall i | 0 <= i < |n.children|
        ensures WellBounded(m.children[i])
      {
        RefitWellBounded(bounds, n.children[i]);
      }
    }
  }

  /** updateNodeBounds: the children first, then this node's box as the union of theirs; a
      leaf takes its items' new bounds and their union. */
  method UpdateNodeBounds(bounds: seq<Aabb>, node: Node) returns (updated: Node)
    requires IdsBelow(node, |bounds|)
    ensures updated == Refit(bounds, node)
    decreases node
  {
    var numChildren := |node.children|;
    if numChildren > 0 {
      var child := UpdateNodeBounds(bounds, node.children[0]);
      var kids := [child];
      var aabb := child.aabb;
      assert aabb == NodesBox(kids);
      for i := 1 to numChildren
        invariant |kids| == i
        invariant forall k :: 0 <= k < i ==> kids[k] == Refit(bounds, node.children[k])
        invariant aabb == NodesBox(kids)
      {
        child := UpdateNodeBounds(bounds, node.children[i]);
        kids := kids + [child];
        assert kids[..|kids| - 1] == kids[..i];
        aabb := Merge(aabb, child.aabb);
      }
      assert kids == Refit(bounds, node).children;
      updated := Node(aabb, kids, node.items);
    } else {
      var items := [];
      for i := 0 to |node.items|
        invariant |items| == i
        invariant forall k :: 0 <= k < i ==> items[k] == Item(bounds[node.items[k].id], node.items[k].id)
      {
        items := items + [Item(bounds[node.items[i].id], node.items[i].id)];
      }
      assert items == Refit(bounds, node).items;
      updated := Node(ItemsBox(items), [], items);
    }
  }

  // ---------------------------------------------------------------------------
  // The tree object

  /** How a node takes new items; AabbTreeNode's insertion and split are not part of this model. */
  type AddData = (Node, Aabb, nat, nat) -> Node
  type SetData = (Node, seq<Item>, nat) -> Node

  class AabbTree {
    const maxObjectsPerNode: nat
    var root: Node

    /** The default tree: at most three objects per node, an empty root. */
    constructor ()
      ensures maxObjectsPerNode == 3 && root == EmptyNode
    {
      maxObjectsPerNode := 3;
      root := EmptyNode;
    }

    constructor WithMaximum(maxObjects: nat)
      ensures maxObjectsPerNode == maxObjects && root == EmptyNode
    {
      maxObjectsPerNode := maxObjects;
      root := EmptyNode;
    }

    /** Insert one object into the existing root. */
    method Add(box: Aabb, objectId: nat, addData: AddData)
      modifies this
      ensures root == addData(old(root), box, objectId, maxObjectsPerNode)
    {
      root := addData(root, box, objectId, maxObjectsPerNode);
    }

    /** Replace the whole tree: the items go into a fresh root, whatever the old tree held. */
    method Set(items: seq<Item>, setData: SetData)
      modifies this
      ensures root == setData(EmptyNode, items, maxObjectsPerNode)
    {
      root := EmptyNode;
      root := setData(root, items, maxObjectsPerNode);
    }

    /** The pairs of overlapping leaves of this tree and `other`. */
    method SpatialJoin(other: AabbTree) returns (result: seq<NodePair>)
      ensures result == Join(root, other.root, [], [])
    {
      result := SpatialJoinNodes(root, other.root, [], [], []);
    }

    /** Refit every box from the new per-object bounds. */
    method UpdateBounds(bounds: seq<Aabb>)
      requires IdsBelow(root, |bounds|)
      modifies this
      ensures root == Refit(bounds, old(root)) && WellBounded(root)
    {
      RefitWellBounded(bounds, root);
      root := UpdateNodeBounds(bounds, root);
    }
  }
}
