/**
 * The octree over the world: its cubic world bounds, its root cell, and the
 * collection of its empty leaves into the navigation graph, where every two
 * sibling empty leaves are joined by an edge.
 */
module Octrees {
  import opened Common
  import opened Geometry
  import opened OctreeNodes
  import opened NavGraph

  // ---------------------------------------------------------------- leaves

  /** A cell that `GetEmptyLeaves` collects: undivided and without obstacles. */
  predicate IsEmptyLeaf(n: OctreeNode)
  {
    n.IsLeaf() && |n.objects| == 0
  }

  function NumChildren(t: OctreeNode): nat
  {
    if t.children.Children? then |t.children.cells| else 0
  }

  /** The empty leaves of a subtree, depth first, children in index order. */
  function EmptyLeaves(t: OctreeNode): seq<OctreeNode>
    decreases t, NumChildren(t) + 1
  {
    if IsEmptyLeaf(t) then [t]
    else if t.children.NoChildren? then []
    else LeavesBelow(t, |t.children.cells|)
  }

  /** The empty leaves under the first `k` children of `t`. */
  function LeavesBelow(t: OctreeNode, k: nat): seq<OctreeNode>
    requires t.children.Children? && k <= |t.children.cells|
    decreases t, k
  {
    if k == 0 then []
    else
      var c := t.children.cells[k - 1];
      assert c in t.children.cells;
      LeavesBelow(t, k - 1) + EmptyLeaves(c)
  }

  function HandlesOf(s: seq<OctreeNode>): set<nat>
  {
    set n | n in s :: n.handle
  }

  /** The handles of the empty leaves of a subtree. */
  function LeafHandles(t: OctreeNode): set<nat>
  {
    HandlesOf(EmptyLeaves(t))
  }

  /** The handles of the cells of a subtree that are not empty leaves. */
  function OtherHandles(t: OctreeNode): set<nat>
    decreases t, NumChildren(t) + 1
  {
    if IsEmptyLeaf(t) then {}
    else if t.children.NoChildren? then {t.handle}
    else {t.handle} + OthersBelow(t, |t.children.cells|)
  }

  function OthersBelow(t: OctreeNode, k: nat): set<nat>
    requires t.children.Children? && k <= |t.children.cells|
    decreases t, k
  {
    if k == 0 then {}
    else
      var c := t.children.cells[k - 1];
      assert c in t.children.cells;
      OthersBelow(t, k - 1) + OtherHandles(c)
  }

  /** Pairs of handles of two children `i < j` of `t` that are both empty leaves. */
  function LocalPairs(t: OctreeNode): set<(nat, nat)>
  {
    if t.children.NoChildren? then {}
    else
      var cs := t.children.cells;
      set i, j | 0 <= i < j < |cs| && IsEmptyLeaf(cs[i]) && IsEmptyLeaf(cs[j]) :: (cs[i].handle, cs[j].handle)
  }

  /** Every pair of sibling empty leaves in a subtree, the earlier sibling first. */
  function EmptySiblingPairs(t: OctreeNode): set<(nat, nat)>
    decreases t, NumChildren(t) + 1
  {
    if t.children.NoChildren? then {}
    else PairsBelow(t, |t.children.cells|) + LocalPairs(t)
  }

  function PairsBelow(t: OctreeNode, k: nat): set<(nat, nat)>
    requires t.children.Children? && k <= |t.children.cells|
    decreases t, k
  {
    if k == 0 then {}
    else
      var c := t.children.cells[k - 1];
      assert c in t.children.cells;
      PairsBelow(t, k - 1) + EmptySiblingPairs(c)
  }

  lemma HandlesOfAppend(a: seq<OctreeNode>, b: seq<OctreeNode>)
    ensures HandlesOf(a + b) == HandlesOf(a) + HandlesOf(b)
  {
    assert forall n :: n in a + b <==> n in a || n in b;
  }

  /** What the first `k` children contribute is part of what all of them contribute. */
  lemma {:induction false} BelowGrows(t: OctreeNode, k: nat, m: nat)
    requires t.children.Children? && k <= m <= |t.children.cells|
    ensures HandlesOf(LeavesBelow(t, k)) <= HandlesOf(LeavesBelow(t, m))
    ensures OthersBelow(t, k) <= OthersBelow(t, m)
    ensures PairsBelow(t, k) <= PairsBelow(t, m)
    decreases m - k
  {
    if k < m {
      BelowGrows(t, k, m - 1);
      HandlesOfAppend(LeavesBelow(t, m - 1), EmptyLeaves(t.children.cells[m - 1]));
    }
  }

  /**
   * Child `k` of an internal cell: its leaves, other cells and sibling pairs
   * are among the parent's, and so are those of the children before it.
   */
  lemma ChildWithin(t: OctreeNode, k: nat)
    requires !IsEmptyLeaf(t) && t.children.Children? && k < |t.children.cells|
    ensures LeafHandles(t.children.cells[k]) <= LeafHandles(t)
    ensures HandlesOf(LeavesBelow(t, k)) <= LeafHandles(t)
    ensures OtherHandles(t.children.cells[k]) <= OtherHandles(t)
    ensures EmptySiblingPairs(t.children.cells[k]) <= EmptySiblingPairs(t)
  {
    var n := |t.children.cells|;
    BelowGrows(t, k + 1, n);
    BelowGrows(t, k, n);
    HandlesOfAppend(LeavesBelow(t, k), EmptyLeaves(t.children.cells[k]));
  }

  /** For an internal cell, the leaves and pairs are those below its children, plus its own pairs. */
  lemma BelowIsAll(t: OctreeNode)
    requires t.children.Children? && !IsEmptyLeaf(t)
    ensures EmptyLeaves(t) == LeavesBelow(t, |t.children.cells|)
    ensures LeafHandles(t) == HandlesOf(LeavesBelow(t, |t.children.cells|))
    ensures EmptySiblingPairs(t) == PairsBelow(t, |t.children.cells|) + LocalPairs(t)
  {
  }

  /**
   * The root of a subtree is an empty leaf of it or one of its other cells;
   * where no handle is both (as `FreshFor` demands), the root's handle is an
   * empty leaf's exactly when the root is an empty leaf.
   */
  lemma RootHandle(t: OctreeNode)
    ensures IsEmptyLeaf(t) ==> t.handle in LeafHandles(t)
    ensures !IsEmptyLeaf(t) ==> t.handle in OtherHandles(t)
    ensures OtherHandles(t) !! LeafHandles(t) ==> (t.handle in LeafHandles(t) <==> IsEmptyLeaf(t))
  {
    if IsEmptyLeaf(t) {
      assert EmptyLeaves(t) == [t];
    }
  }

  /**
   * An undivided cell is its whole subtree: its own empty leaf when it holds
   * no obstacle, its only other cell otherwise, and never part of a pair.
   */
  lemma LeafIsWholeSubtree(t: OctreeNode)
    requires t.IsLeaf()
    ensures EmptyLeaves(t) == (if |t.objects| == 0 then [t] else [])
    ensures OtherHandles(t) == (if |t.objects| == 0 then {} else {t.handle})
    ensures EmptySiblingPairs(t) == {}
  {
  }

  // ---------------------------------------------------------------- edges between cells

  /**
   * No cell of `t` other than its empty leaves has a node yet, and no handle
   * is both an empty leaf's and another cell's.
   */
  ghost predicate FreshFor(t: OctreeNode, keys: set<nat>)
  {
    forall h {:trigger h in OtherHandles(t)} | h in OtherHandles(t) :: h !in keys && h !in LeafHandles(t)
  }

  /** The node of cell `a` and the node of cell `b` are joined by an edge. */
  ghost predicate CellsLinked(nodes: map<nat, nat>, edges: set<Edge>, a: nat, b: nat)
  {
    a in nodes && b in nodes && HasEdge(edges, Edge(nodes[a], nodes[b]))
  }

  /** Every pair of cells in `pairs` is linked. */
  ghost predicate PairsLinked(nodes: map<nat, nat>, edges: set<Edge>, pairs: set<(nat, nat)>)
  {
    forall p | p in pairs :: CellsLinked(nodes, edges, p.0, p.1)
  }

  /** Every edge of `edges` that is not in `edges0` joins, in order, the two cells of a pair in `pairs`. */
  ghost predicate NewEdgesFrom(store: seq<Node>, edges0: set<Edge>, edges: set<Edge>, pairs: set<(nat, nat)>)
  {
    forall e | e in edges && e !in edges0 ::
      e.x < |store| && e.y < |store| && (store[e.x].cell, store[e.y].cell) in pairs
  }

  /**
   * From graph `(n0, s0, e0)` to graph `(n1, s1, e1)`: the node table gains
   * exactly the cells `cells`, nothing of the old graph is lost, every pair of
   * `pairs` is linked, and every new edge joins the cells of such a pair.
   */
  ghost predicate Grown(n0: map<nat, nat>, s0: seq<Node>, e0: set<Edge>,
                        n1: map<nat, nat>, s1: seq<Node>, e1: set<Edge>,
                        cells: set<nat>, pairs: set<(nat, nat)>)
  {
    && n1.Keys == n0.Keys + cells
    && Extends(n0, s0, e0, n1, s1, e1)
    && PairsLinked(n1, e1, pairs)
    && NewEdgesFrom(s1, e0, e1, pairs)
  }

  /** Two growth steps make one: the cells and the pairs add up. */
  lemma GrownTwice(n0: map<nat, nat>, s0: seq<Node>, e0: set<Edge>,
                   n1: map<nat, nat>, s1: seq<Node>, e1: set<Edge>,
                   n2: map<nat, nat>, s2: seq<Node>, e2: set<Edge>,
                   cells1: set<nat>, pairs1: set<(nat, nat)>, cells2: set<nat>, pairs2: set<(nat, nat)>)
    requires Grown(n0, s0, e0, n1, s1, e1, cells1, pairs1)
    requires Grown(n1, s1, e1, n2, s2, e2, cells2, pairs2)
    ensures Grown(n0, s0, e0, n2, s2, e2, cells1 + cells2, pairs1 + pairs2)
  {
    forall p | p in pairs1
      ensures CellsLinked(n2, e2, p.0, p.1)
    {
      assert CellsLinked(n1, e1, p.0, p.1);
    }
    forall e | e in e2 && e !in e0
      ensures e.x < |s2| && e.y < |s2| && (s2[e.x].cell, s2[e.y].cell) in pairs1 + pairs2
    {
      if e in e1 {
        assert e.x < |s1| && e.y < |s1| && (s1[e.x].cell, s1[e.y].cell) in pairs1;
      }
    }
  }

  /**
   * Before the walk into child `k` of an internal cell, the precondition of
   * `GetEmptyLeaves` holds for that child.
   */
  lemma ChildPrecondition(t: OctreeNode, k: nat, n0: map<nat, nat>, n1: map<nat, nat>)
    requires t.children.Children? && !IsEmptyLeaf(t) && k < |t.children.cells|
    requires FreshFor(t, n0.Keys)
    requires n1.Keys == n0.Keys + HandlesOf(LeavesBelow(t, k))
    ensures FreshFor(t.children.cells[k], n1.Keys)
  {
    ChildWithin(t, k);
  }

  /** After the walk into child `k`, the graph has grown by what the first `k + 1` children hold. */
  lemma WalkStep(t: OctreeNode, k: nat,
                 n0: map<nat, nat>, s0: seq<Node>, e0: set<Edge>,
                 n1: map<nat, nat>, s1: seq<Node>, e1: set<Edge>,
                 n2: map<nat, nat>, s2: seq<Node>, e2: set<Edge>)
    requires t.children.Children? && k < |t.children.cells|
    requires Grown(n0, s0, e0, n1, s1, e1, HandlesOf(LeavesBelow(t, k)), PairsBelow(t, k))
    requires Grown(n1, s1, e1, n2, s2, e2, LeafHandles(t.children.cells[k]), EmptySiblingPairs(t.children.cells[k]))
    ensures Grown(n0, s0, e0, n2, s2, e2, HandlesOf(LeavesBelow(t, k + 1)), PairsBelow(t, k + 1))
    ensures LeavesBelow(t, k + 1) == LeavesBelow(t, k) + EmptyLeaves(t.children.cells[k])
  {
    var c := t.children.cells[k];
    assert c in t.children.cells;
    GrownTwice(n0, s0, e0, n1, s1, e1, n2, s2, e2,
               HandlesOf(LeavesBelow(t, k)), PairsBelow(t, k), LeafHandles(c), EmptySiblingPairs(c));
    HandlesOfAppend(LeavesBelow(t, k), EmptyLeaves(c));
  }

  /** The number of pairs `a < b < n` with `a < i`. */
  function PairsBefore(i: nat, n: nat): nat
    requires i <= n
  {
    if i == 0 then 0 else PairsBefore(i - 1, n) + (n - i)
  }

  /** All pairs of `n` children number n(n-1)/2: 28 for the eight octants. */
  lemma {:induction false} PairCount(i: nat, n: nat)
    requires i <= n
    ensures 2 * PairsBefore(i, n) == i * (2 * n - i - 1)
    ensures n == 8 && i == n ==> PairsBefore(i, n) == 28
  {
    if i > 0 {
      PairCount(i - 1, n);
      assert (i - 1) * (2 * n - i) == i * (2 * n - i) - (2 * n - i);
      assert i * (2 * n - i) - i == i * (2 * n - i - 1);
    }
  }

  // ---------------------------------------------------------------- world bounds

  /** `Bounds.Encapsulate(b)` over the colliders' boxes, in order. */
  function EncapsulateAll(b: Bounds, boxes: seq<Bounds>): Bounds
  {
    if boxes == [] then b else EncapsulateBounds(EncapsulateAll(b, boxes[..|boxes| - 1]), boxes[|boxes| - 1])
  }

  /** The encapsulated box holds where it started and every box it took in. */
  lemma {:induction false} EncapsulateAllHolds(b: Bounds, boxes: seq<Bounds>)
    requires b.WellFormed() && forall k | 0 <= k < |boxes| :: boxes[k].WellFormed()
    ensures EncapsulateAll(b, boxes).WellFormed()
    ensures forall q :: b.Contains(q) ==> EncapsulateAll(b, boxes).Contains(q)
    ensures forall k, q | 0 <= k < |boxes| && boxes[k].Contains(q) :: EncapsulateAll(b, boxes).Contains(q)
  {
    if boxes != [] {
      var init := boxes[..|boxes| - 1];
      EncapsulateAllHolds(b, init);
      EncapsulateBoundsGrows(EncapsulateAll(b, init), boxes[|boxes| - 1]);
      forall k, q | 0 <= k < |boxes| && boxes[k].Contains(q)
        ensures EncapsulateAll(b, boxes).Contains(q)
      {
        if k < |boxes| - 1 {
          assert init[k] == boxes[k];
        }
      }
    }
  }

  /** The largest of the three sizes. */
  function MaxDim(v: Vec3): (m: real)
    ensures m >= v.x && m >= v.y && m >= v.z
    ensures m == v.x || m == v.y || m == v.z
  {
    Max(Max(v.x, v.y), v.z)
  }

  /** The cube around the centre of `b` whose every side is the largest dimension of `b`. */
  function Cubed(b: Bounds): Bounds
  {
    var half := 0.5 * MaxDim(b.Size());
    Bounds(b.center, Vec3(half, half, half))
  }

  /** The cube keeps the box's centre, has the largest dimension as every side and holds the box. */
  lemma CubedIsEnclosingCube(b: Bounds)
    requires b.WellFormed()
    ensures Cubed(b).center == b.center
    ensures var m := MaxDim(b.Size()); Cubed(b).Size() == Vec3(m, m, m)
    ensures Cubed(b).WellFormed()
    ensures forall q :: b.Contains(q) ==> Cubed(b).Contains(q)
  {
  }

  /** The box every world starts from: Unity's default `Bounds`, centred on the origin with no size. */
  const DefaultBounds: Bounds := Bounds(Zero, Zero)

  /**
   * The world bounds hold every collider's box, and, since they grow from
   * the default box, the origin as well.
   */
  lemma WorldBoundsHoldEverything(boxes: seq<Bounds>)
    requires forall k | 0 <= k < |boxes| :: boxes[k].WellFormed()
    ensures Cubed(EncapsulateAll(DefaultBounds, boxes)).WellFormed()
    ensures Cubed(EncapsulateAll(DefaultBounds, boxes)).Contains(Zero)
    ensures forall k, q | 0 <= k < |boxes| && boxes[k].Contains(q) :: Cubed(EncapsulateAll(DefaultBounds, boxes)).Contains(q)
  {
    var start := DefaultBounds;
    assert start.Contains(Zero);
    EncapsulateAllHolds(start, boxes);
    CubedIsEnclosingCube(EncapsulateAll(start, boxes));
  }

  // ---------------------------------------------------------------- the octree

  class Octree {
    var root: OctreeNode
    var bounds: Bounds
    const graph: Graph
    var emptyLeaves: seq<OctreeNode>

    /**
     * The `Octree` constructor: world bounds from the colliders' boxes, the
     * tree (built by `Divide`, which is not part of this model, so it is
     * given), then the empty leaves and their edges, into `graph`.
     */
    constructor (colliderBounds: seq<Bounds>, tree: OctreeNode, graph: Graph)
      requires graph.Valid()
      requires FreshFor(tree, graph.nodes.Keys)
      modifies graph
      ensures this.graph == graph && root == tree
      ensures bounds == Cubed(EncapsulateAll(DefaultBounds, colliderBounds))
      ensures emptyLeaves == EmptyLeaves(tree)
      ensures graph.Valid()
      ensures graph.nodes.Keys == old(graph.nodes.Keys) + LeafHandles(tree)
      ensures PairsLinked(graph.nodes, graph.edges, EmptySiblingPairs(tree))
      ensures NewEdgesFrom(graph.store, old(graph.edges), graph.edges, EmptySiblingPairs(tree))
    {
      this.graph := graph;
      root := tree;
      emptyLeaves := [];
      bounds := DefaultBounds;
      new;
      ghost var start := bounds;
      ghost var nodes0, store0, edges0 := graph.nodes, graph.store, graph.edges;
      CalculateBounds(colliderBounds);
      assert graph.nodes == nodes0 && graph.store == store0 && graph.edges == edges0;
      assert bounds == Cubed(EncapsulateAll(start, colliderBounds));
      GetEmptyLeaves(root);
    }

    /**
     * `CalculateBounds`: encapsulates every collider's box into `bounds`,
     * starting from the default box, then makes it the cube around the same
     * centre whose side is the largest dimension.
     */
    method CalculateBounds(colliderBounds: seq<Bounds>)
      modifies this
      ensures bounds == Cubed(EncapsulateAll(old(bounds), colliderBounds))
      ensures root == old(root) && emptyLeaves == old(emptyLeaves)
    {
      for i := 0 to |colliderBounds|
        invariant bounds == EncapsulateAll(old(bounds), colliderBounds[..i])
        invariant root == old(root) && emptyLeaves == old(emptyLeaves)
      {
        assert colliderBounds[..i + 1][..i] == colliderBounds[..i];
        bounds := EncapsulateBounds(bounds, colliderBounds[i]);
      }
      assert colliderBounds[..|colliderBounds|] == colliderBounds;
      var size := 0.5 * MaxDim(bounds.Size());
      var half := Vec3(size, size, size);
      bounds := FromMinMax(bounds.center.Minus(half), bounds.center.Plus(half));
    }

    /**
     * `GetEmptyLeaves`: an empty leaf is collected and given a graph node,
     * and the walk stops there; a leaf with obstacles is skipped; an internal
     * cell walks its children in order and then asks for an edge between
     * every two of them.
     */
    method GetEmptyLeaves(node: OctreeNode)
      requires graph.Valid()
      requires FreshFor(node, graph.nodes.Keys)
      modifies this, graph
      decreases node, 1
      ensures graph.Valid()
      ensures root == old(root) && bounds == old(bounds)
      ensures emptyLeaves == old(emptyLeaves) + EmptyLeaves(node)
      ensures Grown(old(graph.nodes), old(graph.store), old(graph.edges), graph.nodes, graph.store, graph.edges,
                    LeafHandles(node), EmptySiblingPairs(node))
    {
      if node.IsLeaf() && |node.objects| == 0 {
        emptyLeaves := emptyLeaves + [node];
        graph.AddNode(node.handle);
        assert EmptyLeaves(node) == [node];
        return;
      }
      if node.children.NoChildren? {
        return;
      }
      var children := node.children.cells;
      WalkChildren(node);
      ghost var n1, s1, e1 := graph.nodes, graph.store, graph.edges;
      ghost var calls := LinkSiblings(children);
      InGraphIffEmptyLeaf(node, old(graph.nodes.Keys), graph.nodes);
      BelowIsAll(node);
      GrownTwice(old(graph.nodes), old(graph.store), old(graph.edges), n1, s1, e1, graph.nodes, graph.store, graph.edges,
                 LeafHandles(node), PairsBelow(node, |children|), {}, LocalPairs(node));
    }

    /** The `foreach` loop of `GetEmptyLeaves`: the walk into every child, in order. */
    method WalkChildren(node: OctreeNode)
      requires node.children.Children? && !IsEmptyLeaf(node)
      requires graph.Valid()
      requires FreshFor(node, graph.nodes.Keys)
      modifies this, graph
      decreases node, 0
      ensures graph.Valid()
      ensures root == old(root) && bounds == old(bounds)
      ensures emptyLeaves == old(emptyLeaves) + LeavesBelow(node, |node.children.cells|)
      ensures Grown(old(graph.nodes), old(graph.store), old(graph.edges), graph.nodes, graph.store, graph.edges,
                    HandlesOf(LeavesBelow(node, |node.children.cells|)), PairsBelow(node, |node.children.cells|))
    {
      var children := node.children.cells;
      ghost var nodes0, store0, edges0, leaves0 := graph.nodes, graph.store, graph.edges, emptyLeaves;
      for k := 0 to |children|
        invariant graph.Valid()
        invariant root == old(root) && bounds == old(bounds)
        invariant emptyLeaves == leaves0 + LeavesBelow(node, k)
        invariant Grown(nodes0, store0, edges0, graph.nodes, graph.store, graph.edges,
                        HandlesOf(LeavesBelow(node, k)), PairsBelow(node, k))
      {
        var child := children[k];
        ghost var nodes1, store1, edges1 := graph.nodes, graph.store, graph.edges;
        ChildPrecondition(node, k, old(graph.nodes), nodes1);
        assert child in node.children.cells;
        GetEmptyLeaves(child);
        WalkStep(node, k, nodes0, store0, edges0, nodes1, store1, edges1, graph.nodes, graph.store, graph.edges);
      }
    }

    /**
     * The pair loops of `GetEmptyLeaves`: `AddEdge` for every two children
     * `i < j`, n(n-1)/2 calls in all. Afterwards every two children that have
     * nodes are linked, and every new edge joins such two children, the
     * earlier one first.
     */
    method LinkSiblings(cs: seq<OctreeNode>) returns (ghost calls: nat)
      requires graph.Valid()
      modifies graph
      ensures graph.Valid() && graph.nodes == old(graph.nodes)
      ensures Grown(old(graph.nodes), old(graph.store), old(graph.edges), graph.nodes, graph.store, graph.edges,
                    {}, InGraphPairs(cs, graph.nodes))
      ensures calls == PairsBefore(|cs|, |cs|)
    {
      calls := 0;
      for i := 0 to |cs|
        invariant graph.Valid() && graph.nodes == old(graph.nodes)
        invariant Extends(old(graph.nodes), old(graph.store), old(graph.edges), graph.nodes, graph.store, graph.edges)
        invariant PairsLinked(graph.nodes, graph.edges, PairsUpTo(cs, graph.nodes, i, i + 1))
        invariant NewEdgesFrom(graph.store, old(graph.edges), graph.edges, PairsUpTo(cs, graph.nodes, i, i + 1))
        invariant calls == PairsBefore(i, |cs|)
      {
        for j := i + 1 to |cs|
          invariant graph.Valid() && graph.nodes == old(graph.nodes)
          invariant Extends(old(graph.nodes), old(graph.store), old(graph.edges), graph.nodes, graph.store, graph.edges)
          invariant PairsLinked(graph.nodes, graph.edges, PairsUpTo(cs, graph.nodes, i, j))
          invariant NewEdgesFrom(graph.store, old(graph.edges), graph.edges, PairsUpTo(cs, graph.nodes, i, j))
          invariant calls == PairsBefore(i, |cs|) + (j - i - 1)
        {
          ghost var n1, s1, e1 := graph.nodes, graph.store, graph.edges;
          graph.AddEdge(cs[i].handle, cs[j].handle);
          calls := calls + 1;
          AddEdgeStep(cs, old(graph.nodes), old(graph.store), old(graph.edges), s1, e1,
                      graph.store, graph.edges, i, j);
        }
        PairsUpToNextRow(cs, graph.nodes, i);
      }
      PairsUpToAll(cs, graph.nodes);
    }
  }

  /** Pairs `a < b` of children that both have nodes, with `a < i`, or `a == i` and `b < j`. */
  function PairsUpTo(cs: seq<OctreeNode>, nodes: map<nat, nat>, i: nat, j: nat): set<(nat, nat)>
  {
    set a, b | 0 <= a < b < |cs| && (a < i || (a == i && b < j)) && cs[a].handle in nodes && cs[b].handle in nodes
      :: (cs[a].handle, cs[b].handle)
  }

  /** Pairs `a < b` of children that both have nodes. */
  function InGraphPairs(cs: seq<OctreeNode>, nodes: map<nat, nat>): set<(nat, nat)>
  {
    set a, b | 0 <= a < b < |cs| && cs[a].handle in nodes && cs[b].handle in nodes :: (cs[a].handle, cs[b].handle)
  }

  lemma PairsUpToNextRow(cs: seq<OctreeNode>, nodes: map<nat, nat>, i: nat)
    requires i < |cs|
    ensures PairsUpTo(cs, nodes, i, |cs|) == PairsUpTo(cs, nodes, i + 1, i + 2)
  {
  }

  lemma PairsUpToAll(cs: seq<OctreeNode>, nodes: map<nat, nat>)
    ensures PairsUpTo(cs, nodes, |cs|, |cs| + 1) == InGraphPairs(cs, nodes)
  {
  }

  /** One `AddEdge(cs[i], cs[j])` extends the links and new edges by the pair `(i, j)`. */
  lemma AddEdgeStep(cs: seq<OctreeNode>, n0: map<nat, nat>, s0: seq<Node>, e0: set<Edge>,
                    s1: seq<Node>, e1: set<Edge>, s2: seq<Node>, e2: set<Edge>, i: nat, j: nat)
    requires i < j < |cs|
    requires WellFormed(n0, s1, e1) && WellFormed(n0, s2, e2)
    requires Extends(n0, s0, e0, n0, s1, e1)
    requires PairsLinked(n0, e1, PairsUpTo(cs, n0, i, j))
    requires NewEdgesFrom(s1, e0, e1, PairsUpTo(cs, n0, i, j))
    requires var a, b := cs[i].handle, cs[j].handle;
      && (a !in n0 || b !in n0 ==> s2 == s1 && e2 == e1)
      && (a in n0 && b in n0 ==>
            var e := Edge(n0[a], n0[b]);
            && HasEdge(e2, e)
            && (HasEdge(e1, e) ==> s2 == s1 && e2 == e1)
            && (!HasEdge(e1, e) ==> e2 == e1 + {e} && s2 == AppendEdge(s1, e)))
    ensures Extends(n0, s0, e0, n0, s2, e2)
    ensures PairsLinked(n0, e2, PairsUpTo(cs, n0, i, j + 1))
    ensures NewEdgesFrom(s2, e0, e2, PairsUpTo(cs, n0, i, j + 1))
  {
    var a, b := cs[i].handle, cs[j].handle;
    if a in n0 && b in n0 {
      var e := Edge(n0[a], n0[b]);
      if !HasEdge(e1, e) {
        assert CellsIndexed(n0, s1);
        assert forall k | 0 <= k < |s1| :: s2[k].cell == s1[k].cell;
      }
      assert (a, b) in PairsUpTo(cs, n0, i, j + 1);
    }
    forall p | p in PairsUpTo(cs, n0, i, j + 1)
      ensures CellsLinked(n0, e2, p.0, p.1)
    {
      if p !in PairsUpTo(cs, n0, i, j) {
        assert p == (a, b);
      }
    }
  }

  /**
   * Under the precondition of `GetEmptyLeaves`, once the children are
   * walked, a child has a node exactly when it is an empty leaf.
   */
  lemma InGraphIffEmptyLeaf(t: OctreeNode, keys0: set<nat>, nodes: map<nat, nat>)
    requires t.children.Children? && !IsEmptyLeaf(t)
    requires FreshFor(t, keys0)
    requires nodes.Keys == keys0 + LeafHandles(t)
    ensures InGraphPairs(t.children.cells, nodes) == LocalPairs(t)
  {
    var cs := t.children.cells;
    forall k | 0 <= k < |cs|
      ensures cs[k].handle in nodes <==> IsEmptyLeaf(cs[k])
    {
      ChildWithin(t, k);
      RootHandle(cs[k]);
    }
  }
}
