/**
 * The navigation graph built over the empty leaves of the octree, and the A*
 * search over it.
 *
 * A `Node` is a C# object that the search updates in place. The model keeps
 * every node of a graph in `Graph.store`, indexed by its id, and a node
 * reference is its id. An octree cell is referred to by its handle (see
 * `OctreeNodes`). The search's cost and heuristic, the squared distance of two
 * cell centres, is the function `cost` over cell handles.
 */
module NavGraph {
  import opened Common

  // ---------------------------------------------------------------- edges

  /** An edge between the nodes with ids `x` and `y`. */
  datatype Edge = Edge(x: nat, y: nat)

  /** `Edge.Equals`: the same two endpoints, in either orientation. */
  predicate SameEdge(a: Edge, b: Edge)
  {
    (a.x == b.x && a.y == b.y) || (a.x == b.y && a.y == b.x)
  }

  /** `int.GetHashCode` of an id: the id itself, as a 32-bit pattern. */
  function IdHash(id: nat): bv32
  {
    (id % 0x1_0000_0000) as bv32
  }

  /** `Edge.GetHashCode`: the exclusive or of the endpoint hashes. */
  function EdgeHash(e: Edge): bv32
  {
    IdHash(e.x) ^ IdHash(e.y)
  }

  /** `SameEdge` is an equivalence, and equal edges hash alike, as a `HashSet` requires. */
  lemma SameEdgeIsHashEquivalence(a: Edge, b: Edge, c: Edge)
    ensures SameEdge(a, a)
    ensures SameEdge(a, b) ==> SameEdge(b, a)
    ensures SameEdge(a, b) && SameEdge(b, c) ==> SameEdge(a, c)
    ensures SameEdge(a, b) ==> EdgeHash(a) == EdgeHash(b)
    ensures SameEdge(Edge(a.x, a.y), Edge(a.y, a.x))
  {
    if SameEdge(a, b) && !(a.x == b.x && a.y == b.y) {
      assert IdHash(a.x) ^ IdHash(a.y) == IdHash(a.y) ^ IdHash(a.x);
    }
  }

  /**
   * A set of edges in which no edge is also present reversed, as a
   * `HashSet<Edge>` with an orientation-blind `Equals` keeps it.
   */
  predicate OrientationFree(s: set<Edge>)
  {
    forall e | e in s :: Edge(e.y, e.x) in s ==> e.x == e.y
  }

  /** `HashSet.Contains`: the set holds the edge in one orientation or the other. */
  predicate HasEdge(s: set<Edge>, e: Edge)
  {
    e in s || Edge(e.y, e.x) in s
  }

  /** `HasEdge` is membership up to `SameEdge`. */
  lemma HasEdgeIffSameEdgeIn(s: set<Edge>, e: Edge)
    ensures HasEdge(s, e) <==> exists f :: f in s && SameEdge(f, e)
  {
    if HasEdge(s, e) {
      if e in s {
        assert SameEdge(e, e);
      } else {
        assert SameEdge(Edge(e.y, e.x), e);
      }
    }
  }

  // ---------------------------------------------------------------- nodes

  /**
   * A graph node: its id, the octree cell it stands for, the search's scratch
   * values and the edges that touch it, in the order they were added.
   */
  datatype Node = Node(id: nat, cell: nat, f: real, g: real, h: real, from: Option<nat>, edges: seq<Edge>)

  /** A node as `new Node(octreeNode)` makes it: fresh id, zeroed fields, no edges. */
  function NewNode(id: nat, cell: nat): (n: Node)
    ensures n.id == id && n.cell == cell
    ensures n.edges == [] && n.from.None?
  {
    Node(id, cell, 0.0, 0.0, 0.0, None, [])
  }

  /** The open-set order: smaller f first, then smaller id. */
  predicate Precedes(a: Node, b: Node)
  {
    a.f < b.f || (a.f == b.f && a.id < b.id)
  }

  /** `float.CompareTo` and `int.CompareTo`: -1, 0 or 1. */
  function CompareReals(a: real, b: real): int
  {
    if a < b then -1 else if a > b then 1 else 0
  }

  function CompareInts(a: int, b: int): int
  {
    if a < b then -1 else if a > b then 1 else 0
  }

  /**
   * `NodeComparer.Compare`: 0 when either side is null; otherwise f decides,
   * and the id breaks a tie.
   */
  function Compare(x: Option<Node>, y: Option<Node>): (r: int)
    ensures r == 0 <==> x.None? || y.None? || (x.value.f == y.value.f && x.value.id == y.value.id)
    ensures r < 0 <==> x.Some? && y.Some? && Precedes(x.value, y.value)
    ensures r > 0 <==> x.Some? && y.Some? && Precedes(y.value, x.value)
    ensures -1 <= r <= 1
  {
    if x.None? || y.None? then 0
    else
      var result := CompareReals(x.value.f, y.value.f);
      if result == 0 then CompareInts(x.value.id, y.value.id) else result
  }

  /** The comparer is antisymmetric and total on nodes with distinct ids. */
  lemma CompareIsTotalOrder(a: Node, b: Node, c: Node)
    ensures Compare(Some(a), Some(b)) == -Compare(Some(b), Some(a))
    ensures a.id != b.id ==> Compare(Some(a), Some(b)) != 0
    ensures Precedes(a, b) && Precedes(b, c) ==> Precedes(a, c)
  {
  }

  // ---------------------------------------------------------------- graph shape

  /** Node `i` has id `i`, and `nodes` and the node cells are inverse to each other. */
  ghost predicate CellsIndexed(nodes: map<nat, nat>, store: seq<Node>)
  {
    && (forall i | 0 <= i < |store| :: store[i].id == i && store[i].cell in nodes && nodes[store[i].cell] == i)
    && (forall c | c in nodes :: nodes[c] < |store| && store[nodes[c]].cell == c)
  }

  /** Every edge of the set is in both its endpoints' lists. */
  ghost predicate EdgesListed(store: seq<Node>, edges: set<Edge>)
  {
    forall e | e in edges :: e.x < |store| && e.y < |store| && e in store[e.x].edges && e in store[e.y].edges
  }

  /** Every listed edge is in the set and touches the node that lists it. */
  ghost predicate ListsInSet(store: seq<Node>, edges: set<Edge>)
  {
    forall i, k | 0 <= i < |store| && 0 <= k < |store[i].edges| ::
      store[i].edges[k] in edges && (store[i].edges[k].x == i || store[i].edges[k].y == i)
  }

  /**
   * What every graph keeps: `nodes` maps each cell to the node made for it,
   * node `i` has id `i`, every edge of `edges` is in both endpoints' lists,
   * every listed edge is in `edges` and touches its node, and no edge is
   * present in both orientations.
   */
  ghost predicate WellFormed(nodes: map<nat, nat>, store: seq<Node>, edges: set<Edge>)
  {
    && CellsIndexed(nodes, store)
    && EdgesListed(store, edges)
    && ListsInSet(store, edges)
    && OrientationFree(edges)
  }

  /** The edge facts the search relies on: listed edges are in the set and their ends are nodes. */
  ghost predicate SameShapeLists(store: seq<Node>, edges: set<Edge>)
  {
    ListsInSet(store, edges) && EdgesListed(store, edges)
  }

  /** Two node tables that differ at most in the search's scratch values. */
  ghost predicate SameShape(s: seq<Node>, t: seq<Node>)
  {
    && |s| == |t|
    && forall i | 0 <= i < |s| :: s[i].id == t[i].id && s[i].cell == t[i].cell && s[i].edges == t[i].edges
  }

  lemma SameShapeKeepsWellFormed(nodes: map<nat, nat>, s: seq<Node>, t: seq<Node>, edges: set<Edge>)
    requires WellFormed(nodes, s, edges) && SameShape(s, t)
    ensures WellFormed(nodes, t, edges)
  {
  }

  /**
   * A new cell's node, given the next id, keeps the graph well formed: the
   * node lists no edge, so no edge needs it.
   */
  lemma NewNodeKeepsWellFormed(nodes: map<nat, nat>, store: seq<Node>, edges: set<Edge>, cell: nat)
    requires WellFormed(nodes, store, edges) && cell !in nodes
    ensures WellFormed(nodes[cell := |store|], store + [NewNode(|store|, cell)], edges)
  {
  }

  /**
   * The graph `(n1, s1, e1)` extends `(n0, s0, e0)`: cells keep their nodes,
   * existing nodes keep their cells, and no edge is lost.
   */
  ghost predicate Extends(n0: map<nat, nat>, s0: seq<Node>, e0: set<Edge>, n1: map<nat, nat>, s1: seq<Node>, e1: set<Edge>)
  {
    && |s0| <= |s1|
    && (forall i | 0 <= i < |s0| :: s1[i].cell == s0[i].cell)
    && (forall c | c in n0 :: c in n1 && n1[c] == n0[c])
    && e0 <= e1
  }

  /** Node `e.x`'s and node `e.y`'s lists, each with `e` appended. */
  function AppendEdge(store: seq<Node>, e: Edge): (r: seq<Node>)
    requires e.x < |store| && e.y < |store|
    ensures |r| == |store|
  {
    var s1 := store[e.x := store[e.x].(edges := store[e.x].edges + [e])];
    s1[e.y := s1[e.y].(edges := s1[e.y].edges + [e])]
  }

  lemma AppendEdgeKeepsCells(nodes: map<nat, nat>, store: seq<Node>, e: Edge)
    requires CellsIndexed(nodes, store) && e.x < |store| && e.y < |store|
    ensures CellsIndexed(nodes, AppendEdge(store, e))
  {
  }

  lemma AppendEdgeKeepsListed(store: seq<Node>, edges: set<Edge>, e: Edge)
    requires EdgesListed(store, edges) && e.x < |store| && e.y < |store|
    ensures EdgesListed(AppendEdge(store, e), edges + {e})
  {
    var t := AppendEdge(store, e);
    forall f | f in edges + {e}
      ensures f.x < |t| && f.y < |t| && f in t[f.x].edges && f in t[f.y].edges
    {
      if f != e {
        assert f in store[f.x].edges && f in store[f.y].edges;
      }
    }
  }

  lemma AppendEdgeKeepsInSet(store: seq<Node>, edges: set<Edge>, e: Edge)
    requires ListsInSet(store, edges) && e.x < |store| && e.y < |store|
    ensures ListsInSet(AppendEdge(store, e), edges + {e})
  {
    var t := AppendEdge(store, e);
    forall i, k | 0 <= i < |t| && 0 <= k < |t[i].edges|
      ensures t[i].edges[k] in edges + {e} && (t[i].edges[k].x == i || t[i].edges[k].y == i)
    {
      if k < |store[i].edges| {
        assert t[i].edges[k] == store[i].edges[k];
      }
    }
  }

  lemma AddEdgeKeepsOrientationFree(edges: set<Edge>, e: Edge)
    requires OrientationFree(edges) && !HasEdge(edges, e)
    ensures OrientationFree(edges + {e})
  {
    forall f | f in edges + {e} && Edge(f.y, f.x) in edges + {e}
      ensures f.x == f.y
    {
      if f != e && Edge(f.y, f.x) != e {
        assert f in edges && Edge(f.y, f.x) in edges;
      }
    }
  }

  /** Adding an edge present in neither orientation, and appending it to both lists, keeps the shape. */
  lemma AddEdgeKeepsWellFormed(nodes: map<nat, nat>, store: seq<Node>, edges: set<Edge>, e: Edge)
    requires WellFormed(nodes, store, edges)
    requires e.x < |store| && e.y < |store| && !HasEdge(edges, e)
    ensures WellFormed(nodes, AppendEdge(store, e), edges + {e})
    ensures |edges + {e}| == |edges| + 1
  {
    AppendEdgeKeepsCells(nodes, store, e);
    AppendEdgeKeepsListed(store, edges, e);
    AppendEdgeKeepsInSet(store, edges, e);
    AddEdgeKeepsOrientationFree(edges, e);
  }

  /** The edge cost and heuristic between two nodes: `cost` of their cells. */
  function H(store: seq<Node>, cost: (nat, nat) -> real, u: nat, v: nat): real
    requires u < |store| && v < |store|
  {
    cost(store[u].cell, store[v].cell)
  }

  // ---------------------------------------------------------------- search state

  /**
   * What the search knows of node `v` once it has been reached: h is the
   * heuristic to the goal and f = g + h; the start has no predecessor and
   * g = 0; any other node's predecessor is closed, joined to it by an edge,
   * and g is the predecessor's g plus the step cost; a closed node was closed
   * after its predecessor.
   */
  ghost predicate Reached(store: seq<Node>, edges: set<Edge>, cost: (nat, nat) -> real,
                          start: nat, goal: nat, closed: set<nat>, order: map<nat, nat>, v: nat)
    requires v < |store| && goal < |store|
    requires forall u | u in closed :: u < |store|
  {
    && store[v].h == H(store, cost, v, goal)
    && store[v].f == store[v].g + store[v].h
    && (v == start ==> store[v].from.None? && store[v].g == 0.0)
    && (v != start ==>
          && store[v].from.Some?
          && store[v].from.value in closed
          && HasEdge(edges, Edge(store[v].from.value, v))
          && store[v].g == store[store[v].from.value].g + H(store, cost, store[v].from.value, v)
          && (v in order && store[v].from.value in order ==> order[store[v].from.value] < order[v]))
  }

  /**
   * The loop invariant of A*: the open and closed sets are disjoint sets of
   * nodes; before the first pop the open set is just the start, afterwards
   * the start is closed; `order` numbers the closed nodes in closing order,
   * up to `pops`; and every open or closed node is `Reached`.
   */
  ghost predicate SearchInv(store: seq<Node>, edges: set<Edge>, cost: (nat, nat) -> real,
                            start: nat, goal: nat, open: set<nat>, closed: set<nat>,
                            order: map<nat, nat>, pops: nat)
  {
    && start < |store| && goal < |store|
    && (forall v | v in open :: v < |store|)
    && (forall v | v in closed :: v < |store|)
    && open !! closed
    && (closed == {} ==> open == {start})
    && (closed != {} ==> start in closed)
    && order.Keys == closed
    && (forall v | v in closed :: order[v] <= pops)
    && (forall v | v in open + closed :: Reached(store, edges, cost, start, goal, closed, order, v))
  }

  /** The path property: a walk from `start` to `goal` along `from` links and edges. */
  ghost predicate IsFromChain(store: seq<Node>, edges: set<Edge>, cost: (nat, nat) -> real,
                              start: nat, goal: nat, path: seq<nat>)
  {
    && |path| > 0
    && (forall k | 0 <= k < |path| :: path[k] < |store|)
    && path[0] == start && path[|path| - 1] == goal
    && store[start].from.None? && store[start].g == 0.0
    && (forall k | 0 <= k < |path| - 1 ::
          && store[path[k + 1]].from == Some(path[k])
          && HasEdge(edges, Edge(path[k], path[k + 1]))
          && store[path[k + 1]].g == store[path[k]].g + H(store, cost, path[k], path[k + 1]))
  }

  // ---------------------------------------------------------------- reachability

  /** A walk through the graph: a non-empty run of node ids, each joined to the next by an edge. */
  ghost predicate Walk(edges: set<Edge>, w: seq<nat>)
  {
    && |w| > 0
    && forall k | 0 <= k < |w| - 1 :: HasEdge(edges, Edge(w[k], w[k + 1]))
  }

  /** Node `b` can be reached from node `a` along edges, in either orientation. */
  ghost predicate Reachable(edges: set<Edge>, a: nat, b: nat)
  {
    exists w :: Walk(edges, w) && w[0] == a && w[|w| - 1] == b
  }

  /** Every edge leaving `inner` ends in `outer`. */
  ghost predicate EdgesLeadInto(edges: set<Edge>, inner: set<nat>, outer: set<nat>)
  {
    forall u, v | u in inner && HasEdge(edges, Edge(u, v)) :: v in outer
  }

  /** A walk that starts in a set no edge leaves stays in it. */
  lemma {:induction false} WalkStaysInside(edges: set<Edge>, inside: set<nat>, w: seq<nat>, k: nat)
    requires Walk(edges, w) && w[0] in inside && EdgesLeadInto(edges, inside, inside)
    requires k < |w|
    ensures w[k] in inside
    decreases k
  {
    if k > 0 {
      WalkStaysInside(edges, inside, w, k - 1);
      assert HasEdge(edges, Edge(w[k - 1], w[k]));
    }
  }

  /** Nothing outside a set that no edge leaves can be reached from inside it. */
  lemma SealedSetUnreachable(edges: set<Edge>, inside: set<nat>, a: nat, b: nat)
    requires EdgesLeadInto(edges, inside, inside)
    requires a in inside && b !in inside
    ensures !Reachable(edges, a, b)
  {
    if Reachable(edges, a, b) {
      var w :| Walk(edges, w) && w[0] == a && w[|w| - 1] == b;
      WalkStaysInside(edges, inside, w, |w| - 1);
    }
  }

  /** A path the search returns is a walk, so its goal is reachable from its start. */
  lemma FromChainReaches(store: seq<Node>, edges: set<Edge>, cost: (nat, nat) -> real,
                         start: nat, goal: nat, path: seq<nat>)
    requires IsFromChain(store, edges, cost, start, goal, path)
    ensures Walk(edges, path)
    ensures Reachable(edges, start, goal)
  {
  }

  /** A set of ids below `n` has at most `n` members. */
  lemma {:induction false} BoundedSetSize(s: set<nat>, n: nat)
    requires forall v | v in s :: v < n
    ensures |s| <= n
    decreases n
  {
    if n == 0 {
      assert s == {};
    } else {
      BoundedSetSize(s - {n - 1}, n - 1);
    }
  }

  /** A set of ids below `n` that misses one id below `n` has fewer than `n` members. */
  lemma MissingOneBelow(s: set<nat>, n: nat, missing: nat)
    requires forall v | v in s :: v < n
    requires missing < n && missing !in s
    ensures |s| < n
  {
    BoundedSetSize(s + {missing}, n);
  }

  /** `s` lists the members of `members`, each one once. */
  ghost predicate Enumerates(s: seq<nat>, members: set<nat>)
  {
    && (forall i | 0 <= i < |s| :: s[i] in members)
    && (forall v | v in members :: v in s)
    && (forall i, j | 0 <= i < j < |s| :: s[i] != s[j])
  }

  /** Listing one more member keeps the enumeration. */
  lemma EnumeratesSnoc(s: seq<nat>, members: set<nat>, x: nat)
    requires Enumerates(s, members) && x !in members
    ensures Enumerates(s + [x], members + {x})
  {
  }

  /** A list that enumerates a set is as long as the set is large. */
  lemma {:induction false} EnumeratesCard(s: seq<nat>, members: set<nat>)
    requires Enumerates(s, members)
    ensures |members| == |s|
    decreases |s|
  {
    if s == [] {
      assert members == {};
    } else {
      var last := s[|s| - 1];
      var rest := s[..|s| - 1];
      forall v | v in members - {last}
        ensures v in rest
      {
        assert v in s;
        var i :| 0 <= i < |s| && s[i] == v;
        assert rest[i] == v;
      }
      forall i | 0 <= i < |rest|
        ensures rest[i] in members - {last}
      {
        assert rest[i] == s[i] && s[i] != s[|s| - 1];
      }
      EnumeratesCard(rest, members - {last});
      assert members == (members - {last}) + {last};
    }
  }

  /** A list of distinct ids below `n` that misses one id below `n` is shorter than `n`. */
  lemma EnumeratedBelow(s: seq<nat>, members: set<nat>, n: nat, missing: nat)
    requires Enumerates(s, members)
    requires forall v | v in members :: v < n
    requires missing < n && missing !in members
    ensures |s| < n
  {
    EnumeratesCard(s, members);
    MissingOneBelow(members, n, missing);
  }

  /** The pop caps of the two revisions of the search. */
  const MaxIterations: nat := 10000
  const MaxIterationsWithPath: nat := 5000

  /**
   * Popping the first open node keeps the invariant once it is closed and
   * numbered after every node closed so far; numbered, it is also `Reached`
   * as path reconstruction needs.
   */
  lemma PopKeepsInv(store: seq<Node>, edges: set<Edge>, cost: (nat, nat) -> real,
                    start: nat, goal: nat, open: set<nat>, closed: set<nat>,
                    order: map<nat, nat>, pops: nat, current: nat, order': map<nat, nat>)
    requires SearchInv(store, edges, cost, start, goal, open, closed, order, pops)
    requires current in open && order' == order[current := pops + 1]
    ensures SearchInv(store, edges, cost, start, goal, open - {current}, closed + {current}, order', pops + 1)
    ensures forall v | v in order' :: v < |store| && Reached(store, edges, cost, start, goal, closed, order', v)
  {
    assert order'.Keys == closed + {current};
    forall v | v in open + closed
      ensures Reached(store, edges, cost, start, goal, closed, order', v)
      ensures Reached(store, edges, cost, start, goal, closed + {current}, order', v)
    {
      assert Reached(store, edges, cost, start, goal, closed, order, v);
    }
  }

  /**
   * How relaxation leaves the node table: only scratch values change, closed
   * nodes not at all, and every changed node is open, joined to `current` by
   * an edge, and has `current` as `from` and g = current's g + step cost.
   */
  ghost predicate RelaxedFrom(before: seq<Node>, after: seq<Node>, edges: set<Edge>, cost: (nat, nat) -> real,
                              current: nat, closed: set<nat>, open: set<nat>)
  {
    && SameShape(before, after)
    && current < |before|
    && (forall v | 0 <= v < |after| && v in closed :: after[v] == before[v])
    && (forall v | 0 <= v < |after| && after[v] != before[v] ::
          && v in open
          && HasEdge(edges, Edge(current, v))
          && after[v].from == Some(current)
          && after[v].g == before[current].g + H(after, cost, current, v))
  }

  /**
   * The relaxation guard, seen from the node table: every node that `after`
   * changes was not in the open set `open`, or has a g strictly below the
   * one it had in `before`.
   */
  ghost predicate OnlyLowered(before: seq<Node>, after: seq<Node>, open: set<nat>)
  {
    && |after| == |before|
    && forall v | 0 <= v < |after| && after[v] != before[v] :: v !in open || after[v].g < before[v].g
  }

  /**
   * Changing node `nb` alone keeps `OnlyLowered` when the change lowers its
   * g or `nb` is not yet in `openNow`, a superset of the original open set.
   */
  lemma GuardKeepsOnlyLowered(before: seq<Node>, store: seq<Node>, store': seq<Node>,
                              open: set<nat>, openNow: set<nat>, nb: nat)
    requires OnlyLowered(before, store, open) && open <= openNow
    requires nb < |store| == |store'|
    requires forall u | 0 <= u < |store| && u != nb :: store'[u] == store[u]
    requires store'[nb].g < store[nb].g || nb !in openNow
    ensures OnlyLowered(before, store', open)
  {
    forall v | 0 <= v < |store'| && store'[v] != before[v]
      ensures v !in open || store'[v].g < before[v].g
    {
      if v != nb {
        assert store'[v] == store[v];
      }
    }
  }

  /**
   * Relaxing a neighbour that is not closed, through an edge from the closed
   * node `current`, keeps the search invariant and the relaxation frame.
   */
  lemma RelaxKeepsInv(before: seq<Node>, store: seq<Node>, edges: set<Edge>, cost: (nat, nat) -> real,
                      start: nat, goal: nat, open: set<nat>, closed: set<nat>,
                      order: map<nat, nat>, pops: nat, current: nat, nb: nat, store': seq<Node>)
    requires SearchInv(store, edges, cost, start, goal, open, closed, order, pops)
    requires RelaxedFrom(before, store, edges, cost, current, closed, open)
    requires current in closed && nb < |store| && nb !in closed
    requires HasEdge(edges, Edge(current, nb))
    requires var tentative := store[current].g + H(store, cost, current, nb);
      var h := H(store, cost, nb, goal);
      store' == store[nb := store[nb].(g := tentative, h := h, f := tentative + h, from := Some(current))]
    ensures SearchInv(store', edges, cost, start, goal, open + {nb}, closed, order, pops)
    ensures RelaxedFrom(before, store', edges, cost, current, closed, open + {nb})
  {
    assert forall u: nat, w: nat | u < |store| && w < |store| :: H(store', cost, u, w) == H(store, cost, u, w);
    forall v | v in open + {nb} + closed
      ensures Reached(store', edges, cost, start, goal, closed, order, v)
    {
      if v != nb {
        assert Reached(store, edges, cost, start, goal, closed, order, v);
      }
    }
    assert store[current] == before[current];
  }

  /** The end of edge `e` across from `u`: `y` when `x` is `u`, `x` otherwise. */
  function Other(e: Edge, u: nat): (v: nat)
    ensures SameEdge(e, Edge(u, v)) || (e.x != u && e.y != u && v == e.x)
  {
    if e.x == u then e.y else e.x
  }

  /**
   * After `current`'s edges are relaxed, its neighbour `v`, unless closed, is
   * open and has a g no greater than reaching it through `current` costs.
   */
  ghost predicate NeighborRelaxed(store: seq<Node>, cost: (nat, nat) -> real, current: nat,
                                  closed: set<nat>, open: set<nat>, v: nat)
    requires current < |store|
  {
    v !in closed ==> v < |store| && v in open && store[v].g <= store[current].g + H(store, cost, current, v)
  }

  /** Every edge touching a node is in that node's list, so each of its neighbours is the far end of a listed edge. */
  lemma ListedNeighbor(store: seq<Node>, edges: set<Edge>, current: nat, v: nat) returns (j: nat)
    requires EdgesListed(store, edges) && current < |store|
    requires HasEdge(edges, Edge(current, v))
    ensures j < |store[current].edges| && Other(store[current].edges[j], current) == v
  {
    var e := if Edge(current, v) in edges then Edge(current, v) else Edge(v, current);
    assert e in store[current].edges;
    j :| 0 <= j < |store[current].edges| && store[current].edges[j] == e;
  }

  /**
   * Relaxing neighbour `nb` of the closed node `current`, the far end of
   * `adj[k]`, settles it and leaves the neighbours at `adj[..k]` settled.
   */
  lemma RelaxKeepsNeighborsRelaxed(store: seq<Node>, cost: (nat, nat) -> real, current: nat,
                                   closed: set<nat>, open: set<nat>, nb: nat, store': seq<Node>,
                                   adj: seq<Edge>, k: nat)
    requires current < |store| && current in closed && nb < |store| && nb !in closed
    requires |store'| == |store| && store'[current] == store[current]
    requires forall u | 0 <= u < |store| && u != nb :: store'[u] == store[u]
    requires store'[nb].cell == store[nb].cell
    requires store'[nb].g == store[current].g + H(store, cost, current, nb)
    requires k < |adj| && Other(adj[k], current) == nb
    requires forall j | 0 <= j < k :: NeighborRelaxed(store, cost, current, closed, open, Other(adj[j], current))
    ensures forall j | 0 <= j <= k :: NeighborRelaxed(store', cost, current, closed, open + {nb}, Other(adj[j], current))
  {
    forall j | 0 <= j <= k
      ensures NeighborRelaxed(store', cost, current, closed, open + {nb}, Other(adj[j], current))
    {
      var v := Other(adj[j], current);
      if v != nb && v !in closed {
        assert NeighborRelaxed(store, cost, current, closed, open, v);
        assert store'[v] == store[v];
      }
    }
  }

  /**
   * `openSet.First()`: the open node that precedes every other, which is
   * unique because ids are.
   */
  method First(store: seq<Node>, open: set<nat>) returns (m: nat)
    requires open != {}
    requires forall v | v in open :: v < |store| && store[v].id == v
    ensures m in open
    ensures forall v | v in open && v != m :: Precedes(store[m], store[v])
  {
    m :| m in open;
    var rest := open - {m};
    while rest != {}
      invariant m in open && rest <= open && m !in rest
      invariant forall v | v in open - rest && v != m :: Precedes(store[m], store[v])
      decreases |rest|
    {
      var v :| v in rest;
      if Precedes(store[v], store[m]) {
        m := v;
      }
      rest := rest - {v};
    }
  }

  class Graph {
    /** `nodes`: the node made for each octree cell. */
    var nodes: map<nat, nat>
    /** The node objects, by id. */
    var store: seq<Node>
    /** `edges`: each undirected edge once. */
    var edges: set<Edge>
    /** `pathList`: the node ids of the last path found. */
    var pathList: seq<nat>

    ghost predicate Valid()
      reads this
    {
      && WellFormed(nodes, store, edges)
      && forall k | 0 <= k < |pathList| :: pathList[k] < |store|
    }

    /** A new graph holds no node, no edge and no path. */
    constructor ()
      ensures Valid()
      ensures nodes == map[] && store == [] && edges == {} && pathList == []
    {
      nodes, store, edges, pathList := map[], [], {}, [];
    }

    /** `FindNode`: the node of a cell, or null when the cell has none. */
    function FindNode(cell: nat): (r: Option<nat>)
      reads this
      requires Valid()
      ensures r.Some? <==> cell in nodes
      ensures r.Some? ==> r.value < |store| && store[r.value].cell == cell
    {
      if cell in nodes then Some(nodes[cell]) else None
    }

    /** `GetPathNode`: the cell of the `index`-th node on the path, or null out of range. */
    function GetPathNode(index: int): (r: Option<nat>)
      reads this
      requires Valid()
      ensures r.Some? <==> 0 <= index < |pathList|
      ensures r.Some? ==> r.value in nodes && nodes[r.value] == pathList[index]
    {
      if index < 0 || index >= |pathList| then None else Some(store[pathList[index]].cell)
    }

    /**
     * `AddNode`: a cell that already has a node leaves the graph as it is;
     * a new cell gets exactly one new node, with the next id.
     */
    method AddNode(cell: nat)
      requires Valid()
      modifies this
      ensures Valid()
      ensures cell in nodes
      ensures old(cell in nodes) ==> nodes == old(nodes) && store == old(store)
      ensures old(cell !in nodes) ==>
                && nodes == old(nodes)[cell := |old(store)|]
                && store == old(store) + [NewNode(|old(store)|, cell)]
      ensures edges == old(edges) && pathList == old(pathList)
      ensures Extends(old(nodes), old(store), old(edges), nodes, store, edges)
    {
      if cell !in nodes {
        var id := |store|;
        nodes := nodes[cell := id];
        store := store + [NewNode(id, cell)];
      }
    }

    /**
     * `AddEdge`: nothing happens unless both cells have nodes. A new edge,
     * in neither orientation present yet, is added to `edges` and appended to
     * both endpoints' lists; a repeat changes nothing.
     */
    method AddEdge(a: nat, b: nat)
      requires Valid()
      modifies this
      ensures Valid()
      ensures nodes == old(nodes) && pathList == old(pathList)
      ensures a !in nodes || b !in nodes ==> store == old(store) && edges == old(edges)
      ensures a in nodes && b in nodes ==>
                var e := Edge(nodes[a], nodes[b]);
                && HasEdge(edges, e)
                && (old(HasEdge(edges, e)) ==> store == old(store) && edges == old(edges))
                && (!old(HasEdge(edges, e)) ==>
                      && edges == old(edges) + {e}
                      && |edges| == |old(edges)| + 1
                      && store == AppendEdge(old(store), e))
      ensures Extends(old(nodes), old(store), old(edges), nodes, store, edges)
    {
      var nodeX := FindNode(a);
      var nodeY := FindNode(b);
      if nodeX.None? || nodeY.None? {
        return;
      }
      var e := Edge(nodeX.value, nodeY.value);
      if !HasEdge(edges, e) {
        AddEdgeKeepsWellFormed(nodes, store, edges, e);
        edges := edges + {e};
        store := AppendEdge(store, e);
      }
    }

    /**
     * The A* loop shared by both revisions, over the node table `st` that the
     * search updates: the start gets g = 0, its h, f = g + h and no `from`,
     * and is opened; each round counts one pop and gives up once the count
     * passes `maxIterations`, takes the first open node, ends with its path if
     * it is the goal, and otherwise closes it and relaxes its neighbours. An
     * unknown start or goal cell ends the search at once, with nothing changed.
     */
    method Search(startCell: nat, endCell: nat, cost: (nat, nat) -> real, maxIterations: nat)
      returns (found: bool, path: seq<nat>, ghost pops: nat)
      requires Valid()
      modifies this
      ensures Valid() && nodes == old(nodes) && edges == old(edges) && pathList == old(pathList)
      ensures SameShape(old(store), store)
      ensures startCell !in nodes || endCell !in nodes ==> !found && store == old(store)
      ensures !found ==> path == []
      ensures found ==>
                && startCell in nodes && endCell in nodes
                && IsFromChain(store, edges, cost, nodes[startCell], nodes[endCell], path)
      ensures !found && startCell in nodes && endCell in nodes ==>
                (pops == maxIterations < |store|) || !Reachable(edges, nodes[startCell], nodes[endCell])
      ensures pops <= maxIterations
    {
      var startNode := FindNode(startCell);
      var endNode := FindNode(endCell);
      if startNode.None? || endNode.None? {
        return false, [], 0;
      }
      var st;
      found, path, pops, st := SearchFrom(store, edges, startNode.value, endNode.value, cost, maxIterations);
      SameShapeKeepsWellFormed(nodes, store, st, edges);
      store := st;
    }

    /**
     * `AStar(startNode, endNode)` of the first revision: clears `pathList`,
     * searches with a cap of 10000 pops and leaves the path in `pathList`;
     * the list is non-empty exactly when a path was found.
     */
    method AStar(startCell: nat, endCell: nat, cost: (nat, nat) -> real) returns (found: bool, ghost pops: nat)
      requires Valid()
      modifies this
      ensures Valid() && nodes == old(nodes) && edges == old(edges)
      ensures SameShape(old(store), store)
      ensures startCell !in nodes || endCell !in nodes ==> !found && store == old(store)
      ensures found <==> pathList != []
      ensures found ==>
                && startCell in nodes && endCell in nodes
                && IsFromChain(store, edges, cost, nodes[startCell], nodes[endCell], pathList)
                && GetPathNode(0) == Some(startCell) && GetPathNode(|pathList| - 1) == Some(endCell)
      ensures startCell in nodes && endCell in nodes && |store| <= MaxIterations ==>
                (found <==> Reachable(edges, nodes[startCell], nodes[endCell]))
      ensures pops <= MaxIterations
    {
      pathList := [];
      var path;
      found, path, pops := Search(startCell, endCell, cost, MaxIterations);
      pathList := path;
      if found {
        FromChainReaches(store, edges, cost, nodes[startCell], nodes[endCell], path);
      }
    }

    /**
     * `AStar(startNode, endNode, ref path)` of the second revision: the
     * caller's list is cleared and filled only with the path found, under a
     * cap of 5000 pops.
     */
    method AStarWithPath(startCell: nat, endCell: nat, cost: (nat, nat) -> real)
      returns (found: bool, path: seq<nat>, ghost pops: nat)
      requires Valid()
      modifies this
      ensures Valid() && nodes == old(nodes) && edges == old(edges) && pathList == old(pathList)
      ensures SameShape(old(store), store)
      ensures startCell !in nodes || endCell !in nodes ==> !found && store == old(store)
      ensures found <==> path != []
      ensures found ==>
                && startCell in nodes && endCell in nodes
                && IsFromChain(store, edges, cost, nodes[startCell], nodes[endCell], path)
                && store[path[0]].cell == startCell && store[path[|path| - 1]].cell == endCell
      ensures startCell in nodes && endCell in nodes && |store| <= MaxIterationsWithPath ==>
                (found <==> Reachable(edges, nodes[startCell], nodes[endCell]))
      ensures pops <= MaxIterationsWithPath
    {
      found, path, pops := Search(startCell, endCell, cost, MaxIterationsWithPath);
      if found {
        FromChainReaches(store, edges, cost, nodes[startCell], nodes[endCell], path);
      }
    }
  }

  /**
   * The body of the search once both nodes are known, on the node table
   * `store`; returns the updated table as `st`.
   */
  method SearchFrom(store: seq<Node>, edges: set<Edge>, start: nat, goal: nat,
                    cost: (nat, nat) -> real, maxIterations: nat)
    returns (found: bool, path: seq<nat>, ghost pops: nat, st: seq<Node>)
    requires start < |store| && goal < |store|
    requires ListsInSet(store, edges) && EdgesListed(store, edges)
    requires forall i | 0 <= i < |store| :: store[i].id == i
    ensures SameShape(store, st)
    ensures !found ==> path == []
    ensures found ==> IsFromChain(st, edges, cost, start, goal, path)
    ensures !found ==> (pops == maxIterations < |store|) || !Reachable(edges, start, goal)
    ensures pops <= maxIterations
  {
    var h := H(store, cost, start, goal);
    st := store[start := store[start].(g := 0.0, h := h, f := 0.0 + h, from := None)];
    var open: set<nat> := {start};
    var closed: set<nat> := {};
    ghost var order: map<nat, nat> := map[];
    ghost var closedInOrder: seq<nat> := [];
    var iterationCount: nat := 0;
    assert Reached(st, edges, cost, start, goal, closed, order, start);
    while open != {}
      invariant SameShape(store, st) && SameShapeLists(st, edges)
      invariant SearchInv(st, edges, cost, start, goal, open, closed, order, iterationCount)
      invariant iterationCount <= maxIterations
      invariant goal !in closed
      invariant |closedInOrder| == iterationCount && Enumerates(closedInOrder, closed)
      invariant EdgesLeadInto(edges, closed, open + closed)
      decreases maxIterations - iterationCount
    {
      ghost var pops0 := iterationCount;
      iterationCount := iterationCount + 1;
      if iterationCount > maxIterations {
        EnumeratedBelow(closedInOrder, closed, |st|, goal);
        return false, [], maxIterations, st;
      }
      var current := First(st, open);
      ghost var numbered := order[current := iterationCount];
      PopKeepsInv(st, edges, cost, start, goal, open, closed, order, pops0, current, numbered);
      if current == goal {
        path := ReconstructPath(st, edges, current, cost, start, goal, closed, numbered);
        return true, path, iterationCount, st;
      }
      EnumeratesSnoc(closedInOrder, closed, current);
      st, open, closed := CloseAndRelax(st, edges, current, goal, cost, open, closed, start, numbered, iterationCount);
      order := numbered;
      closedInOrder := closedInOrder + [current];
    }
    SealedSetUnreachable(edges, closed, start, goal);
    return false, [], iterationCount, st;
  }

  /**
   * The rest of a round once the popped node `current` is not the goal: it
   * is closed and its edges are relaxed. The search invariant is kept, and
   * so is the rule that every edge from a closed node ends in an open or a
   * closed node.
   */
  method CloseAndRelax(st: seq<Node>, edges: set<Edge>, current: nat, goal: nat, cost: (nat, nat) -> real,
                       open: set<nat>, closed: set<nat>, ghost start: nat, ghost order: map<nat, nat>, ghost pops: nat)
    returns (st': seq<Node>, open': set<nat>, closed': set<nat>)
    requires SameShapeLists(st, edges)
    requires current in open && current !in closed
    requires SearchInv(st, edges, cost, start, goal, open - {current}, closed + {current}, order, pops)
    requires EdgesLeadInto(edges, closed, open + closed)
    ensures SameShape(st, st') && SameShapeLists(st', edges)
    ensures closed' == closed + {current}
    ensures SearchInv(st', edges, cost, start, goal, open', closed', order, pops)
    ensures EdgesLeadInto(edges, closed', open' + closed')
  {
    closed' := closed + {current};
    st', open' := RelaxNeighbors(st, edges, current, goal, cost, open - {current}, start, closed', order, pops);
    ClosingKeepsLeadInto(st', edges, cost, closed, current, open + closed, open', closed');
    SameShapeKeepsLists(st, st', edges);
  }

  /** Changing only scratch values keeps the edge lists as they were. */
  lemma SameShapeKeepsLists(s: seq<Node>, t: seq<Node>, edges: set<Edge>)
    requires SameShapeLists(s, edges) && SameShape(s, t)
    ensures SameShapeLists(t, edges)
  {
  }

  /**
   * Closing `current` after relaxing it: edges from the nodes closed before
   * still end in nodes reached so far, and every edge from `current` ends in
   * a closed or open node.
   */
  lemma ClosingKeepsLeadInto(st: seq<Node>, edges: set<Edge>, cost: (nat, nat) -> real,
                             closed0: set<nat>, current: nat, reached: set<nat>, open: set<nat>, closed: set<nat>)
    requires EdgesLeadInto(edges, closed0, reached)
    requires closed == closed0 + {current} && current < |st|
    requires reached <= open + closed
    requires forall v | HasEdge(edges, Edge(current, v)) :: NeighborRelaxed(st, cost, current, closed, open, v)
    ensures EdgesLeadInto(edges, closed, open + closed)
  {
  }

  /**
   * One relaxation inside the neighbour loop, under the guard: the search
   * invariant, the relaxation frame, the settled neighbours and `OnlyLowered`
   * all carry over to the updated table.
   */
  lemma RelaxStep(store: seq<Node>, st: seq<Node>, edges: set<Edge>, cost: (nat, nat) -> real,
                  start: nat, goal: nat, open: set<nat>, openOut: set<nat>, closed: set<nat>,
                  order: map<nat, nat>, pops: nat, current: nat, nb: nat, relaxed: seq<Node>,
                  adj: seq<Edge>, k: nat)
    requires SearchInv(st, edges, cost, start, goal, openOut, closed, order, pops)
    requires RelaxedFrom(store, st, edges, cost, current, closed, openOut)
    requires OnlyLowered(store, st, open) && open <= openOut
    requires current in closed && nb < |st| && nb !in closed && HasEdge(edges, Edge(current, nb))
    requires k < |adj| && Other(adj[k], current) == nb
    requires forall j | 0 <= j < k :: NeighborRelaxed(st, cost, current, closed, openOut, Other(adj[j], current))
    requires var tentative := st[current].g + H(st, cost, current, nb);
      var h := H(st, cost, nb, goal);
      && (tentative < st[nb].g || nb !in openOut)
      && relaxed == st[nb := st[nb].(g := tentative, h := h, f := tentative + h, from := Some(current))]
    ensures SearchInv(relaxed, edges, cost, start, goal, openOut + {nb}, closed, order, pops)
    ensures RelaxedFrom(store, relaxed, edges, cost, current, closed, openOut + {nb})
    ensures forall j | 0 <= j <= k :: NeighborRelaxed(relaxed, cost, current, closed, openOut + {nb}, Other(adj[j], current))
    ensures OnlyLowered(store, relaxed, open)
  {
    RelaxKeepsInv(store, st, edges, cost, start, goal, openOut, closed, order, pops, current, nb, relaxed);
    RelaxKeepsNeighborsRelaxed(st, cost, current, closed, openOut, nb, relaxed, adj, k);
    GuardKeepsOnlyLowered(store, st, relaxed, open, openOut, nb);
  }

  /**
   * The `foreach` over `current`'s edges: the neighbour is the end of the
   * edge that is not `current`; closed neighbours are skipped; an open
   * neighbour reached more cheaply, or one not yet open, gets g = current's
   * g + step cost, its h, f = g + h and `from = current`, and is opened.
   */
  method RelaxNeighbors(store: seq<Node>, edges: set<Edge>, current: nat, goal: nat, cost: (nat, nat) -> real,
                        open: set<nat>, ghost start: nat, closed: set<nat>, ghost order: map<nat, nat>, ghost pops: nat)
    returns (st: seq<Node>, openOut: set<nat>)
    requires SameShapeLists(store, edges)
    requires current in closed
    requires SearchInv(store, edges, cost, start, goal, open, closed, order, pops)
    ensures SearchInv(st, edges, cost, start, goal, openOut, closed, order, pops)
    ensures open <= openOut
    ensures RelaxedFrom(store, st, edges, cost, current, closed, openOut)
    ensures forall v | HasEdge(edges, Edge(current, v)) :: NeighborRelaxed(st, cost, current, closed, openOut, v)
    ensures OnlyLowered(store, st, open)
  {
    var adj := store[current].edges;
    st, openOut := store, open;
    var k := 0;
    while k < |adj|
      invariant 0 <= k <= |adj|
      invariant SearchInv(st, edges, cost, start, goal, openOut, closed, order, pops)
      invariant open <= openOut
      invariant RelaxedFrom(store, st, edges, cost, current, closed, openOut)
      invariant forall j | 0 <= j < k :: NeighborRelaxed(st, cost, current, closed, openOut, Other(adj[j], current))
      invariant OnlyLowered(store, st, open)
    {
      var edge := adj[k];
      assert edge in edges && (edge.x == current || edge.y == current);
      assert edge.x < |st| && edge.y < |st|;
      var neighbor := Other(edge, current);
      assert HasEdge(edges, Edge(current, neighbor));
      if neighbor !in closed {
        var tentative := st[current].g + H(st, cost, current, neighbor);
        if tentative < st[neighbor].g || neighbor !in openOut {
          var h := H(st, cost, neighbor, goal);
          var relaxed := st[neighbor := st[neighbor].(g := tentative, h := h, f := tentative + h, from := Some(current))];
          RelaxStep(store, st, edges, cost, start, goal, open, openOut, closed, order, pops, current, neighbor, relaxed, adj, k);
          st, openOut := relaxed, openOut + {neighbor};
        }
      }
      k := k + 1;
    }
    forall v | HasEdge(edges, Edge(current, v))
      ensures NeighborRelaxed(st, cost, current, closed, openOut, v)
    {
      var j := ListedNeighbor(store, edges, current, v);
    }
  }

  /**
   * `ReconstructPath`: walks the `from` links back from `node` to the start
   * and reverses the walk. Every node on it was reached by the search, so
   * the result runs from `start` to `node` along edges, each node being the
   * `from` of its successor.
   */
  method ReconstructPath(store: seq<Node>, edges: set<Edge>, node: nat, ghost cost: (nat, nat) -> real,
                         ghost start: nat, ghost goal: nat, ghost closed: set<nat>, ghost order: map<nat, nat>)
    returns (path: seq<nat>)
    requires start < |store| && goal < |store| && node < |store|
    requires forall u | u in closed :: u < |store|
    requires node in order && order.Keys == closed + {node}
    requires forall v | v in order :: v < |store| && Reached(store, edges, cost, start, goal, closed, order, v)
    ensures IsFromChain(store, edges, cost, start, node, path)
  {
    var list: seq<nat> := [];
    var cur: Option<nat> := Some(node);
    while cur.Some?
      invariant forall k | 0 <= k < |list| :: list[k] in order
      invariant cur.Some? ==> cur.value in order
      invariant list == [] ==> cur == Some(node)
      invariant list != [] ==> list[0] == node && store[list[|list| - 1]].from == cur
      invariant BackChain(store, edges, cost, list)
      decreases if cur.Some? then order[cur.value] + 1 else 0
    {
      var v := cur.value;
      assert Reached(store, edges, cost, start, goal, closed, order, v);
      if list != [] {
        var w := list[|list| - 1];
        assert Reached(store, edges, cost, start, goal, closed, order, w);
        BackChainSnoc(store, edges, cost, list, v);
      }
      list := list + [v];
      cur := store[v].from;
    }
    var last := list[|list| - 1];
    assert Reached(store, edges, cost, start, goal, closed, order, last);
    path := Reversed(list);
    ReversedBackChain(store, edges, cost, start, node, list);
  }

  /**
   * A walk backwards along `from` links: each node's `from` is the next one,
   * joined to it by an edge, with g growing by the step cost.
   */
  ghost predicate BackChain(store: seq<Node>, edges: set<Edge>, cost: (nat, nat) -> real, list: seq<nat>)
  {
    && (forall k | 0 <= k < |list| :: list[k] < |store|)
    && (forall k | 0 <= k < |list| - 1 ::
          && store[list[k]].from == Some(list[k + 1])
          && HasEdge(edges, Edge(list[k + 1], list[k]))
          && store[list[k]].g == store[list[k + 1]].g + H(store, cost, list[k + 1], list[k]))
  }

  lemma BackChainSnoc(store: seq<Node>, edges: set<Edge>, cost: (nat, nat) -> real, list: seq<nat>, v: nat)
    requires BackChain(store, edges, cost, list) && list != [] && v < |store|
    requires var w := list[|list| - 1];
      && store[w].from == Some(v)
      && HasEdge(edges, Edge(v, w))
      && store[w].g == store[v].g + H(store, cost, v, w)
    ensures BackChain(store, edges, cost, list + [v])
  {
  }

  /** Reversing a backward walk that ends at the start gives a path from the start. */
  lemma ReversedBackChain(store: seq<Node>, edges: set<Edge>, cost: (nat, nat) -> real,
                          start: nat, node: nat, list: seq<nat>)
    requires BackChain(store, edges, cost, list) && list != []
    requires list[0] == node && list[|list| - 1] == start
    requires store[start].from.None? && store[start].g == 0.0
    ensures IsFromChain(store, edges, cost, start, node, Reversed(list))
  {
    var path := Reversed(list);
    var n := |list|;
    forall k | 0 <= k < n - 1
      ensures && store[path[k + 1]].from == Some(path[k])
              && HasEdge(edges, Edge(path[k], path[k + 1]))
              && store[path[k + 1]].g == store[path[k]].g + H(store, cost, path[k], path[k + 1])
    {
      assert path[k] == list[n - 1 - k] && path[k + 1] == list[n - 2 - k];
      var j := n - 2 - k;
      assert 0 <= j < n - 1;
    }
  }
}
