# Octree pathfinding, modelled in Dafny

This project models the core of a Unity octree pathfinder:

- **The world box and the octree.** The world's bounding box is grown around every collider and then made a cube. An octree divides it into cells, eight octants at a time.
- **The navigation graph.** The octree's empty leaves become the nodes of a graph, and every two sibling empty leaves are joined by an edge.
- **A\* search.** The search runs over that graph. An open set ordered by f, then by id, decides which node is expanded next.
- **Path reconstruction.** The path is rebuilt from the `from` links.
- **Path simplification.** A greedy pass skips waypoints that can be seen directly.
- **Search contexts and their pool.** Each search uses a scratch context: parallel per-node arrays that an epoch counter stamps. Contexts are kept in a bounded pool for reuse.

The modules follow the source files:

| module | file | form |
|---|---|---|
| `Geometry` | `geometry.dfy` | Unity's `Vector3` and `Bounds`, as values over reals |
| `OctreeObjects` | `octree_object.dfy` | per-triangle boxes; the intersection test as a loop |
| `OctreeNodes` | `octree_node.dfy` | the octant arithmetic; the constructor's loop over an `array` |
| `NavGraph` | `graph.dfy` | `class Graph` with its node table, node store and edge set; the A\* loops |
| `Octrees` | `octree.dfy` | `class Octree`: world bounds, and the recursive collection of empty leaves with sibling edges |
| `PathfindingContexts` | `pathfinding_context.dfy` | `class PathfindingContext` over six arrays |
| `ContextPools` | `context_pool.dfy` | `class PathfindingContextPool`, a stack as a `seq` |
| `PathOptimizers` | `path_optimizer.dfy` | `Simplify`'s nested loops |

How source entities are represented:

- **Object references.**
  - A C# reference to an octree cell is a `handle` number.
  - A reference to a graph `Node` is its id, which indexes `Graph.store`.
  - A null reference is `None`.
- **Numbers.** `float` is `real`. `int` is `int`, kept in range by the invariants where overflow matters.
- **Node ids.** The static id counter of `Node` becomes the length of the graph's node store.

Each stateful operation is proved against a function or predicate of the old state. The properties are proved as lemmas about those functions.

## Model

| member | source | states |
|---|---|---|
| Geometry.FromCenterSize | OctreePathfinding/Assets/Scripts/Octree/OctreeNode.cs:34 | `new Bounds(center, size)` has exactly that centre and that size |
| Geometry.FromMinMax | OctreePathfinding/Assets/Scripts/Octree/Octree.cs:67 | `SetMinMax(lo, hi)` yields a box whose min corner is `lo` and whose max corner is `hi` |
| Geometry.Encapsulate | OctreePathfinding/Assets/Scripts/Octree/OctreeObject.cs:26-28 | growing a box by a point makes its corners the componentwise min and max of the old corners and the point |
| Geometry.EncapsulateGrows | OctreePathfinding/Assets/Scripts/Octree/OctreeObject.cs:26-28 | the grown box is well formed, contains the point, and still contains everything the old box contained |
| Geometry.EncapsulateBounds | OctreePathfinding/Assets/Scripts/Octree/Octree.cs:63 | growing a box by a well-formed box gives the smallest box around both: its corners are the componentwise min of the min corners and max of the max corners |
| Geometry.EncapsulateBoundsGrows | OctreePathfinding/Assets/Scripts/Octree/Octree.cs:63 | growing a box by another box gives a well-formed box that contains every point of both |
| Geometry.Bounds.Intersects | OctreePathfinding/Assets/Scripts/Octree/OctreeObject.cs:38 | boxes that do not intersect share no point, and two well-formed boxes that do intersect share a point (the larger of their min corners), so for well-formed boxes intersection means a common point |
| Geometry.IntersectsSymmetric | OctreePathfinding/Assets/Scripts/Octree/OctreeObject.cs:38 | box intersection does not depend on argument order |
| OctreeObjects.TriangleBounds | OctreePathfinding/Assets/Scripts/Octree/OctreeObject.cs:26-28 | a triangle's box, started at `v0` with zero size and grown by `v1` and `v2`, has the componentwise min of the vertices as min corner and their max as max corner |
| OctreeObjects.TriangleBoundsIsSmallest | OctreePathfinding/Assets/Scripts/Octree/OctreeObject.cs:26-28 | the triangle box is well formed and contains all three vertices; every box that contains them contains it |
| OctreeObjects.NewOctreeObject | OctreePathfinding/Assets/Scripts/Octree/OctreeObject.cs:10-32 | a null filter or null mesh gives no boxes; otherwise there is one box per index triple, in order, `|triangles| / 3` of them, box k being triangle k's |
| OctreeObjects.Intersects | OctreePathfinding/Assets/Scripts/Octree/OctreeObject.cs:34-42 | true iff some triangle box intersects the cell's box (false for an object without boxes) |
| OctreeNodes.ChildBox | OctreePathfinding/Assets/Scripts/Octree/OctreeNode.cs:24-34 | every octant box has exactly half the parent's size on every axis |
| OctreeNodes.ChildSpan | OctreePathfinding/Assets/Scripts/Octree/OctreeNode.cs:25-33 | on each axis octant i spans [parent min, parent centre] when that axis's bit (1, 2, 4) of i is 0, and [parent centre, parent max] when it is 1 |
| OctreeNodes.ChildInsideParent | OctreePathfinding/Assets/Scripts/Octree/OctreeNode.cs:24-34 | each octant box of a well-formed box is well formed and lies inside the parent |
| OctreeNodes.ChildrenCover | OctreePathfinding/Assets/Scripts/Octree/OctreeNode.cs:28-35 | every point of the parent lies in some octant box: the eight octants cover the parent |
| OctreeNodes.DistinctIndicesDifferInABit | OctreePathfinding/Assets/Scripts/Octree/OctreeNode.cs:31-33 | two different octant indices below 8 put some axis on different halves |
| OctreeNodes.ChildInteriorsDisjoint | OctreePathfinding/Assets/Scripts/Octree/OctreeNode.cs:28-35 | the interiors of two different octants share no point |
| OctreeNodes.ChildrenDistinct | OctreePathfinding/Assets/Scripts/Octree/OctreeNode.cs:28-35 | for a parent of positive size the eight octant boxes are pairwise different |
| OctreeNodes.OctreeNode.IsLeaf | OctreePathfinding/Assets/Scripts/Octree/OctreeNode.cs:16 | a cell is a leaf exactly when it has no children array (it has not been divided) |
| OctreeNodes.NewOctreeNode | OctreePathfinding/Assets/Scripts/Octree/OctreeNode.cs:8-36 | the new cell keeps its box and minimum size, has exactly 8 child boxes with entry i equal to octant i, and is a leaf with no objects |
| NavGraph.NewNode | OctreePathfinding/Assets/Scripts/Octree/Graph.cs:19-23 | a new node has the given id and cell, no predecessor and no edges |
| NavGraph.SameEdgeIsHashEquivalence | OctreePathfinding/Assets/Scripts/Octree/Graph.cs:39-44 | `Edge.Equals` is reflexive, symmetric and transitive, treats `(x, y)` and `(y, x)` as equal, and equal edges have equal `x ^ y` hashes |
| NavGraph.HasEdgeIffSameEdgeIn | OctreePathfinding/Assets/Scripts/Octree/Graph.cs:41 | the edge set contains an edge iff it holds an edge equal to it under `Edge.Equals` |
| NavGraph.Compare | OctreePathfinding/Assets/Scripts/Octree/Graph.cs:153-166 | the comparer gives 0 when either node is null or f and id both agree; a negative result iff the first node has smaller f, or equal f and smaller id; a positive result iff the reverse; the result is in -1..1 |
| NavGraph.CompareIsTotalOrder | OctreePathfinding/Assets/Scripts/Octree/Graph.cs:155-165 | the comparer is antisymmetric, separates nodes with different ids, and its order is transitive |
| NavGraph.NewNodeKeepsWellFormed | OctreePathfinding/Assets/Scripts/Octree/Graph.cs:67-73 | adding a new cell's node with the next id keeps the graph well formed, since the node lists no edge |
| NavGraph.AddEdgeKeepsOrientationFree | OctreePathfinding/Assets/Scripts/Octree/Graph.cs:176 | adding an edge the set does not hold in either orientation keeps the set free of reversed duplicates |
| NavGraph.AddEdgeKeepsWellFormed | OctreePathfinding/Assets/Scripts/Octree/Graph.cs:175-180 | adding a new edge to the set and to both endpoints' edge lists keeps the graph well formed and grows the set by one |
| NavGraph.First | OctreePathfinding/Assets/Scripts/Octree/Graph.cs:107 | the open set's first node is in the set and precedes every other open node in (f, id) order |
| NavGraph.PopKeepsInv | OctreePathfinding/Assets/Scripts/Octree/Graph.cs:107-116 | removing the first open node and closing it keeps the search invariant, and every numbered node is reached |
| NavGraph.RelaxKeepsInv | OctreePathfinding/Assets/Scripts/Octree/Graph.cs:124-133 | updating a neighbour's g, h, f and `from` through the current node and opening it keeps the search invariant |
| NavGraph.RelaxStep | OctreePathfinding/Assets/Scripts/Octree/Graph.cs:126-133 | one guarded relaxation (a lower g, or a neighbour not yet open) keeps the search invariant, the relaxation frame, the neighbours already settled and `OnlyLowered` |
| NavGraph.RelaxNeighbors | OctreePathfinding/Assets/Scripts/Octree/Graph.cs:118-134 | the neighbour loop keeps the search invariant and only grows the open set; closed nodes are untouched, and every node it changes is open, joined to the current node by an edge, has it as `from`, and has g = its g + step cost; afterwards every edge neighbour of the current node that is not closed is open, with g at most the current node's g plus the step cost; a node that was already open is changed only when its g strictly drops (`OnlyLowered`, the `tentative_gScore < neighbor.g` guard) |
| NavGraph.BackChainSnoc | OctreePathfinding/Assets/Scripts/Octree/Graph.cs:142-146 | appending a node's predecessor keeps the collected list a chain of `from` links along edges with consistent g |
| NavGraph.ReversedBackChain | OctreePathfinding/Assets/Scripts/Octree/Graph.cs:148 | reversing a back chain that ends at the start yields a path from the start to the node |
| NavGraph.ReconstructPath | OctreePathfinding/Assets/Scripts/Octree/Graph.cs:140-149 | following `from` links from the goal and reversing gives a path from the start to the goal: each step follows an edge and a `from` link, and g adds up along it |
| NavGraph.SearchFrom | OctreePathfinding/Assets/Scripts/Octree/Graph.cs:89-137 | the A\* loop changes only node fields, pops at most the iteration cap, and returns either no path or a `from`-linked path from the start to the goal; it fails only when the goal cannot be reached from the start over the edges, or when it has popped the cap and the graph has more nodes than the cap |
| NavGraph.SealedSetUnreachable | OctreePathfinding/Assets/Scripts/Octree/Graph.cs:99-137 | when no edge leaves a set of nodes, nothing outside it is reachable from inside it (so an exhausted search has proved the goal unreachable) |
| NavGraph.FromChainReaches | OctreePathfinding/Assets/Scripts/Octree/Graph.cs:140-149 | a path the search returns is a walk along edges, so its goal is reachable from its start |
| NavGraph.EnumeratedBelow | OctreePathfinding/Assets/Scripts/Octree/Graph.cs:101 | a list of distinct node ids that misses the goal is shorter than the node count, so the cap cannot be reached while the graph has no more nodes than the cap |
| NavGraph.Graph.constructor | OctreePathfinding/Assets/Scripts/Octree/Graph.cs:49-52 | a new graph has no node, no edge and an empty path list |
| NavGraph.Graph.FindNode | OctreePathfinding/Assets/Scripts/Octree/Graph.cs:196-200 | the lookup finds a node iff the cell has one, and that node stands for the cell |
| NavGraph.Graph.GetPathNode | OctreePathfinding/Assets/Scripts/Octree/Graph.cs:56-65 | returns a cell iff the index is inside the path list, and then it is the cell the graph maps to the node at that index |
| NavGraph.Graph.AddNode | OctreePathfinding/Assets/Scripts/Octree/Graph.cs:67-73 | afterwards the cell has a node; a known cell changes nothing; a new cell gets exactly one new node, with the next id; edges and path are untouched |
| NavGraph.Graph.AddEdge | OctreePathfinding/Assets/Scripts/Octree/Graph.cs:168-181 | with either cell missing nothing changes; otherwise the edge is present afterwards, and it is added to the set and both nodes' lists exactly when it was absent in both orientations |
| NavGraph.Graph.Search | OctreePathfinding/Assets/Scripts/Octree/Graph.cs:89-137 | a missing start or end cell fails with nothing changed; success yields a `from`-linked path from the start cell's node to the end cell's node; with both cells known, failure means the end is unreachable from the start, or the cap was hit in a graph with more nodes than the cap; the pop count stays within the cap |
| NavGraph.Graph.AStar | OctreePathfinding/Assets/Scripts/Octree/Graph.cs:77-138 | success iff the path list is non-empty, and then it is a path from start to end whose first `GetPathNode` is the start cell and last is the end cell; in a graph of at most 10000 nodes it succeeds iff the end cell's node is reachable from the start cell's; at most 10000 pops; the nodes and edges are unchanged |
| NavGraph.Graph.AStarWithPath | OctreePathfinding/Assets/Scripts/Octree/AStar.cs:10-66 | the same for the caller's list, which starts at the start cell's node and ends at the end cell's; success iff reachable in a graph of at most 5000 nodes; at most 5000 pops; the graph's own path list is left alone |
| Octrees.RootHandle | OctreePathfinding/Assets/Scripts/Octree/Octree.cs:26-31 | a cell's own handle is among the collected leaves if it is an empty leaf, and among the other cells otherwise; when no handle is both (as `FreshFor` demands), the handle is among the collected leaves iff the cell is an empty leaf |
| Octrees.LeafIsWholeSubtree | OctreePathfinding/Assets/Scripts/Octree/Octree.cs:26-33 | an undivided cell is its own only empty leaf when it holds no obstacle and otherwise yields none, and contributes no sibling pairs |
| Octrees.BelowIsAll | OctreePathfinding/Assets/Scripts/Octree/Octree.cs:35-46 | an internal cell's empty leaves are its children's, child by child in index order, and its sibling pairs are its children's plus its own |
| Octrees.PairCount | OctreePathfinding/Assets/Scripts/Octree/Octree.cs:40-46 | the i/j loops make i(2n-i-1)/2 calls after i rows, which is 28 for 8 children |
| Octrees.InGraphIffEmptyLeaf | OctreePathfinding/Assets/Scripts/Octree/Octree.cs:40-46 | once the children have been collected, the child pairs `AddEdge` links (both cells having nodes) are exactly the pairs of empty-leaf siblings |
| Octrees.EncapsulateAllHolds | OctreePathfinding/Assets/Scripts/Octree/Octree.cs:61-64 | the box grown over every collider box is well formed and contains the start box and every collider box |
| Octrees.MaxDim | OctreePathfinding/Assets/Scripts/Octree/Octree.cs:66 | the largest of the three sizes is at least each of them and equal to one of them |
| Octrees.CubedIsEnclosingCube | OctreePathfinding/Assets/Scripts/Octree/Octree.cs:66-67 | the cube keeps the box's centre, has the largest dimension as its side on every axis, and contains the box |
| Octrees.WorldBoundsHoldEverything | OctreePathfinding/Assets/Scripts/Octree/Octree.cs:59-68 | the world bounds from the default box are a well-formed cube containing the origin and every collider box |
| Octrees.Octree.constructor | OctreePathfinding/Assets/Scripts/Octree/Octree.cs:14-22 | the bounds are the cube around all collider boxes; the leaf list is the tree's empty leaves; exactly those cells gain nodes; every sibling pair of empty leaves is linked, and every new edge joins such a pair |
| Octrees.Octree.CalculateBounds | OctreePathfinding/Assets/Scripts/Octree/Octree.cs:59-68 | the bounds become the cube around the old bounds grown by every collider box |
| Octrees.Octree.GetEmptyLeaves | OctreePathfinding/Assets/Scripts/Octree/Octree.cs:24-47 | appends the subtree's empty leaves in depth-first child order; adds nodes for exactly those cells; links every sibling pair of empty leaves; adds no other edge |
| Octrees.Octree.WalkChildren | OctreePathfinding/Assets/Scripts/Octree/Octree.cs:35-38 | the child loop appends each child's empty leaves in turn, with the same graph growth, child by child |
| Octrees.Octree.LinkSiblings | OctreePathfinding/Assets/Scripts/Octree/Octree.cs:40-46 | the pair loops make n(n-1)/2 `AddEdge` calls; afterwards every two children with nodes are linked, no node is added, and each new edge joins two children |
| PathfindingContexts.NewSearchKeepsInv | OctreePathfinding/Assets/Scripts/Octree/PathfindingContext.cs:25-33 | a new search keeps the counter in range and every stamp at most the counter; the counter is never `int.MaxValue` afterwards |
| PathfindingContexts.NewSearchRetiresSlots | OctreePathfinding/Assets/Scripts/Octree/PathfindingContext.cs:25-36 | except on the wraparound step the counter goes up by one, and no slot is active afterwards |
| PathfindingContexts.WraparoundMakesEverySlotLive | OctreePathfinding/Assets/Scripts/Octree/PathfindingContext.cs:28-36 | on the wraparound step every slot is active afterwards |
| PathfindingContexts.WraparoundCounterexample | OctreePathfinding/Assets/Scripts/Octree/PathfindingContext.cs:28-32 | a one-slot context, valid and stamped in the last epoch, has its slot active right after the wraparound |
| PathfindingContexts.IsolatedNewSearchRetiresSlots | OctreePathfinding/Assets/Scripts/Octree/PathfindingContext.cs:25-36 | with the counter restarted at 1, every new search keeps the invariant and leaves no slot active |
| PathfindingContexts.PathfindingContext.constructor | OctreePathfinding/Assets/Scripts/Octree/PathfindingContext.cs:12-22 | six fresh arrays of length `nodeCount`, zeroed, with the counter at 1, so no slot is active |
| PathfindingContexts.PathfindingContext.BeginNewSearch | OctreePathfinding/Assets/Scripts/Octree/PathfindingContext.cs:25-33 | the counter and stamps become `CounterAfter` and `StampsAfter` of the old ones; the other arrays are untouched; the invariant holds |
| PathfindingContexts.PathfindingContext.BeginNewSearchIsolated | OctreePathfinding/Assets/Scripts/Octree/PathfindingContext.cs:25-33 | the corrected step: the same, except that the counter restarts at 1; no slot is active afterwards |
| PathfindingContexts.PathfindingContext.IsActive | OctreePathfinding/Assets/Scripts/Octree/PathfindingContext.cs:36 | a slot is active exactly when it is `Live` for the stamps and counter, the notion the epoch lemmas above are stated in |
| PathfindingContexts.PathfindingContext.Activate | OctreePathfinding/Assets/Scripts/Octree/PathfindingContext.cs:39-47 | slot `id` becomes active with f = g = `float.MaxValue`, h = 0, not closed and no predecessor; every other slot of every array is unchanged |
| ContextPools.ReturnKeepsBound | OctreePathfinding/Assets/Scripts/Octree/PathfindingContextPool.cs:32-36 | returning never lets the stack exceed its cap; it pushes iff the stack is below the cap, and otherwise changes nothing |
| ContextPools.PopKeepsBound | OctreePathfinding/Assets/Scripts/Octree/PathfindingContextPool.cs:26-27 | a pop shrinks the stack by one and keeps it under the cap |
| ContextPools.ReturnThenPop | OctreePathfinding/Assets/Scripts/Octree/PathfindingContextPool.cs:26-35 | a context returned below the cap is the next one popped, and popping it restores the stack |
| ContextPools.PathfindingContextPool.constructor | OctreePathfinding/Assets/Scripts/Octree/PathfindingContextPool.cs:9-11 | a new pool is empty, with `nodeCount` 0 and cap 8 |
| ContextPools.PathfindingContextPool.Init | OctreePathfinding/Assets/Scripts/Octree/PathfindingContextPool.cs:13-22 | drops every pooled context, then holds `initCount` (none if negative) distinct fresh contexts of `nodeCount` slots, with the cap set to `initCount` |
| ContextPools.PathfindingContextPool.Rent | OctreePathfinding/Assets/Scripts/Octree/PathfindingContextPool.cs:24-30 | a non-empty pool hands out and removes its most recently pushed context; an empty pool stays empty and hands out a fresh valid context of `nodeCount` slots |
| ContextPools.PathfindingContextPool.Return | OctreePathfinding/Assets/Scripts/Octree/PathfindingContextPool.cs:32-36 | the stack becomes `AfterReturn` of the old stack: pushed only below the cap |
| PathOptimizers.Scan | OctreePathfinding/Assets/Scripts/Octree/PathOptimizer.cs:28-44 | the look-ahead's last visible index only grows from its start value and stays inside the path |
| PathOptimizers.KeptIndices | OctreePathfinding/Assets/Scripts/Octree/PathOptimizer.cs:23-48 | the indices appended from waypoint n lie beyond n, strictly increase, end at the last waypoint, and number at most `|path| - 1 - n`, so the outer loop ends |
| PathOptimizers.SimplifiedIsSubsequence | OctreePathfinding/Assets/Scripts/Octree/PathOptimizer.cs:16-50 | the result is the path at strictly increasing indices from 0 to the last, so it starts with `path[0]`, ends with the last waypoint, and has between 2 and `|path|` waypoints |
| PathOptimizers.NextIsFallback | OctreePathfinding/Assets/Scripts/Octree/PathOptimizer.cs:25-40 | each step keeps a waypoint beyond the current one, and keeps exactly the next one when the sight to it is blocked |
| PathOptimizers.Simplify | OctreePathfinding/Assets/Scripts/Octree/PathOptimizer.cs:11-51 | the loops return `Simplified(path)`; a null path or one with fewer than two waypoints is returned unchanged |

## Left out

- `Draw*` and gizmo code, `Debug.LogError` and the Unity runtime have no effect on the modelled state and are left out.
- Floating-point rounding is not modelled: `float` is `real`.
- The heuristic and step cost (the squared distance between cell centres) is an abstract function `cost` of two cells. Optimality is not claimed: a squared distance is not an admissible heuristic.
- `NavGraph.Graph.AStar`: the open set is a set with (f, id)-minimum extraction. It does not model the internal corruption of a `SortedSet` when a node's f changes while the node is in the set.
- `OctreeNode.Divide` and `Octree.CreateTree` are not part of this model. The octree constructor receives the built tree and the colliders' boxes as parameters. It does not tie the tree's root box to the computed bounds.
- `Octrees.Octree.constructor` requires `FreshFor`: no cell handle other than an empty leaf's already has a node. This stands for C# object identity, in which every cell is a distinct reference.
- The world bounds start from the default box at the origin with zero size, as the uninitialised `bounds` field does. The computed cube therefore always contains the origin (`Octrees.WorldBoundsHoldEverything`).
- The static id counters become state. A node's id is the length of its graph's node store. `OctreeNode.id` is never assigned, so cells are identified by handle.
- `Graph.GetPathLength` is `|pathList|`. It has no row of its own.
- `ContextPools.PathfindingContextPool.Return` does not check the size of a returned context. Neither does the source, so pooled contexts need not have `nodeCount` slots.
- The thread safety of `ConcurrentStack` is not modelled: the pool is sequential.
- `PathOptimizers.Simplify`: `HasObstacle` (a sphere cast), `Vector3.normalized` and the dot-product threshold test are abstract functions in `Sight`. The contract therefore states the loop's structure, not geometric visibility. `size`, `obstacleMask` and `dirThreshold` live inside those functions.
- `OctreeObjects.NewOctreeObject` requires a well-formed mesh: whole index triples, each naming a vertex. `Mesh` guarantees this, and the source would otherwise throw. `TransformPoint` is an abstract function.
- `OctreeAgent`, `Traveler`, `OctreeBaker` and `PathRequest` are Unity movement, scheduling and data-holder code, and are not part of this model.

## Findings

| source | as written | input that shows it | evidently intended | confidence | as-written member | corrected member |
|---|---|---|---|---|---|---|
| OctreePathfinding/Assets/Scripts/Octree/PathfindingContext.cs:28-32 | On reaching `int.MaxValue` the counter is reset to 0 after every stamp is set to 0, so every slot then counts as active with the values an earlier search left. | A context whose counter is `int.MaxValue - 1`, with a slot stamped in that epoch, gets one more `BeginNewSearch`: `IsActive` holds for the slot. | After a new search no slot is active, e.g. the counter restarts at 1 after clearing the stamps. | not executed | PathfindingContexts.WraparoundCounterexample | PathfindingContexts.PathfindingContext.BeginNewSearchIsolated |
