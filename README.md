# Route planner search, modelled in Dafny

This project models the route planner of an OpenStreetMap route-finding
program (`src/route_planner.cpp`). The planner runs an A*-style search over
the road network from a start node to an end node:

- each node carries search fields: `visited`, `parent`, the cost so far `g`
  and the heuristic `h`;
- discovered but unexpanded nodes wait in an open list;
- the open list is sorted by descending `f = g + h`, and the last element
  (a least-`f` node) is taken next and, unless it is the end node,
  expanded;
- when the end node is popped, the route is rebuilt by walking `parent`
  links back to the start, summing the edge lengths and scaling the sum to
  metres.

Module layout:

- `RouteGraph` (`graph.dfy`) holds the road network: adjacency lists, the
  planar distance, the metric scale, walks and reachability, and the
  route length.
- `SeqUtil` (`seq_util.dfy`) holds sequence facts: distinctness, reversal,
  and the bound on distinct node indices.
- `Frontier` (`frontier.dfy`) holds the `f` value, the comparator, the
  descending sort and the minimum at the back.
- `SearchTree` (`search_tree.dfy`) states the search bookkeeping over
  snapshots of the node fields. It covers what one expansion changes, the
  discovery tree the parent links form, the closed frontier, and the
  parent chains the reconstruction walks. The lemmas about the search live
  here.
- `RoutePlanning` (`route_planner.dfy`) holds the class `RoutePlanner`.
  The node fields are arrays shared with the route model, the open list is
  a sequence field, and `distance` and `path` are fields. The methods
  mirror the C++ member functions, and each is proved against the
  `SearchTree` definitions.

Nodes are indices into the route model's node arena. `parent[v] == -1`
stands for a null parent. A ghost log `inserted` records every node ever
appended to the open list, in order. It witnesses that the parent links
form a tree rooted at the start node, and it bounds the number of loop
iterations.

## Model

| member | source | states |
|---|---|---|
| RoutePlanning.RoutePlanner.constructor | src/route_planner.cpp:7-18 | The start and end nodes are given node indices of the graph. The node field arrays are the route model's own, not copies. The open list starts empty, and the route model's published path is kept as it is. |
| RoutePlanning.RoutePlanner.CalculateHValue | src/route_planner.cpp:21-23 | The heuristic of a node is its distance to the end node, so it is never negative. It depends only on the graph, not on the search state. |
| RoutePlanning.RoutePlanner.Discover | src/route_planner.cpp:33-39 | For an unvisited neighbour, exactly that node's parent, `g`, `h` and `visited` change. It gets `current` as parent, `g(current) + dist(neighbour, current)`, its distance to the end, and visited. It is appended to the open list. |
| RoutePlanning.RoutePlanner.VisitNeighbor | src/route_planner.cpp:32-39 | One iteration of the neighbour loop extends the expansion relation from the first `k` listed neighbours to the first `k + 1`. This holds whether the neighbour was unvisited or already visited. |
| RoutePlanning.RoutePlanner.AddNeighbors | src/route_planner.cpp:30-41 | The open list grows by exactly the neighbours that were unvisited on entry, in list order. Each of them gets `current` as parent, its cost through `current`, its distance to the end as `h`, and visited. Every listed neighbour ends visited. No other node's fields change. |
| RoutePlanning.RoutePlanner.SortOpenList | src/route_planner.cpp:58-60 | The open list becomes a permutation of itself (same multiset) in which no later node compares before an earlier one. |
| RoutePlanning.RoutePlanner.NextNode | src/route_planner.cpp:48-53 | The returned node was on the open list, and its `f` is at most the `f` of every node on it. The open list loses exactly one occurrence of that node and keeps every other node. The node fields are unchanged. |
| RoutePlanning.RoutePlanner.ConstructFinalPath | src/route_planner.cpp:77-96 | The returned route is the node's parent chain. It starts at the start node, ends at the node, and each consecutive pair is a parent link and a graph edge. `distance` becomes the metric scale times the summed edge lengths, which equals the scale times the node's `g`. Called on the start node, the route is `[start]` and `distance` is 0. |
| RoutePlanning.RoutePlanner.ExpandCurrent | src/route_planner.cpp:118 | One `AddNeighbors` call of the search loop. The open list and the insertion log grow by exactly the neighbours unvisited on entry, and the node fields change exactly as `AddNeighbors` changes them. It keeps the search invariant: the discovery tree, no node inserted twice, every open node inserted, a closed frontier, and a discovered end node still open. Nodes it does not discover, and the start node's heuristic, keep the values they had when the search began. |
| RoutePlanning.RoutePlanner.SeedSearch | src/route_planner.cpp:105-110 | The start node is put on the open list, marked visited and expanded. The open list, and the insertion log with it, become the start node followed by the start node's neighbours that were unvisited once the start was marked, in list order. The node fields change exactly as that expansion changes them. Afterwards the search invariant holds, and every node not discovered by the expansion, as well as the start node's heuristic, keeps its initial fields. |
| RoutePlanning.RoutePlanner.PublishRoute | src/route_planner.cpp:113-116 | When the end node is popped, `path` becomes its route from the start node, the end node is reachable, and `distance` is the route's scaled length. |
| RoutePlanning.RoutePlanner.AStarSearch | src/route_planner.cpp:103-120 | The search terminates. The end node ends up visited exactly when it is reachable from the start node. If it is, `path` is its parent chain, a walk from the start node, and `distance` is the scaled length of that walk, which is the scaled `g` of the end node. If it is not, the open list is empty and `path` and `distance` are untouched. Throughout, no node is inserted twice and every open node is visited. A node the search never discovers keeps its initial parent, `g` and `h`, and the start node keeps its initial `h`. |
| RouteGraph.PathLength | src/route_planner.cpp:84-91 | The summed edge length of a route is never negative. |
| RouteGraph.WalkStaysInClosedSet | src/route_planner.cpp:110-119 | A walk that starts inside a set of nodes containing all its members' neighbours never leaves that set. |
| RouteGraph.UnreachableOutsideClosedSet | src/route_planner.cpp:110-120 | No walk leads from such a closed set to a node outside it. So when the open list empties with the end node unvisited, the end node is unreachable. |
| SeqUtil.Reverse | src/route_planner.cpp:93 | The reversed route has the same length, and its element `i` is element `n - 1 - i` of the collected list. |
| SeqUtil.DistinctBelowBound | src/route_planner.cpp:110-119 | A list of distinct node indices is no longer than the number of nodes. This bounds the insertions and makes the search loop terminate. |
| Frontier.CompareIsStrictWeakOrder | src/route_planner.cpp:65-69 | About `Frontier.Compare`, the comparator: `a` goes before `b` exactly when `f(a) > f(b)`. That comparator is irreflexive and transitive, and "neither before the other" is transitive. This is the strict weak order `std::sort` requires of its comparator. |
| Frontier.SortDescending | src/route_planner.cpp:58-60 | The result is a permutation of the input in which `f` never increases from front to back. |
| Frontier.LastIsMinimum | src/route_planner.cpp:48-53 | After the sort, the back element's `f` is at most the `f` of every element. |
| SearchTree.NewNeighborsMembers | src/route_planner.cpp:32-38 | A node is inserted by an expansion if and only if it is a listed neighbour that was unvisited on entry. |
| SearchTree.NewNeighborsDistinct | src/route_planner.cpp:32-38 | One expansion inserts no node twice, even when the neighbour list repeats a node. |
| SearchTree.NewNeighborsSnoc | src/route_planner.cpp:32-33 | The definition of the inserted neighbours unfolded at a prefix one entry longer: loop iteration `k` inserts `ns[k]` exactly when it was unvisited on entry and not listed earlier. It is the step `VisitNeighbor` uses to extend the open list equation. |
| SearchTree.ExpandFresh | src/route_planner.cpp:33-38 | A neighbour the loop finds unvisited was unvisited on entry and not listed before. Writing its four fields extends the expansion relation to it. |
| SearchTree.ExpandSeen | src/route_planner.cpp:33 | A neighbour the loop finds visited was visited on entry or listed before. Skipping it keeps the expansion relation. |
| SearchTree.ExpansionKeepsTree | src/route_planner.cpp:33-38 | Expanding a visited node keeps the discovery tree. Visited nodes are exactly the inserted ones, and the start node has no parent and cost 0. Every other inserted node has a parent inserted before it, is that parent's neighbour, and has `g = g(parent) + dist` and `h = dist(node, end)`. |
| SearchTree.ExpansionKeepsFrontier | src/route_planner.cpp:110-118 | After a node is popped and expanded, every visited node off the open list still has all its neighbours visited, and a visited end node is still on the open list. |
| SearchTree.ExpansionInsertsFresh | src/route_planner.cpp:33-38 | Across the whole search no node is inserted into the open list twice: an expansion appends only nodes not inserted before, each once. |
| SearchTree.ExpansionKeepsUndiscovered | src/route_planner.cpp:33-38 | An expansion writes only the nodes it discovers. If every undiscovered node matched a snapshot of the fields before the expansion, every node still undiscovered matches it afterwards. Every node visited before the expansion keeps its parent, `g` and `h`. |
| SearchTree.ParentDiscoveredEarlier | src/route_planner.cpp:34-36 | Every visited node other than the start has a visited parent. That parent was inserted before it and is adjacent to it. Its `g` is the parent's `g` plus the edge, and its `h` is its distance to the end. |
| SearchTree.RootPath | src/route_planner.cpp:84-89 | Following parent links from a visited node reaches the start node, so the links have no cycle. The chain starts at the start node and ends at the node. |
| SearchTree.RootAlongChain | src/route_planner.cpp:84-89 | A chain of parent links from a visited node extends that node's root path, so it is the only such chain. |
| SearchTree.UpChainReversed | src/route_planner.cpp:84-93 | The child-first list the reconstruction collects, once reversed, is a parent chain listed root first, with the same summed length. |
| SearchTree.RouteFromChain | src/route_planner.cpp:82-93 | The reversed list collected from a visited node up to the start node is that node's root path. It is a walk from the start node, and its length equals the node's `g`. |
| SearchTree.ChainCost | src/route_planner.cpp:84-89 | Along a parent chain, each step is a graph edge, and the summed edge lengths equal the difference of the end points' `g`. |

## Left out

- Turning the constructor's coordinates into nodes is left out: the scaling by 0.01 and `FindClosestNode`. Both are route-model code outside this file. The start and end nodes are given node indices instead.
- `FindNeighbors`, `Node::distance` and `MetricScale` belong to the route model, whose code is not part of this model. They are the fixed adjacency lists, an arbitrary non-negative distance function and a non-negative scale.
- `float` arithmetic is modelled with `real`. Rounding and overflow of `g`, `h` and `distance` are not modelled.
- The search fields' initial values are preconditions of `AStarSearch`: every node unvisited, the start node with no parent and cost 0. The route model sets them, in code not part of this model.
- RoutePlanning.RoutePlanner.SortOpenList: the exact order `std::sort` leaves, including how it breaks ties between nodes with equal `f`, is not fixed. The model sorts by selection sort and promises only a permutation sorted by descending `f`, which is all the source relies on.
- RoutePlanning.RoutePlanner.AStarSearch: the route found is not claimed to be a shortest one. The expansion never revises a discovered node's cost or parent, so the source does not promise optimality either.
- RoutePlanning.RoutePlanner.ConstructFinalPath: the length is summed in a local and assigned to `distance` once, rather than accumulated in the field. The final state is the same. The returned route holds node indices, not copies of the nodes.
- The planner's `distance` starts at 0. Its initializer lives in `route_planner.h`, which is not part of this model.
- The route model's `path` is a sequence field of the planner. Its display is out of scope, as is `<iostream>`.
- The search of one planner runs single-threaded; concurrent use is not modelled.
