/** The route planner: an A*-style search from a start node to an end node
    that discovers each node once, keeps discovered-but-unexpanded nodes in an
    open list, and rebuilds the route by walking parent links back from the
    end node. */
module RoutePlanning {
  import opened RouteGraph
  import opened SeqUtil
  import opened Frontier
  import opened SearchTree

  class RoutePlanner {
    const graph: Graph
    const startNode: nat
    const endNode: nat

    /** The search fields of the route model's nodes, one entry per node:
        `parent[v] == -1` stands for a null parent. */
    const visited: array<bool>
    const parent: array<int>
    const g: array<real>
    const h: array<real>

    var openList: seq<nat>
    /** Length of the last reconstructed route, in metric units. */
    var distance: real
    /** The route model's `path`, where a found route is published. */
    var path: seq<nat>
    /** Every node ever inserted into `openList`, in insertion order. */
    ghost var inserted: seq<nat>

    ghost predicate Valid()
      reads this`openList
    {
      && graph.WellFormed()
      && startNode < |graph.adj| && endNode < |graph.adj|
      && visited.Length == |graph.adj| && parent.Length == |graph.adj|
      && g.Length == |graph.adj| && h.Length == |graph.adj|
      && g != h
      && (forall i :: 0 <= i < |openList| ==> openList[i] < |graph.adj|)
    }

    /** The node fields form the discovery tree of `inserted`. */
    ghost predicate Tree()
      reads this`inserted, visited, parent, g, h
    {
      DiscoveryTree(graph, startNode, endNode, inserted, visited[..], parent[..], g[..], h[..])
    }

    /** The invariant of a search in progress: the discovery tree, no node
        inserted twice, and every node in the open list has been inserted,
        hence is visited. */
    ghost predicate Searching()
      reads this`openList, this`inserted, visited, parent, g, h
    {
      Tree() && Distinct(inserted) && (forall x :: x in openList ==> x in inserted)
    }

    /** The parent chain of a visited node, start node first. */
    ghost function Root(v: nat): (p: seq<nat>)
      reads this`inserted, visited, parent, g, h
      requires Tree()
      requires v < |graph.adj| && visited[v]
    {
      RootPath(graph, startNode, endNode, inserted, visited[..], parent[..], g[..], h[..], v)
    }

    /** Start and end are node indices already resolved by the route model;
        the node field arrays are the model's and are shared, not copied, and
        the model's published `path` is left as it is. */
    constructor (graph: Graph, startNode: nat, endNode: nat,
                 visited: array<bool>, parent: array<int>, g: array<real>, h: array<real>,
                 path: seq<nat>)
      requires graph.WellFormed() && startNode < |graph.adj| && endNode < |graph.adj|
      requires visited.Length == |graph.adj| && parent.Length == |graph.adj|
      requires g.Length == |graph.adj| && h.Length == |graph.adj| && g != h
      ensures Valid()
      ensures this.graph == graph && this.startNode == startNode && this.endNode == endNode
      ensures this.visited == visited && this.parent == parent && this.g == g && this.h == h
      ensures openList == [] && distance == 0.0 && this.path == path && inserted == []
    {
      this.graph, this.startNode, this.endNode := graph, startNode, endNode;
      this.visited, this.parent, this.g, this.h := visited, parent, g, h;
      openList, distance, this.path, inserted := [], 0.0, path, [];
    }

    /** The heuristic: the planar distance from `node` to the end node. */
    function CalculateHValue(node: nat): (hv: real)
      requires graph.WellFormed()
      ensures hv >= 0.0
    {
      graph.dist(node, endNode)
    }

    /** Discovers one unvisited neighbour of `current`: sets its parent, cost
        and heuristic, appends it to the open list and marks it visited. */
    method Discover(current: nat, neighbor: nat)
      requires Valid()
      requires current < |graph.adj| && neighbor < |graph.adj| && !visited[neighbor]
      modifies this`openList, this`inserted, visited, parent, g, h
      ensures Valid()
      ensures visited[..] == old(visited[..])[neighbor := true]
      ensures parent[..] == old(parent[..])[neighbor := current as int]
      ensures g[..] == old(g[..])[neighbor := old(g[current]) + graph.dist(neighbor, current)]
      ensures h[..] == old(h[..])[neighbor := graph.dist(neighbor, endNode)]
      ensures openList == old(openList) + [neighbor] && inserted == old(inserted) + [neighbor]
    {
      parent[neighbor] := current;
      g[neighbor] := g[current] + graph.dist(neighbor, current);
      h[neighbor] := CalculateHValue(neighbor);
      openList := openList + [neighbor];
      visited[neighbor] := true;
      inserted := inserted + [neighbor];
    }

    /** The state of an expansion of `current` after its first `k` listed
        neighbours, relative to the state `vis0, par0, g0, h0, open0, ins0` on
        entry. */
    ghost predicate ExpandedSoFar(current: nat, k: nat, vis0: seq<bool>, par0: seq<int>,
                                  g0: seq<real>, h0: seq<real>, open0: seq<nat>, ins0: seq<nat>)
      reads this`openList, this`inserted, visited, parent, g, h
      requires Valid() && current < |graph.adj| && k <= |graph.adj[current]|
      requires |g0| == |graph.adj|
    {
      var ns := graph.adj[current][..k];
      && openList == open0 + NewNeighbors(ns, vis0)
      && inserted == ins0 + NewNeighbors(ns, vis0)
      && ExpandedBy(graph, endNode, current, ns, vis0, par0, g0, h0, visited[..], parent[..], g[..], h[..])
    }

    /** One iteration of the expansion loop: the `k`-th listed neighbour of
        `current` is discovered if it is not yet visited. */
    method VisitNeighbor(current: nat, k: nat, ghost vis0: seq<bool>, ghost par0: seq<int>,
                         ghost g0: seq<real>, ghost h0: seq<real>, ghost open0: seq<nat>, ghost ins0: seq<nat>)
      requires Valid() && current < |graph.adj| && k < |graph.adj[current]|
      requires |vis0| == |graph.adj| && vis0[current] && |g0| == |graph.adj|
      requires ExpandedSoFar(current, k, vis0, par0, g0, h0, open0, ins0)
      modifies this`openList, this`inserted, visited, parent, g, h
      ensures Valid() && ExpandedSoFar(current, k + 1, vis0, par0, g0, h0, open0, ins0)
    {
      var neighbor := graph.adj[current][k];
      NewNeighborsSnoc(graph.adj[current], k, vis0);
      if !visited[neighbor] {
        ExpandFresh(graph, endNode, current, graph.adj[current], k, vis0, par0, g0, h0,
                    visited[..], parent[..], g[..], h[..]);
        Discover(current, neighbor);
      } else {
        ExpandSeen(graph, endNode, current, graph.adj[current], k, vis0, par0, g0, h0,
                   visited[..], parent[..], g[..], h[..]);
      }
    }

    /** Expands `current`: every neighbour that is not yet visited gets
        `current` as parent, its cost and heuristic, is appended to the open
        list and marked visited. Visited neighbours and all other nodes are
        left alone. */
    method AddNeighbors(current: nat)
      requires Valid()
      requires current < |graph.adj| && visited[current]
      modifies this`openList, this`inserted, visited, parent, g, h
      ensures Valid()
      ensures openList == old(openList) + NewNeighbors(graph.adj[current], old(visited[..]))
      ensures inserted == old(inserted) + NewNeighbors(graph.adj[current], old(visited[..]))
      ensures ExpandedBy(graph, endNode, current, graph.adj[current],
                         old(visited[..]), old(parent[..]), old(g[..]), old(h[..]),
                         visited[..], parent[..], g[..], h[..])
    {
      ghost var vis0, par0, g0, h0 := visited[..], parent[..], g[..], h[..];
      ghost var open0, ins0 := openList, inserted;
      assert graph.adj[current][..0] == [];
      for k := 0 to |graph.adj[current]|
        invariant Valid() && ExpandedSoFar(current, k, vis0, par0, g0, h0, open0, ins0)
      {
        VisitNeighbor(current, k, vis0, par0, g0, h0, open0, ins0);
      }
      assert graph.adj[current][..|graph.adj[current]|] == graph.adj[current];
    }

    /** Sorts the open list by descending `f = g + h`. */
    method SortOpenList()
      requires Valid()
      modifies this`openList
      ensures Valid()
      ensures multiset(openList) == multiset(old(openList))
      ensures SortedDescending(openList, g[..], h[..])
    {
      openList := SortDescending(openList, g[..], h[..]);
    }

    /** Removes and returns a node of least `f` from the open list. */
    method NextNode() returns (current: nat)
      requires Valid() && openList != []
      modifies this`openList
      ensures Valid()
      ensures current < |graph.adj| && current in old(openList)
      ensures multiset(openList) + multiset{current} == multiset(old(openList))
      ensures |openList| == |old(openList)| - 1
      ensures forall x :: x in openList ==> x in old(openList)
      ensures forall x :: x in old(openList) && x != current ==> x in openList
      ensures forall i :: 0 <= i < |old(openList)| ==>
        FValue(g[..], h[..], current) <= FValue(g[..], h[..], old(openList)[i])
      ensures visited[..] == old(visited[..]) && parent[..] == old(parent[..])
      ensures g[..] == old(g[..]) && h[..] == old(h[..])
    {
      SortOpenList();
      LastIsMinimum(openList, g[..], h[..]);
      ghost var sorted := openList;
      current := openList[|openList| - 1];
      openList := openList[..|openList| - 1];
      assert sorted == openList + [current];
      assert current in multiset(sorted);
      forall x | x in old(openList) && x != current ensures x in openList {
        assert x in multiset(sorted);
      }
      forall x | x in openList ensures x in old(openList) {
        assert x in multiset(sorted);
      }
    }

    /** Walks the parent links from `current` back to the start node, sums the
        edge lengths, stores their total in metres in `distance` and returns
        the route start first. */
    method ConstructFinalPath(current: nat) returns (pathFound: seq<nat>)
      requires graph.WellFormed() && Tree()
      requires current < |graph.adj| && visited[current]
      modifies this`distance
      ensures pathFound == Root(current)
      ensures WalkFromTo(graph.adj, pathFound, startNode, current)
      ensures ParentChain(pathFound, startNode, visited[..], parent[..])
      ensures distance == Metres(graph, PathLength(graph, pathFound))
      ensures distance == Metres(graph, g[current])
      ensures current == startNode ==> pathFound == [startNode] && distance == 0.0
    {
      ghost var vis, par0, gs, hs := visited[..], parent[..], g[..], h[..];
      var length := 0.0;
      var found: seq<nat> := [current];
      var node := current;
      var par := parent[node];
      while node != startNode
        invariant node < |graph.adj| && vis[node] && node in inserted && par == par0[node]
        invariant |found| >= 1 && found[0] == current && found[|found| - 1] == node
        invariant UpChain(found, startNode, vis, par0)
        invariant length == UpLength(graph, found)
        decreases IndexOf(inserted, node)
      {
        ParentDiscoveredEarlier(graph, startNode, endNode, inserted, vis, par0, gs, hs, node);
        length := length + graph.dist(node, par as nat);
        node := par as nat;
        par := parent[node];
        ghost var prev := found;
        found := found + [node];
        assert found[..|found| - 1] == prev;
      }
      RouteFromChain(graph, startNode, endNode, inserted, vis, par0, gs, hs, found);
      distance := Metres(graph, length);
      pathFound := Reverse(found);
    }

    /** The invariant of the search loop: a search in progress whose
        frontier is closed, with a discovered end node still on the open
        list. */
    ghost predicate Open()
      reads this`openList, this`inserted, visited, parent, g, h
    {
      && Valid() && Searching()
      && FrontierClosed(graph.adj, visited[..], openList)
      && (visited[endNode] ==> endNode in openList)
      && |inserted| <= |graph.adj|
    }

    /** The fields every undiscovered node had in the snapshot
        `par0, g0, h0`, kept together with the start node's heuristic. */
    ghost predicate Kept(par0: seq<int>, g0: seq<real>, h0: seq<real>)
      reads visited, parent, g, h
    {
      && KeptUndiscovered(visited[..], parent[..], g[..], h[..], par0, g0, h0)
      && startNode < |h0| && startNode < h.Length && h[startNode] == h0[startNode]
    }

    /** Expands `current`, a visited node just taken off the open list
        `open0` (or still on it), and keeps the search invariant: the
        discovery tree, no node inserted twice, and a closed frontier. Nodes
        it does not discover keep their fields relative to the snapshot
        `par0, g0, h0`. */
    method ExpandCurrent(current: nat, ghost open0: seq<nat>,
                         ghost par0: seq<int>, ghost g0: seq<real>, ghost h0: seq<real>)
      requires Valid() && Searching() && Kept(par0, g0, h0)
      requires current < |graph.adj| && visited[current]
      requires FrontierClosed(graph.adj, visited[..], open0)
      requires forall x :: x in open0 && x != current ==> x in openList
      requires visited[endNode] ==> endNode in openList
      modifies this`openList, this`inserted, visited, parent, g, h
      ensures Open() && Kept(par0, g0, h0)
      ensures openList == old(openList) + NewNeighbors(graph.adj[current], old(visited[..]))
      ensures inserted == old(inserted) + NewNeighbors(graph.adj[current], old(visited[..]))
      ensures ExpandedBy(graph, endNode, current, graph.adj[current],
                         old(visited[..]), old(parent[..]), old(g[..]), old(h[..]),
                         visited[..], parent[..], g[..], h[..])
    {
      ghost var open1, ins1 := openList, inserted;
      ghost var vis1, par1, g1, h1 := visited[..], parent[..], g[..], h[..];
      AddNeighbors(current);
      ExpansionKeepsTree(graph, startNode, endNode, current, ins1, vis1, par1, g1, h1,
                         visited[..], parent[..], g[..], h[..]);
      ExpansionInsertsFresh(graph, startNode, endNode, current, ins1, vis1, par1, g1, h1);
      ExpansionKeepsFrontier(graph, endNode, current, open0, open1, vis1, par1, g1, h1,
                             visited[..], parent[..], g[..], h[..]);
      ExpansionKeepsUndiscovered(graph, endNode, current, graph.adj[current], vis1, par1, g1, h1,
                                 visited[..], parent[..], g[..], h[..], par0, g0, h0);
      DistinctBelowBound(inserted, |graph.adj|);
    }

    /** The end node has just been taken off the open list: its route is
        reconstructed and published in `path`, its length in `distance`. */
    method PublishRoute()
      requires Valid() && Searching() && visited[endNode]
      modifies this`distance, this`path
      ensures Valid() && Searching()
      ensures Reachable(graph.adj, startNode, endNode)
      ensures path == Root(endNode)
      ensures WalkFromTo(graph.adj, path, startNode, endNode)
      ensures distance == Metres(graph, PathLength(graph, path))
      ensures distance == Metres(graph, g[endNode])
    {
      path := ConstructFinalPath(endNode);
    }

    /** Seeds the search: the start node goes on the open list, is marked
        visited and is expanded. Nodes the expansion does not discover keep
        their fields. */
    method SeedSearch()
      requires Valid() && openList == []
      requires forall v :: 0 <= v < visited.Length ==> !visited[v]
      requires parent[startNode] == -1 && g[startNode] == 0.0
      modifies this`openList, this`inserted, visited, parent, g, h
      ensures Open() && Kept(old(parent[..]), old(g[..]), old(h[..]))
      ensures openList == [startNode] + NewNeighbors(graph.adj[startNode], old(visited[..])[startNode := true])
      ensures inserted == openList
      ensures ExpandedBy(graph, endNode, startNode, graph.adj[startNode],
                         old(visited[..])[startNode := true], old(parent[..]), old(g[..]), old(h[..]),
                         visited[..], parent[..], g[..], h[..])
    {
      ghost var vis0, par0, g0, h0 := visited[..], parent[..], g[..], h[..];
      openList := openList + [startNode];
      assert openList == [startNode];
      var current := startNode;
      visited[startNode] := true;
      inserted := [startNode];
      ghost var vis1 := visited[..];
      assert vis1 == vis0[startNode := true];
      assert Tree();
      assert FrontierClosed(graph.adj, vis1, openList);
      assert Kept(par0, g0, h0);
      ExpandCurrent(current, openList, par0, g0, h0);
      assert openList == [startNode] + NewNeighbors(graph.adj[startNode], vis1);
    }

    /** The search: seed the open list with the start node and expand it, then
        repeatedly take a least-`f` node, publishing the route when it is the
        end node and expanding it otherwise, until the open list is empty. */
    method AStarSearch()
      requires Valid() && openList == []
      requires forall v :: 0 <= v < visited.Length ==> !visited[v]
      requires parent[startNode] == -1 && g[startNode] == 0.0
      modifies this`openList, this`inserted, this`distance, this`path, visited, parent, g, h
      ensures Valid() && Searching()
      ensures visited[endNode] <==> Reachable(graph.adj, startNode, endNode)
      ensures visited[endNode] ==>
        && path == Root(endNode)
        && WalkFromTo(graph.adj, path, startNode, endNode)
        && distance == Metres(graph, PathLength(graph, path))
        && distance == Metres(graph, g[endNode])
      ensures !visited[endNode] ==> path == old(path) && distance == old(distance) && openList == []
      ensures Kept(old(parent[..]), old(g[..]), old(h[..]))
    {
      ghost var par00, g00, h00 := parent[..], g[..], h[..];
      SeedSearch();
      while |openList| > 0
        invariant Open()
        invariant path == old(path) && distance == old(distance)
        invariant Kept(par00, g00, h00)
        decreases |graph.adj| - |inserted| + |openList|
      {
        ghost var open0 := openList;
        var current := NextNode();
        if current == endNode {
          PublishRoute();
          return;
        }
        ExpandCurrent(current, open0, par00, g00, h00);
      }
      UnreachableOutsideClosedSet(graph.adj, visited[..], startNode, endNode);
    }
  }
}
