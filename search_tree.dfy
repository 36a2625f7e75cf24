/** The bookkeeping one search leaves on the nodes, stated over snapshots of
    the per-node fields: which neighbours an expansion discovers, and the
    discovery tree that the `parent` links form. */
module SearchTree {
  import opened RouteGraph
  import opened SeqUtil

  /** The neighbours an expansion inserts, in the order it inserts them: each
      neighbour that was unvisited on entry, at its first occurrence in the
      neighbour list (a repeated neighbour is already visited the second time). */
  function NewNeighbors(ns: seq<nat>, visited: seq<bool>): seq<nat>
  {
    if ns == [] then []
    else
      var pre, x := ns[..|ns| - 1], ns[|ns| - 1];
      NewNeighbors(pre, visited) + (if x < |visited| && !visited[x] && x !in pre then [x] else [])
  }

  /** The inserted neighbours are exactly the listed neighbours that were
      unvisited on entry. */
  lemma {:induction false} NewNeighborsMembers(ns: seq<nat>, visited: seq<bool>)
    ensures forall x :: x in NewNeighbors(ns, visited) <==> x in ns && x < |visited| && !visited[x]
  {
    if ns != [] {
      var pre, x := ns[..|ns| - 1], ns[|ns| - 1];
      NewNeighborsMembers(pre, visited);
      assert ns == pre + [x];
    }
  }

  /** No neighbour is inserted twice by one expansion, even when the
      neighbour list repeats it. */
  lemma {:induction false} NewNeighborsDistinct(ns: seq<nat>, visited: seq<bool>)
    ensures Distinct(NewNeighbors(ns, visited))
  {
    if ns != [] {
      var pre, x := ns[..|ns| - 1], ns[|ns| - 1];
      NewNeighborsDistinct(pre, visited);
      var r, added := NewNeighbors(ns, visited), NewNeighbors(pre, visited);
      if x < |visited| && !visited[x] && x !in pre {
        NewNeighborsMembers(pre, visited);
        assert r == added + [x];
        assert r[..|r| - 1] == added && r[|r| - 1] == x;
      } else {
        assert added + [] == added;
      }
    }
  }

  /** Extending the neighbour list by one entry inserts that entry exactly
      when it is unvisited on entry and not listed before. */
  lemma NewNeighborsSnoc(ns: seq<nat>, k: nat, visited: seq<bool>)
    requires k < |ns|
    ensures NewNeighbors(ns[..k + 1], visited) == NewNeighbors(ns[..k], visited) +
      (if ns[k] < |visited| && !visited[ns[k]] && ns[k] !in ns[..k] then [ns[k]] else [])
  {
    var s, x := ns[..k + 1], ns[k];
    assert s[..|s| - 1] == ns[..k] && s[|s| - 1] == x;
    assert NewNeighbors(s, visited) == NewNeighbors(s[..|s| - 1], visited) +
      (if x < |visited| && !visited[x] && x !in s[..|s| - 1] then [x] else []);
  }

  /** The values in a prefix one entry longer. */
  lemma PrefixSnocMembers(ns: seq<nat>, k: nat)
    requires k < |ns|
    ensures forall v :: v in ns[..k + 1] <==> v in ns[..k] || v == ns[k]
  {
    assert ns[..k + 1] == ns[..k] + [ns[k]];
  }

  /** The node fields `vis, par, g, h` after expanding `cur` over the
      neighbour list `ns`, starting from `vis0, par0, g0, h0`: every listed
      neighbour is visited; exactly the neighbours that were unvisited on
      entry got `cur` as parent, their cost through `cur` and their
      heuristic; nothing else changed. */
  ghost predicate ExpandedBy(gr: Graph, end: nat, cur: nat, ns: seq<nat>,
                             vis0: seq<bool>, par0: seq<int>, g0: seq<real>, h0: seq<real>,
                             vis: seq<bool>, par: seq<int>, g: seq<real>, h: seq<real>)
    requires cur < |g0|
  {
    var n := |vis0|;
    && |par0| == n && |g0| == n && |h0| == n
    && |vis| == n && |par| == n && |g| == n && |h| == n
    && (forall v :: 0 <= v < n ==> vis[v] == (vis0[v] || v in ns))
    && (forall v :: 0 <= v < n && !vis0[v] && vis[v] ==>
          par[v] == cur && g[v] == g0[cur] + gr.dist(v, cur) && h[v] == gr.dist(v, end))
    && (forall v :: 0 <= v < n && (vis0[v] || !vis[v]) ==>
          par[v] == par0[v] && g[v] == g0[v] && h[v] == h0[v])
  }

  /** The loop of an expansion meets an unvisited neighbour `ns[k]`: it was
      unvisited on entry and is not listed before, so it is the one new
      neighbour of this step, and it is discovered from `cur`. */
  lemma ExpandFresh(gr: Graph, end: nat, cur: nat, ns: seq<nat>, k: nat,
                    vis0: seq<bool>, par0: seq<int>, g0: seq<real>, h0: seq<real>,
                    vis: seq<bool>, par: seq<int>, g: seq<real>, h: seq<real>)
    requires k < |ns| && ns[k] < |vis0|
    requires cur < |vis0| && vis0[cur] && cur < |g0|
    requires ExpandedBy(gr, end, cur, ns[..k], vis0, par0, g0, h0, vis, par, g, h)
    requires !vis[ns[k]]
    ensures ns[k] !in ns[..k] && !vis0[ns[k]]
    ensures
      var x := ns[k];
      ExpandedBy(gr, end, cur, ns[..k + 1], vis0, par0, g0, h0,
                 vis[x := true], par[x := cur as int],
                 g[x := g[cur] + gr.dist(x, cur)], h[x := gr.dist(x, end)])
  {
    PrefixSnocMembers(ns, k);
  }

  /** The loop of an expansion meets a neighbour `ns[k]` that is already
      visited: nothing changes and nothing is discovered. */
  lemma ExpandSeen(gr: Graph, end: nat, cur: nat, ns: seq<nat>, k: nat,
                   vis0: seq<bool>, par0: seq<int>, g0: seq<real>, h0: seq<real>,
                   vis: seq<bool>, par: seq<int>, g: seq<real>, h: seq<real>)
    requires k < |ns| && ns[k] < |vis0| && cur < |g0|
    requires ExpandedBy(gr, end, cur, ns[..k], vis0, par0, g0, h0, vis, par, g, h)
    requires vis[ns[k]]
    ensures ns[k] in ns[..k] || vis0[ns[k]]
    ensures ExpandedBy(gr, end, cur, ns[..k + 1], vis0, par0, g0, h0, vis, par, g, h)
  {
    PrefixSnocMembers(ns, k);
  }

  /** Every node not yet discovered still has the parent, cost and heuristic
      of the snapshot `par0, g0, h0`. */
  ghost predicate KeptUndiscovered(visited: seq<bool>, parent: seq<int>, g: seq<real>, h: seq<real>,
                                   par0: seq<int>, g0: seq<real>, h0: seq<real>)
  {
    && |parent| == |visited| && |g| == |visited| && |h| == |visited|
    && |par0| == |visited| && |g0| == |visited| && |h0| == |visited|
    && forall v :: 0 <= v < |visited| && !visited[v] ==>
         parent[v] == par0[v] && g[v] == g0[v] && h[v] == h0[v]
  }

  /** An expansion writes only nodes it discovers: the undiscovered nodes
      and every node visited before it keep their fields. */
  lemma ExpansionKeepsUndiscovered(gr: Graph, end: nat, cur: nat, ns: seq<nat>,
                                   vis0: seq<bool>, par0: seq<int>, g0: seq<real>, h0: seq<real>,
                                   vis: seq<bool>, par: seq<int>, g: seq<real>, h: seq<real>,
                                   parB: seq<int>, gB: seq<real>, hB: seq<real>)
    requires cur < |g0|
    requires ExpandedBy(gr, end, cur, ns, vis0, par0, g0, h0, vis, par, g, h)
    requires KeptUndiscovered(vis0, par0, g0, h0, parB, gB, hB)
    ensures KeptUndiscovered(vis, par, g, h, parB, gB, hB)
    ensures forall v :: 0 <= v < |vis0| && vis0[v] ==> par[v] == par0[v] && g[v] == g0[v] && h[v] == h0[v]
  {
    forall v | 0 <= v < |vis| && !vis[v] ensures par[v] == parB[v] && g[v] == gB[v] && h[v] == hB[v] {
      assert !vis0[v];
    }
  }

  /** The `i`-th discovered node was discovered from a parent discovered
      before it, is one of that parent's neighbours, and carries the cost and
      heuristic set at its discovery. */
  ghost predicate TreeEdge(gr: Graph, end: nat, inserted: seq<nat>, parent: seq<int>,
                           g: seq<real>, h: seq<real>, i: nat)
    requires i < |inserted| && inserted[i] < |parent| && inserted[i] < |g| && inserted[i] < |h|
  {
    var v := inserted[i];
    var p := parent[v];
    && 0 <= p < |gr.adj| && p < |g|
    && p in inserted[..i]
    && v in gr.adj[p]
    && g[v] == g[p] + gr.dist(v, p)
    && h[v] == gr.dist(v, end)
  }

  /** The search invariant on the node fields. `inserted` lists every node
      ever inserted into the open list, in insertion order. It starts with
      the start node and holds exactly the visited nodes; every other entry is
      a tree edge, so the parent links form a tree rooted at the start node. */
  ghost predicate DiscoveryTree(gr: Graph, start: nat, end: nat, inserted: seq<nat>,
                                visited: seq<bool>, parent: seq<int>, g: seq<real>, h: seq<real>)
  {
    var n := |gr.adj|;
    && |visited| == n && |parent| == n && |g| == n && |h| == n
    && start < n
    && |inserted| > 0 && inserted[0] == start
    && (forall i :: 0 <= i < |inserted| ==> inserted[i] < n)
    && (forall v :: 0 <= v < n ==> (visited[v] <==> v in inserted))
    && parent[start] == -1 && g[start] == 0.0
    && (forall i :: 0 < i < |inserted| ==> TreeEdge(gr, end, inserted, parent, g, h, i))
  }

  /** Expanding a visited node `cur` keeps the discovery tree, with the new
      neighbours appended to the insertion log. */
  lemma ExpansionKeepsTree(gr: Graph, start: nat, end: nat, cur: nat, inserted: seq<nat>,
                           vis0: seq<bool>, par0: seq<int>, g0: seq<real>, h0: seq<real>,
                           vis: seq<bool>, par: seq<int>, g: seq<real>, h: seq<real>)
    requires gr.WellFormed()
    requires DiscoveryTree(gr, start, end, inserted, vis0, par0, g0, h0)
    requires cur < |gr.adj| && vis0[cur]
    requires ExpandedBy(gr, end, cur, gr.adj[cur], vis0, par0, g0, h0, vis, par, g, h)
    ensures DiscoveryTree(gr, start, end, inserted + NewNeighbors(gr.adj[cur], vis0), vis, par, g, h)
  {
    var added := NewNeighbors(gr.adj[cur], vis0);
    NewNeighborsMembers(gr.adj[cur], vis0);
    var ins' := inserted + added;
    assert forall x :: x in added ==> x !in inserted;
    forall i | 0 <= i < |ins'| ensures ins'[i] < |gr.adj| {
      if i >= |inserted| {
        assert ins'[i] in added;
      }
    }
    forall i | 0 < i < |ins'| ensures TreeEdge(gr, end, ins', par, g, h, i) {
      if i < |inserted| {
        assert ins'[..i] == inserted[..i];
        assert TreeEdge(gr, end, inserted, par0, g0, h0, i);
        assert inserted[i] !in added;
        assert par0[inserted[i]] in inserted;
      } else {
        assert ins'[i] in added;
        assert cur in ins'[..i] by {
          assert cur in inserted;
          assert ins'[..i] == inserted + added[..i - |inserted|];
        }
      }
    }
  }

  /** Every visited node that has left the open list has all its neighbours
      visited: only open nodes may still have undiscovered neighbours. */
  ghost predicate FrontierClosed(adj: seq<seq<nat>>, visited: seq<bool>, open: seq<nat>) {
    forall v, k :: 0 <= v < |visited| && v < |adj| && visited[v] && v !in open && 0 <= k < |adj[v]| ==>
      adj[v][k] < |visited| && visited[adj[v][k]]
  }

  /** Expanding `cur`, which may have been taken off the open list, keeps
      the frontier closed, and keeps a visited end node on the open list. */
  lemma ExpansionKeepsFrontier(gr: Graph, end: nat, cur: nat, open0: seq<nat>, open1: seq<nat>,
                               vis0: seq<bool>, par0: seq<int>, g0: seq<real>, h0: seq<real>,
                               vis: seq<bool>, par: seq<int>, g: seq<real>, h: seq<real>)
    requires gr.WellFormed() && |vis0| == |gr.adj| && |g0| == |gr.adj| && cur < |gr.adj| && vis0[cur]
    requires FrontierClosed(gr.adj, vis0, open0)
    requires end < |gr.adj| && (vis0[end] ==> end in open1)
    requires forall x :: x in open0 && x != cur ==> x in open1
    requires ExpandedBy(gr, end, cur, gr.adj[cur], vis0, par0, g0, h0, vis, par, g, h)
    ensures FrontierClosed(gr.adj, vis, open1 + NewNeighbors(gr.adj[cur], vis0))
    ensures vis[end] ==> end in open1 + NewNeighbors(gr.adj[cur], vis0)
  {
    var added := NewNeighbors(gr.adj[cur], vis0);
    var open2 := open1 + added;
    NewNeighborsMembers(gr.adj[cur], vis0);
    forall v, k | 0 <= v < |vis| && v < |gr.adj| && vis[v] && v !in open2 && 0 <= k < |gr.adj[v]|
      ensures gr.adj[v][k] < |vis| && vis[gr.adj[v][k]]
    {
      if v != cur {
        assert v !in open1;
        assert vis0[gr.adj[v][k]];
      } else {
        assert gr.adj[v][k] in gr.adj[cur];
      }
    }
    if vis[end] && !vis0[end] {
      assert end in added;
    }
  }

  /** No node is inserted into the open list twice: an expansion inserts
      only unvisited nodes, each once, and every node inserted before is
      visited. */
  lemma ExpansionInsertsFresh(gr: Graph, start: nat, end: nat, cur: nat, inserted: seq<nat>,
                              vis0: seq<bool>, par0: seq<int>, g0: seq<real>, h0: seq<real>)
    requires DiscoveryTree(gr, start, end, inserted, vis0, par0, g0, h0)
    requires Distinct(inserted) && cur < |gr.adj|
    ensures Distinct(inserted + NewNeighbors(gr.adj[cur], vis0))
  {
    NewNeighborsMembers(gr.adj[cur], vis0);
    NewNeighborsDistinct(gr.adj[cur], vis0);
    DistinctAppend(inserted, NewNeighbors(gr.adj[cur], vis0));
  }

  /** Every visited node other than the start has a visited parent that was
      discovered earlier, is adjacent to it, and determines its cost. */
  lemma ParentDiscoveredEarlier(gr: Graph, start: nat, end: nat, inserted: seq<nat>, visited: seq<bool>,
                                parent: seq<int>, g: seq<real>, h: seq<real>, v: nat)
    requires DiscoveryTree(gr, start, end, inserted, visited, parent, g, h)
    requires v < |gr.adj| && visited[v] && v != start
    ensures 0 <= parent[v] < |gr.adj| && visited[parent[v]]
    ensures parent[v] as nat in inserted && IndexOf(inserted, parent[v] as nat) < IndexOf(inserted, v)
    ensures v in gr.adj[parent[v]]
    ensures g[v] == g[parent[v]] + gr.dist(v, parent[v] as nat)
    ensures h[v] == gr.dist(v, end)
  {
    var i := IndexOf(inserted, v);
    assert TreeEdge(gr, end, inserted, parent, g, h, i);
    var p := parent[v];
    var j :| 0 <= j < i && inserted[j] == p;
  }

  /** A walk down the parent links, listed root first: each node after the
      first is a visited non-start node whose parent is the node before it. */
  ghost predicate ParentChain(p: seq<nat>, start: nat, visited: seq<bool>, parent: seq<int>) {
    |p| <= 1 ||
    (&& p[1] < |visited| && p[1] < |parent| && visited[p[1]] && p[1] != start
     && parent[p[1]] == p[0]
     && ParentChain(p[1..], start, visited, parent))
  }

  /** The parent chain of a visited node: following `parent` from `v` reaches
      the start node, so the parent links have no cycle. */
  ghost function RootPath(gr: Graph, start: nat, end: nat, inserted: seq<nat>, visited: seq<bool>,
                          parent: seq<int>, g: seq<real>, h: seq<real>, v: nat): (p: seq<nat>)
    requires DiscoveryTree(gr, start, end, inserted, visited, parent, g, h)
    requires v < |gr.adj| && visited[v]
    ensures |p| >= 1 && p[0] == start && p[|p| - 1] == v
    decreases IndexOf(inserted, v)
  {
    if v == start then [start]
    else
      ParentDiscoveredEarlier(gr, start, end, inserted, visited, parent, g, h, v);
      RootPath(gr, start, end, inserted, visited, parent, g, h, parent[v] as nat) + [v]
  }

  /** Following a parent chain from a visited node extends that node's root
      path; in particular the only parent chain from the start node to a node
      is its root path. */
  lemma {:induction false} RootAlongChain(gr: Graph, start: nat, end: nat, inserted: seq<nat>, visited: seq<bool>,
                                          parent: seq<int>, g: seq<real>, h: seq<real>, p: seq<nat>)
    requires DiscoveryTree(gr, start, end, inserted, visited, parent, g, h)
    requires |p| >= 1 && p[0] < |gr.adj| && visited[p[0]] && ParentChain(p, start, visited, parent)
    ensures p[|p| - 1] < |gr.adj| && visited[p[|p| - 1]]
    ensures RootPath(gr, start, end, inserted, visited, parent, g, h, p[|p| - 1]) ==
      RootPath(gr, start, end, inserted, visited, parent, g, h, p[0]) + p[1..]
  {
    if |p| > 1 {
      var rest := p[1..];
      RootAlongChain(gr, start, end, inserted, visited, parent, g, h, rest);
      assert p[1..] == [p[1]] + rest[1..];
    }
  }

  /** A walk up the parent links, listed child first (the order in which the
      path reconstruction collects it): each node before the last is a
      visited non-start node whose parent is the node after it. */
  ghost predicate UpChain(f: seq<nat>, start: nat, visited: seq<bool>, parent: seq<int>) {
    |f| <= 1 ||
    (var c := f[|f| - 2];
     && c < |visited| && c < |parent| && visited[c] && c != start
     && parent[c] == f[|f| - 1]
     && UpChain(f[..|f| - 1], start, visited, parent))
  }

  /** The summed distance from each node of a child-first chain to the node
      after it, accumulated in collection order. */
  function UpLength(gr: Graph, f: seq<nat>): real {
    if |f| <= 1 then 0.0 else UpLength(gr, f[..|f| - 1]) + gr.dist(f[|f| - 2], f[|f| - 1])
  }

  /** Read back to front, a child-first chain is a parent chain listed root
      first, and it has the same length. */
  lemma {:induction false} UpChainReversed(gr: Graph, start: nat, visited: seq<bool>, parent: seq<int>, f: seq<nat>)
    requires gr.WellFormed() && UpChain(f, start, visited, parent)
    ensures ParentChain(Reverse(f), start, visited, parent)
    ensures PathLength(gr, Reverse(f)) == UpLength(gr, f)
  {
    if |f| > 1 {
      var pre, x := f[..|f| - 1], f[|f| - 1];
      UpChainReversed(gr, start, visited, parent, pre);
      assert f == pre + [x];
      ReverseSnoc(pre, x);
      assert Reverse(f)[1..] == Reverse(pre);
    }
  }

  /** A child-first chain from a visited node up to the start node, read back
      to front, is that node's root path: a walk from the start node whose
      length is the node's cost. */
  lemma RouteFromChain(gr: Graph, start: nat, end: nat, inserted: seq<nat>, visited: seq<bool>,
                       parent: seq<int>, g: seq<real>, h: seq<real>, f: seq<nat>)
    requires gr.WellFormed() && DiscoveryTree(gr, start, end, inserted, visited, parent, g, h)
    requires |f| >= 1 && f[0] < |gr.adj| && visited[f[0]] && f[|f| - 1] == start
    requires UpChain(f, start, visited, parent)
    ensures Reverse(f) == RootPath(gr, start, end, inserted, visited, parent, g, h, f[0])
    ensures WalkFromTo(gr.adj, Reverse(f), start, f[0])
    ensures ParentChain(Reverse(f), start, visited, parent)
    ensures PathLength(gr, Reverse(f)) == UpLength(gr, f) == g[f[0]]
  {
    var back := Reverse(f);
    UpChainReversed(gr, start, visited, parent, f);
    RootAlongChain(gr, start, end, inserted, visited, parent, g, h, back);
    ChainCost(gr, start, end, inserted, visited, parent, g, h, back);
    assert back == [start] + back[1..];
  }

  /** Along a parent chain, the summed edge lengths are the difference of the
      end points' costs, and every step is an edge of the graph. */
  lemma {:induction false} ChainCost(gr: Graph, start: nat, end: nat, inserted: seq<nat>, visited: seq<bool>,
                                     parent: seq<int>, g: seq<real>, h: seq<real>, p: seq<nat>)
    requires gr.WellFormed()
    requires DiscoveryTree(gr, start, end, inserted, visited, parent, g, h)
    requires |p| >= 1 && p[0] < |gr.adj| && ParentChain(p, start, visited, parent)
    ensures p[|p| - 1] < |gr.adj|
    ensures PathLength(gr, p) == g[p[|p| - 1]] - g[p[0]]
    ensures IsWalk(gr.adj, p)
  {
    if |p| > 1 {
      ParentDiscoveredEarlier(gr, start, end, inserted, visited, parent, g, h, p[1]);
      ChainCost(gr, start, end, inserted, visited, parent, g, h, p[1..]);
    }
  }
}
