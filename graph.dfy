/** The road network the planner searches. Nodes are stable indices into an
    arena; the adjacency lists, the planar distance and the metric scale belong
    to the external route model and are fixed for the whole search. */
module RouteGraph {

  /** `adj[v]` lists the neighbours of node `v` (what `FindNeighbors` yields),
      `dist(a, b)` is the planar distance `a.distance(b)`, and `scale` is the
      route model's `MetricScale()`. */
  datatype Graph = Graph(adj: seq<seq<nat>>, dist: (nat, nat) -> real, scale: real)
  {
    /** Every neighbour is a node of the arena; distances and the scale are
        non-negative. */
    ghost predicate WellFormed() {
      && (forall v, k :: 0 <= v < |adj| && 0 <= k < |adj[v]| ==> adj[v][k] < |adj|)
      && (forall a, b :: dist(a, b) >= 0.0)
      && scale >= 0.0
    }
  }

  /** A planar length converted to metres by the model's metric scale. */
  function Metres(gr: Graph, d: real): real {
    d * gr.scale
  }

  /** Each consecutive pair of `p` is an edge of the graph. */
  ghost predicate IsWalk(adj: seq<seq<nat>>, p: seq<nat>) {
    |p| <= 1 || (p[0] < |adj| && p[1] in adj[p[0]] && IsWalk(adj, p[1..]))
  }

  ghost predicate WalkFromTo(adj: seq<seq<nat>>, p: seq<nat>, s: nat, t: nat) {
    |p| >= 1 && p[0] == s && p[|p| - 1] == t && IsWalk(adj, p)
  }

  /** Some walk leads from `s` to `t`. */
  ghost predicate Reachable(adj: seq<seq<nat>>, s: nat, t: nat) {
    exists p :: WalkFromTo(adj, p, s, t)
  }

  /** The length of a path listed start first: the sum of `dist(p[i+1], p[i])`,
      measured from each node to the one before it, as the path reconstruction
      measures a node to its parent. */
  function PathLength(gr: Graph, p: seq<nat>): (d: real)
    requires gr.WellFormed()
    ensures d >= 0.0
  {
    if |p| <= 1 then 0.0 else gr.dist(p[1], p[0]) + PathLength(gr, p[1..])
  }

  /** A set of nodes (given by its membership flags) that contains every
      neighbour of each of its members. */
  ghost predicate ClosedUnder(adj: seq<seq<nat>>, member: seq<bool>) {
    forall v, k :: 0 <= v < |member| && v < |adj| && member[v] && 0 <= k < |adj[v]| ==>
      adj[v][k] < |member| && member[adj[v][k]]
  }

  /** A walk that starts inside a closed set never leaves it. */
  lemma {:induction false} WalkStaysInClosedSet(adj: seq<seq<nat>>, member: seq<bool>, p: seq<nat>)
    requires ClosedUnder(adj, member)
    requires |p| >= 1 && p[0] < |member| && member[p[0]] && IsWalk(adj, p)
    ensures p[|p| - 1] < |member| && member[p[|p| - 1]]
  {
    if |p| > 1 {
      var k :| 0 <= k < |adj[p[0]]| && adj[p[0]][k] == p[1];
      WalkStaysInClosedSet(adj, member, p[1..]);
    }
  }

  /** No walk leads from inside a closed set to a node outside it. */
  lemma UnreachableOutsideClosedSet(adj: seq<seq<nat>>, member: seq<bool>, s: nat, t: nat)
    requires ClosedUnder(adj, member)
    requires s < |member| && member[s] && t < |member| && !member[t]
    ensures !Reachable(adj, s, t)
  {
    if Reachable(adj, s, t) {
      var p :| WalkFromTo(adj, p, s, t);
      WalkStaysInClosedSet(adj, member, p);
    }
  }
}
