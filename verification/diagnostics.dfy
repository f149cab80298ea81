/**
 * `CheckDistances`: the sanity pass over the edge table that reports every
 * directed edge whose stored cost is shorter than the straight-line distance
 * between its end points. The report lines are modelled as the flagged keys,
 * in the order of the edge table.
 */
module Diagnostics {
  import opened Seqs
  import opened Geometry
  import opened Graphs

  /** `dist > edgecost[e]` for the key `e = (n1, n2)`; a key that cannot be looked up is not flagged. */
  predicate Flagged(root: real -> real, g: Graph, e: (string, string)) {
    && e in g.cost && e.0 in g.nodes && e.1 in g.nodes
    && Distance(root, g.nodes[e.0].x, g.nodes[e.0].y, g.nodes[e.1].x, g.nodes[e.1].y) > g.cost[e]
  }

  /** The loop over the keys `ks`: the flagged ones, in the order they are met. */
  function Flags(root: real -> real, g: Graph, ks: seq<(string, string)>): (bad: seq<(string, string)>)
    ensures |bad| <= |ks|
    ensures forall e :: e in bad <==> e in ks && Flagged(root, g, e)
    ensures Distinct(ks) ==> Distinct(bad)
    ensures bad == [] <==> forall i :: 0 <= i < |ks| ==> !Flagged(root, g, ks[i])
    decreases |ks|
  {
    if ks == [] then []
    else
      var rest := Flags(root, g, ks[1..]);
      assert forall e :: e in ks <==> e == ks[0] || e in ks[1..];
      if Flagged(root, g, ks[0]) then
        assert Distinct(ks) ==> ks[0] !in ks[1..] && Distinct(ks[1..]);
        [ks[0]] + rest
      else rest
  }

  /**
   * `CheckDistances()`: every key of the edge table, in insertion order, whose
   * end points are further apart than its cost. The loaders keep every key
   * stored with both end points among the nodes, so each lookup succeeds.
   */
  function CheckDistances(root: real -> real, g: Graph): (bad: seq<(string, string)>)
    requires Valid(g)
    ensures Distinct(bad)
    ensures forall e :: e in bad <==> e in g.keys && Flagged(root, g, e)
    ensures bad == [] <==> forall i :: 0 <= i < |g.keys| ==> !Flagged(root, g, g.keys[i])
  {
    Flags(root, g, g.keys)
  }

  /** A stored key whose cost is negative or below the squared distance of its end points. */
  predicate FlaggedSquared(g: Graph, e: (string, string)) {
    && e in g.cost && e.0 in g.nodes && e.1 in g.nodes
    && SqExceeds(SqDist(g.nodes[e.0].x, g.nodes[e.0].y, g.nodes[e.1].x, g.nodes[e.1].y), g.cost[e])
  }

  /**
   * With an exact square root the check needs no root at all: a key is
   * flagged exactly when its cost is negative or below the squared distance
   * of its end points.
   */
  lemma CheckDistancesSquared(root: real -> real, g: Graph, e: (string, string))
    requires Valid(g)
    requires forall q :: q >= 0.0 ==> IsRootOf(root(q), q)
    ensures e in CheckDistances(root, g) <==> e in g.keys && FlaggedSquared(g, e)
  {
    if e in g.cost && e.0 in g.nodes && e.1 in g.nodes {
      DistanceExceeds(root, g.nodes[e.0].x, g.nodes[e.0].y, g.nodes[e.1].x, g.nodes[e.1].y, g.cost[e]);
    }
  }

  /** An edge table whose every cost is the distance of its end points raises no report. */
  lemma CheckDistancesExact(root: real -> real, g: Graph)
    requires Valid(g)
    requires forall e :: e in g.cost && e.0 in g.nodes && e.1 in g.nodes ==>
      g.cost[e] == Distance(root, g.nodes[e.0].x, g.nodes[e.0].y, g.nodes[e.1].x, g.nodes[e.1].y)
    ensures CheckDistances(root, g) == []
  {
  }
}
