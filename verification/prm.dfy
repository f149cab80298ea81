/**
 * `PrmGen`: loading a roadmap (nodes, edges, obstacles), augmenting it with
 * sampled nodes joined to each other and to the original nodes wherever the
 * straight segment clears every obstacle, and exporting it as node and edge
 * records. The random samples are an input sequence of points, the square
 * root is a supplied function, and the segment/circle test is an
 * uninterpreted predicate.
 */
module Roadmap {
  import opened Wrappers
  import opened Seqs
  import opened Decimal
  import opened Geometry
  import opened Input
  import opened Graphs
  import opened Loader

  /** The generator's tables: the graph and the obstacle list. */
  datatype Prm = Prm(g: Graph, obst: seq<ObstRec>)

  /**
   * `LineCircleIntersect(x1, y1, x2, y2, xo, yo, diam)`: whether the segment
   * from `(x1, y1)` to `(x2, y2)` meets the circle of diameter `diam` around
   * `(xo, yo)`.
   */
  type Intersects = (real, real, real, real, real, real, real) -> bool

  //-------------------------------------------------------------------------
  // Loading

  /** The obstacle loop runs only when obstacle lines were given (`if obsttxt:`). */
  function LoadObstacles(lines: Option<seq<Line<ObstRec>>>): (r: Result<seq<ObstRec>, LoadError>)
    ensures lines.None? ==> r == Success([])
    ensures lines.Some? ==> r == Records(lines.value)
  {
    match lines
    case None => Success([])
    case Some(ls) => Records(ls)
  }

  /**
   * `PrmGen.__init__`: the node lines, then the edge lines (skipping those that
   * name an unknown node), then the obstacle lines. An empty edge table is
   * fine here: the average divides by at least one.
   */
  function LoadPrm(nodeLines: seq<Line<NodeRec>>, edgeLines: seq<Line<EdgeRec>>,
                   obstLines: Option<seq<Line<ObstRec>>>): (r: Result<Prm, LoadError>)
    // a crashing node line aborts before any edge line is read
    ensures Records(nodeLines).Failure? ==> r == Failure(Records(nodeLines).error)
    // a loaded roadmap came from lines that all read; no obstacle lines give no obstacles
    ensures r.Success? ==> Records(nodeLines).Success? && Records(edgeLines).Success?
    ensures r.Success? && obstLines.None? ==> r.value.obst == []
  {
    match LoadNodeLines(Empty, nodeLines)
    case Failure(e) => Failure(e)
    case Success(g) =>
      match LoadEdgeLinesSkipping(g, edgeLines)
      case Failure(e) => Failure(e)
      case Success(h) =>
        match LoadObstacles(obstLines)
        case Failure(e) => Failure(e)
        case Success(o) => Success(Prm(h, o))
  }

  //-------------------------------------------------------------------------
  // Geometry of two nodes

  /** The loop of `LineOfSight` over the obstacles: the first one the segment meets answers `False`. */
  function Clear(hit: Intersects, obst: seq<ObstRec>, x1: real, y1: real, x2: real, y2: real): bool
    decreases |obst|
  {
    if obst == [] then true
    else if hit(x1, y1, x2, y2, obst[0].x, obst[0].y, obst[0].diam) then false
    else Clear(hit, obst[1..], x1, y1, x2, y2)
  }

  /** `LineOfSight` is `False` exactly when some obstacle's intersection test fires; with no obstacles it is `True`. */
  lemma {:induction false} ClearIffNoHit(hit: Intersects, obst: seq<ObstRec>, x1: real, y1: real, x2: real, y2: real)
    ensures Clear(hit, obst, x1, y1, x2, y2) <==>
      forall i :: 0 <= i < |obst| ==> !hit(x1, y1, x2, y2, obst[i].x, obst[i].y, obst[i].diam)
    decreases |obst|
  {
    if obst != [] {
      ClearIffNoHit(hit, obst[1..], x1, y1, x2, y2);
      assert forall i :: 1 <= i < |obst| ==> obst[1..][i - 1] == obst[i];
    }
  }

  /** `LineOfSight(a, b)`: the segment from `a` to `b` is clear of the obstacles. */
  function LineOfSight(hit: Intersects, obst: seq<ObstRec>, nodes: map<string, Node>, a: string, b: string): (r: bool)
    requires a in nodes && b in nodes
    ensures r <==> forall i :: 0 <= i < |obst| ==>
      !hit(nodes[a].x, nodes[a].y, nodes[b].x, nodes[b].y, obst[i].x, obst[i].y, obst[i].diam)
  {
    ClearIffNoHit(hit, obst, nodes[a].x, nodes[a].y, nodes[b].x, nodes[b].y);
    Clear(hit, obst, nodes[a].x, nodes[a].y, nodes[b].x, nodes[b].y)
  }

  /** `Dist(a, b)`, with the supplied square root: the same from either end, `root(0)` from a node to itself. */
  function Dist(root: real -> real, nodes: map<string, Node>, a: string, b: string): (d: real)
    requires a in nodes && b in nodes
    ensures d == Distance(root, nodes[b].x, nodes[b].y, nodes[a].x, nodes[a].y)
    ensures a == b ==> d == root(0.0)
  {
    Distance(root, nodes[a].x, nodes[a].y, nodes[b].x, nodes[b].y)
  }

  /** The edge the generator writes between `a` and `b`: `edgecost[a:b] = Dist(a, b)`, then `edgecost[b:a] = Dist(b, a)`. */
  function PairLink(root: real -> real, nodes: map<string, Node>, a: string, b: string): Link
    requires a in nodes && b in nodes
  {
    Link(a, b, Dist(root, nodes, a, b), Dist(root, nodes, b, a))
  }

  //-------------------------------------------------------------------------
  // Generation

  /** The ids `str(start)`, `str(start + 1)`, ... of the generated nodes. */
  function GenIds(start: nat, k: nat): (ids: seq<string>)
    ensures |ids| == k && forall i :: 0 <= i < k ==> ids[i] == NatToString(start + i)
  {
    seq(k, i requires 0 <= i < k => NatToString(start + i))
  }

  /** A generated node: at its sample point, cost so far and tentative total zero. */
  function GenNode(pt: (real, real)): Node {
    Node(pt.0, pt.1, 0.0, 0.0)
  }

  /** The generating loop: each id is stored with its sample point, an empty neighbour list and status unvisited. */
  function AddGenNodes(g: Graph, ids: seq<string>, pts: seq<(real, real)>): (r: Graph)
    requires |ids| == |pts|
    ensures r.cost == g.cost && r.keys == g.keys
    ensures forall m :: m in r.nodes <==> m in g.nodes || m in ids
    ensures forall m :: m in r.nbr <==> m in g.nbr || m in ids
    ensures forall m :: m in r.stat <==> m in g.stat || m in ids
    decreases |ids|
  {
    if ids == [] then g
    else
      assert forall m :: m in ids <==> m == ids[0] || m in ids[1..];
      AddGenNodes(AddNode(g, ids[0], GenNode(pts[0])), ids[1..], pts[1..])
  }

  /** The pairs of the `j > i` loop over the generated ids, in loop order. */
  function Pairs(ids: seq<string>): (ps: seq<(string, string)>)
    ensures forall k :: 0 <= k < |ps| ==> ps[k].0 in ids && ps[k].1 in ids
    decreases |ids|
  {
    if ids == [] then []
    else seq(|ids| - 1, j requires 0 <= j < |ids| - 1 => (ids[0], ids[j + 1])) + Pairs(ids[1..])
  }

  /** The pairs of the loop over generated ids and, inside it, over the original ids. */
  function Cross(gen: seq<string>, org: seq<string>): (ps: seq<(string, string)>)
    ensures forall k :: 0 <= k < |ps| ==> ps[k].0 in gen && ps[k].1 in org
    decreases |gen|
  {
    if gen == [] then []
    else seq(|org|, j requires 0 <= j < |org| => (gen[0], org[j])) + Cross(gen[1..], org)
  }

  /** The end points of every pair are nodes. */
  predicate Placed(g: Graph, ps: seq<(string, string)>) {
    forall k :: 0 <= k < |ps| ==> ps[k].0 in g.nodes && ps[k].1 in g.nodes
  }

  /** One of the two edge loops: every pair in sight of each other gets an edge in both directions. */
  function Connect(g: Graph, hit: Intersects, obst: seq<ObstRec>, root: real -> real,
                   ps: seq<(string, string)>): (r: Graph)
    requires g.nbr.Keys == g.nodes.Keys && Placed(g, ps)
    ensures r.ids == g.ids && r.nodes == g.nodes && r.stat == g.stat && r.nbr.Keys == g.nbr.Keys
    decreases |ps|
  {
    if ps == [] then g
    else
      var (a, b) := ps[0];
      var g1 := if LineOfSight(hit, obst, g.nodes, a, b) then AddLink(g, PairLink(root, g.nodes, a, b)) else g;
      Connect(g1, hit, obst, root, ps[1..])
  }

  /** The two edge loops: among the generated ids `gen`, then from each of them to each original id of `org`. */
  function EdgeLoops(g: Graph, hit: Intersects, obst: seq<ObstRec>, root: real -> real,
                     gen: seq<string>, org: seq<string>): (r: Graph)
    requires g.nbr.Keys == g.nodes.Keys
    requires forall x :: x in gen ==> x in g.nodes
    requires forall y :: y in org ==> y in g.nodes
    ensures r.ids == g.ids && r.nodes == g.nodes && r.stat == g.stat && r.nbr.Keys == g.nbr.Keys
  {
    Connect(Connect(g, hit, obst, root, Pairs(gen)), hit, obst, root, Cross(gen, org))
  }

  /**
   * `GenNodesAndEdges`: one generated node per sample point, with ids
   * numbered on from the size of the node table, then the edges among the
   * generated nodes, then the edges from each generated node to each original
   * node.
   */
  function GenNodesAndEdges(p: Prm, pts: seq<(real, real)>, hit: Intersects, root: real -> real): (r: Prm)
    requires Valid(p.g)
    ensures r.obst == p.obst
  {
    var gen := GenIds(|p.g.nodes| + 1, |pts|);
    Prm(EdgeLoops(AddGenNodes(p.g, gen, pts), hit, p.obst, root, gen, p.g.ids), p.obst)
  }

  //-------------------------------------------------------------------------
  // Export

  /** `ExtractNodesIntoList`: one record per node in table order, with cost `100`. */
  function ExtractNodes(g: Graph): (rs: seq<NodeRec>)
    requires forall i :: 0 <= i < |g.ids| ==> g.ids[i] in g.nodes
    ensures |rs| == |g.ids|
    ensures forall i :: 0 <= i < |rs| ==>
      rs[i] == NodeRec(g.ids[i], g.nodes[g.ids[i]].x, g.nodes[g.ids[i]].y, 100.0)
  {
    seq(|g.ids|, i requires 0 <= i < |g.ids| => NodeRec(g.ids[i], g.nodes[g.ids[i]].x, g.nodes[g.ids[i]].y, 100.0))
  }

  /** `ExtractEdgesIntoList`: one record per directed key in table order, with its cost. */
  function ExtractEdges(g: Graph): (es: seq<EdgeRec>)
    requires forall i :: 0 <= i < |g.keys| ==> g.keys[i] in g.cost
    ensures |es| == |g.keys|
    ensures forall i :: 0 <= i < |es| ==>
      es[i] == EdgeRec(g.keys[i].0, g.keys[i].1, Some(g.cost[g.keys[i]]))
  {
    seq(|g.keys|, i requires 0 <= i < |g.keys| => EdgeRec(g.keys[i].0, g.keys[i].1, Some(g.cost[g.keys[i]])))
  }
}
