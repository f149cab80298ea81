/**
 * What `PrmGen` promises: the loader skips edges naming unknown nodes, the
 * line-of-sight test fails exactly on an obstacle hit, each unordered pair of
 * generated nodes and each (generated, original) pair is tried once, an edge
 * is added exactly for the pairs in sight with the same distance both ways,
 * the original edges are untouched, and the exported records load back into
 * the same tables.
 */
module RoadmapSpec {
  import opened Wrappers
  import opened Seqs
  import opened Decimal
  import opened Geometry
  import opened Input
  import opened Graphs
  import opened Loader
  import opened LoaderSpec
  import opened Roadmap

  //-------------------------------------------------------------------------
  // Loading

  /** Every edge record whose two end points have node records carries a numeric cost. */
  ghost predicate PricedWhenKnown(nodeLines: seq<Line<NodeRec>>, edgeLines: seq<Line<EdgeRec>>)
    requires Records(nodeLines).Success? && Records(edgeLines).Success?
  {
    var rs := Records(nodeLines).value;
    var es := Records(edgeLines).value;
    forall i :: 0 <= i < |es| && HasId(rs, es[i].a) && HasId(rs, es[i].b) ==> Priced(es[i])
  }

  /** A node line that crashes aborts the load with its error, before any edge line is read. */
  lemma LoadPrmNodeCrash(nodeLines: seq<Line<NodeRec>>, edgeLines: seq<Line<EdgeRec>>,
                         obstLines: Option<seq<Line<ObstRec>>>)
    requires Records(nodeLines).Failure?
    ensures LoadPrm(nodeLines, edgeLines, obstLines) == Failure(Records(nodeLines).error)
  {
    LoadNodeLinesIsAddNodes(Empty, nodeLines);
  }

  /** The edges kept from the edge records are those whose two end points have node records, all priced when the load goes through. */
  lemma KeptEdges(rs: seq<NodeRec>, es: seq<EdgeRec>)
    ensures var kept := KnownOnly(AddNodes(Empty, rs), es);
      && (forall i :: 0 <= i < |kept| ==> HasId(rs, kept[i].a) && HasId(rs, kept[i].b))
      && (forall e :: e in kept <==> e in es && HasId(rs, e.a) && HasId(rs, e.b))
    ensures KnownPriced(AddNodes(Empty, rs), es) <==>
      forall i :: 0 <= i < |es| && HasId(rs, es[i].a) && HasId(rs, es[i].b) ==> Priced(es[i])
  {
    KnownIffHasId(rs);
  }

  /** `PrmGen.__init__` is the node stores, then the writes of the kept edges, then the obstacle records. */
  lemma LoadPrmUnfold(nodeLines: seq<Line<NodeRec>>, edgeLines: seq<Line<EdgeRec>>,
                      obstLines: Option<seq<Line<ObstRec>>>)
    ensures LoadPrm(nodeLines, edgeLines, obstLines).Success? <==>
      && Records(nodeLines).Success? && Records(edgeLines).Success?
      && PricedWhenKnown(nodeLines, edgeLines)
      && LoadObstacles(obstLines).Success?
    ensures LoadPrm(nodeLines, edgeLines, obstLines).Success? ==>
      && Records(nodeLines).Success? && Records(edgeLines).Success?
      && var g0 := AddNodes(Empty, Records(nodeLines).value);
         var es := Records(edgeLines).value;
         && KnownPriced(g0, es)
         && LoadPrm(nodeLines, edgeLines, obstLines).value ==
              Prm(AddLinks(g0, LinksOf(KnownOnly(g0, es))), LoadObstacles(obstLines).value)
  {
    LoadNodeLinesIsAddNodes(Empty, nodeLines);
    if Records(nodeLines).Success? {
      var rs := Records(nodeLines).value;
      var g0 := AddNodes(Empty, rs);
      SkippingIsAddLinks(g0, edgeLines);
      if Records(edgeLines).Success? {
        KeptEdges(rs, Records(edgeLines).value);
      }
    }
  }

  /** The tables the node records and the kept, priced edge records build. */
  lemma PrmTables(rs: seq<NodeRec>, es: seq<EdgeRec>)
    requires KnownPriced(AddNodes(Empty, rs), es)
    ensures var g0 := AddNodes(Empty, rs);
      var ls := LinksOf(KnownOnly(g0, es));
      var g := AddLinks(g0, ls);
      && Valid(g)
      && (forall m :: m in g.nodes <==> HasId(rs, m))
      && (forall m :: m in g.nodes ==> LastRec(rs, m).Some? && g.nodes[m] == NodeOf(LastRec(rs, m).value))
      && (forall m :: m in g.nodes ==> g.stat[m] == Unvisited)
      && (forall e :: e in g.cost <==> LastWrite(ls, e).Some?)
      && (forall e :: e in g.cost ==> g.cost[e] == LastWrite(ls, e).value)
  {
    var g0 := AddNodes(Empty, rs);
    var ls := LinksOf(KnownOnly(g0, es));
    NodesTable(rs);
    assert forall i :: 0 <= i < |ls| ==> ls[i].a in g0.nodes && ls[i].b in g0.nodes && ls[i].ab == ls[i].ba;
    LinksTable(g0, ls);
  }

  /**
   * `PrmGen.__init__`. The load succeeds exactly when no line crashes and
   * every edge whose end points are both nodes has a numeric cost; edges
   * naming an unknown node are skipped, and an empty edge table is allowed.
   * Then the tables are valid, the nodes are those of the node lines, each
   * from its last record and unvisited; a directed cost `a:b` exists exactly
   * when some kept edge line joins `a` and `b`, and holds the cost of the last
   * such line; the obstacles are the obstacle records in file order, none
   * when no obstacle lines are given.
   */
  lemma LoadPrmSpec(nodeLines: seq<Line<NodeRec>>, edgeLines: seq<Line<EdgeRec>>,
                    obstLines: Option<seq<Line<ObstRec>>>)
    ensures LoadPrm(nodeLines, edgeLines, obstLines).Success? <==>
      && Records(nodeLines).Success? && Records(edgeLines).Success?
      && PricedWhenKnown(nodeLines, edgeLines)
      && LoadObstacles(obstLines).Success?
    ensures LoadPrm(nodeLines, edgeLines, obstLines).Success? ==>
      && Records(nodeLines).Success? && Records(edgeLines).Success?
      && var p := LoadPrm(nodeLines, edgeLines, obstLines).value;
         var rs := Records(nodeLines).value;
         var es := Records(edgeLines).value;
         var kept := KnownOnly(AddNodes(Empty, rs), es);
         && (forall e :: e in kept <==> e in es && HasId(rs, e.a) && HasId(rs, e.b))
         && KnownPriced(AddNodes(Empty, rs), es)
         && var ls := LinksOf(kept);
         && Valid(p.g)
         && (forall m :: m in p.g.nodes <==> HasId(rs, m))
         && (forall m :: m in p.g.nodes ==> LastRec(rs, m).Some? && p.g.nodes[m] == NodeOf(LastRec(rs, m).value))
         && (forall m :: m in p.g.nodes ==> p.g.stat[m] == Unvisited)
         && (forall e :: e in p.g.cost <==> LastWrite(ls, e).Some?)
         && (forall e :: e in p.g.cost ==> p.g.cost[e] == LastWrite(ls, e).value)
         && p.obst == (if obstLines.None? then [] else Records(obstLines.value).value)
  {
    LoadPrmUnfold(nodeLines, edgeLines, obstLines);
    if LoadPrm(nodeLines, edgeLines, obstLines).Success? {
      KeptEdges(Records(nodeLines).value, Records(edgeLines).value);
      PrmTables(Records(nodeLines).value, Records(edgeLines).value);
    }
  }

  //-------------------------------------------------------------------------
  // Line of sight and distance

  /** `Dist` is symmetric, so the two directed costs written for a pair are equal. */
  lemma DistSymmetric(root: real -> real, nodes: map<string, Node>, a: string, b: string)
    requires a in nodes && b in nodes
    ensures Dist(root, nodes, a, b) == Dist(root, nodes, b, a)
    ensures PairLink(root, nodes, a, b).ab == PairLink(root, nodes, a, b).ba
  {
    DistanceSymmetric(root, nodes[a].x, nodes[a].y, nodes[b].x, nodes[b].y);
  }

  //-------------------------------------------------------------------------
  // Generated ids

  /** The generated ids read back as consecutive numbers, so no two are equal. */
  lemma GenIdsNumbered(start: nat, k: nat)
    ensures forall i :: 0 <= i < k ==> ParseNat(GenIds(start, k)[i]) == start + i
    ensures Distinct(GenIds(start, k))
  {
    var ids := GenIds(start, k);
    forall i | 0 <= i < k ensures ParseNat(ids[i]) == start + i {
      ParseRendered(start + i);
    }
  }

  //-------------------------------------------------------------------------
  // The pairs tried

  /** `a` comes strictly before `b` in `ids`. */
  ghost predicate Before(ids: seq<string>, a: string, b: string) {
    exists i, j :: 0 <= i < j < |ids| && ids[i] == a && ids[j] == b
  }

  /** The `j > i` loop tries exactly the pairs of an earlier and a later id, `n(n-1)/2` of them. */
  lemma {:induction false} PairsMembers(ids: seq<string>)
    ensures forall a, b :: (a, b) in Pairs(ids) <==> Before(ids, a, b)
    ensures 2 * |Pairs(ids)| == |ids| * (|ids| - 1)
    decreases |ids|
  {
    PairsCount(ids);
    if ids != [] {
      PairsMembers(ids[1..]);
      forall a, b ensures (a, b) in Pairs(ids) <==> Before(ids, a, b) {
        PairsCons(ids, a, b);
      }
    }
  }

  /** The pairs of the first id, then the pairs of the rest. */
  lemma PairsCons(ids: seq<string>, a: string, b: string)
    requires ids != []
    requires (a, b) in Pairs(ids[1..]) <==> Before(ids[1..], a, b)
    ensures (a, b) in Pairs(ids) <==> Before(ids, a, b)
  {
    var head := seq(|ids| - 1, j requires 0 <= j < |ids| - 1 => (ids[0], ids[j + 1]));
    var tail := ids[1..];
    assert Pairs(ids) == head + Pairs(tail);
    if (a, b) in head {
      var j :| 0 <= j < |head| && head[j] == (a, b);
      assert ids[0] == a && ids[j + 1] == b;
    } else if (a, b) in Pairs(tail) {
      var i, j :| 0 <= i < j < |tail| && tail[i] == a && tail[j] == b;
      assert ids[i + 1] == a && ids[j + 1] == b;
    }
    if Before(ids, a, b) {
      var i, j :| 0 <= i < j < |ids| && ids[i] == a && ids[j] == b;
      if i == 0 {
        assert head[j - 1] == (a, b);
      } else {
        assert tail[i - 1] == a && tail[j - 1] == b;
      }
    }
  }

  lemma {:induction false} PairsCount(ids: seq<string>)
    ensures 2 * |Pairs(ids)| == |ids| * (|ids| - 1)
    decreases |ids|
  {
    if ids != [] {
      PairsCount(ids[1..]);
      assert 2 * |Pairs(ids)| == 2 * (|ids| - 1) + |ids[1..]| * (|ids[1..]| - 1);
    }
  }

  /** With distinct ids each unordered pair is tried once: no pair twice and never both orders. */
  lemma PairsOnce(ids: seq<string>)
    requires Distinct(ids)
    ensures forall a, b :: (a, b) in Pairs(ids) ==> a != b && (b, a) !in Pairs(ids)
  {
    PairsMembers(ids);
    forall a, b | (a, b) in Pairs(ids) ensures a != b && (b, a) !in Pairs(ids) {
      var i, j :| 0 <= i < j < |ids| && ids[i] == a && ids[j] == b;
    }
  }

  /** The nested loop over generated and original ids tries every (generated, original) pair, `|gen| * |org|` of them. */
  lemma {:induction false} CrossMembers(gen: seq<string>, org: seq<string>)
    ensures forall a, b :: (a, b) in Cross(gen, org) <==> a in gen && b in org
    ensures |Cross(gen, org)| == |gen| * |org|
    decreases |gen|
  {
    if gen != [] {
      var head := seq(|org|, j requires 0 <= j < |org| => (gen[0], org[j]));
      CrossMembers(gen[1..], org);
      assert Cross(gen, org) == head + Cross(gen[1..], org);
      forall a, b ensures (a, b) in Cross(gen, org) <==> a in gen && b in org {
        if a == gen[0] && b in org {
          var j :| 0 <= j < |org| && org[j] == b;
          assert head[j] == (a, b);
        }
        if (a, b) in head {
          var j :| 0 <= j < |head| && head[j] == (a, b);
        }
        assert a in gen <==> a == gen[0] || a in gen[1..];
      }
      assert |gen| * |org| == |org| + (|gen| - 1) * |org|;
    }
  }

  //-------------------------------------------------------------------------
  // The edge loops

  /** The pair `p` covers the directed key `e` in one of its two directions. */
  predicate Covers(p: (string, string), e: (string, string)) {
    e == p || e == (p.1, p.0)
  }

  /** Some pair of `ps` whose end points are in sight of each other covers `e`. */
  ghost predicate SeenBy(hit: Intersects, obst: seq<ObstRec>, nodes: map<string, Node>,
                         ps: seq<(string, string)>, e: (string, string))
  {
    && e.0 in nodes && e.1 in nodes
    && exists k :: 0 <= k < |ps| && Covers(ps[k], e) && ps[k].0 in nodes && ps[k].1 in nodes
         && LineOfSight(hit, obst, nodes, ps[k].0, ps[k].1)
  }

  lemma SeenByCons(hit: Intersects, obst: seq<ObstRec>, nodes: map<string, Node>,
                   ps: seq<(string, string)>, e: (string, string))
    requires ps != [] && ps[0].0 in nodes && ps[0].1 in nodes
    ensures SeenBy(hit, obst, nodes, ps, e) <==>
      || (e.0 in nodes && e.1 in nodes && Covers(ps[0], e) && LineOfSight(hit, obst, nodes, ps[0].0, ps[0].1))
      || SeenBy(hit, obst, nodes, ps[1..], e)
  {
    if SeenBy(hit, obst, nodes, ps, e) {
      var k :| 0 <= k < |ps| && Covers(ps[k], e) && ps[k].0 in nodes && ps[k].1 in nodes
        && LineOfSight(hit, obst, nodes, ps[k].0, ps[k].1);
      if k > 0 { assert ps[1..][k - 1] == ps[k]; }
    }
    if SeenBy(hit, obst, nodes, ps[1..], e) {
      var k :| 0 <= k < |ps[1..]| && Covers(ps[1..][k], e) && ps[1..][k].0 in nodes && ps[1..][k].1 in nodes
        && LineOfSight(hit, obst, nodes, ps[1..][k].0, ps[1..][k].1);
      assert ps[1..][k] == ps[k + 1];
    }
  }

  /** One pass of an edge loop: the pair's two keys get its distance when the pair is in sight. */
  lemma LinkStep(g: Graph, hit: Intersects, obst: seq<ObstRec>, root: real -> real, a: string, b: string)
    requires g.nbr.Keys == g.nodes.Keys && a in g.nodes && b in g.nodes
    ensures var sight := LineOfSight(hit, obst, g.nodes, a, b);
      var g1 := if sight then AddLink(g, PairLink(root, g.nodes, a, b)) else g;
      && g1.nodes == g.nodes && g1.nbr.Keys == g.nbr.Keys
      && (forall e :: e in g1.cost <==> e in g.cost || (Covers((a, b), e) && sight))
      && (forall e :: e in g1.cost ==>
            g1.cost[e] == if Covers((a, b), e) && sight then Dist(root, g.nodes, e.0, e.1) else g.cost[e])
  {
  }

  /**
   * The first pass of an edge loop: the tables `g1` it leaves, from which the
   * loop carries on with the remaining pairs.
   */
  lemma ConnectHead(g: Graph, hit: Intersects, obst: seq<ObstRec>, root: real -> real,
                    ps: seq<(string, string)>) returns (g1: Graph)
    requires g.nbr.Keys == g.nodes.Keys && Placed(g, ps) && ps != []
    ensures g1.nodes == g.nodes && g1.nbr.Keys == g.nbr.Keys && Placed(g1, ps[1..])
    ensures Connect(g, hit, obst, root, ps) == Connect(g1, hit, obst, root, ps[1..])
    ensures var sight := LineOfSight(hit, obst, g.nodes, ps[0].0, ps[0].1);
      && (forall e :: e in g1.cost <==> e in g.cost || (Covers(ps[0], e) && sight))
      && (forall e :: e in g1.cost ==>
            g1.cost[e] == if Covers(ps[0], e) && sight then Dist(root, g.nodes, e.0, e.1) else g.cost[e])
  {
    var (a, b) := ps[0];
    g1 := if LineOfSight(hit, obst, g.nodes, a, b) then AddLink(g, PairLink(root, g.nodes, a, b)) else g;
    LinkStep(g, hit, obst, root, a, b);
    PlacedTail(g, g1, ps);
  }

  /** An edge loop adds a directed key exactly when some pair in sight covers it. */
  lemma {:induction false} ConnectKeys(g: Graph, hit: Intersects, obst: seq<ObstRec>, root: real -> real,
                                       ps: seq<(string, string)>)
    requires g.nbr.Keys == g.nodes.Keys && Placed(g, ps)
    ensures forall e :: e in Connect(g, hit, obst, root, ps).cost <==> e in g.cost || SeenBy(hit, obst, g.nodes, ps, e)
    decreases |ps|
  {
    if ps != [] {
      var sight := LineOfSight(hit, obst, g.nodes, ps[0].0, ps[0].1);
      var g1 := ConnectHead(g, hit, obst, root, ps);
      ConnectKeys(g1, hit, obst, root, ps[1..]);
      assert ps[0].0 in g.nodes && ps[0].1 in g.nodes;
      forall e ensures e in Connect(g, hit, obst, root, ps).cost <==> e in g.cost || SeenBy(hit, obst, g.nodes, ps, e) {
        SeenByCons(hit, obst, g.nodes, ps, e);
      }
    }
  }

  /** A key some pair in sight covers holds the distance between its end points. */
  lemma {:induction false} ConnectSeen(g: Graph, hit: Intersects, obst: seq<ObstRec>, root: real -> real,
                                       ps: seq<(string, string)>)
    requires g.nbr.Keys == g.nodes.Keys && Placed(g, ps)
    ensures var r := Connect(g, hit, obst, root, ps);
      forall e :: e in r.cost && SeenBy(hit, obst, g.nodes, ps, e) ==> r.cost[e] == Dist(root, g.nodes, e.0, e.1)
    decreases |ps|
  {
    if ps != [] {
      var (a, b) := ps[0];
      var sight := LineOfSight(hit, obst, g.nodes, a, b);
      var g1 := ConnectHead(g, hit, obst, root, ps);
      ConnectKept(g1, hit, obst, root, ps[1..]);
      ConnectSeen(g1, hit, obst, root, ps[1..]);
      forall e ensures SeenBy(hit, obst, g.nodes, ps, e) <==>
        (e.0 in g.nodes && e.1 in g.nodes && Covers((a, b), e) && sight) || SeenBy(hit, obst, g.nodes, ps[1..], e)
      {
        SeenByCons(hit, obst, g.nodes, ps, e);
      }
    }
  }

  /** A key no pair in sight covers keeps its cost. */
  lemma {:induction false} ConnectKept(g: Graph, hit: Intersects, obst: seq<ObstRec>, root: real -> real,
                                       ps: seq<(string, string)>)
    requires g.nbr.Keys == g.nodes.Keys && Placed(g, ps)
    ensures var r := Connect(g, hit, obst, root, ps);
      forall e :: e in g.cost && !SeenBy(hit, obst, g.nodes, ps, e) ==> e in r.cost && r.cost[e] == g.cost[e]
    decreases |ps|
  {
    if ps != [] {
      var (a, b) := ps[0];
      var sight := LineOfSight(hit, obst, g.nodes, a, b);
      var g1 := ConnectHead(g, hit, obst, root, ps);
      ConnectKept(g1, hit, obst, root, ps[1..]);
      forall e ensures SeenBy(hit, obst, g.nodes, ps, e) <==>
        (e.0 in g.nodes && e.1 in g.nodes && Covers((a, b), e) && sight) || SeenBy(hit, obst, g.nodes, ps[1..], e)
      {
        SeenByCons(hit, obst, g.nodes, ps, e);
      }
    }
  }

  lemma PlacedTail(g: Graph, g1: Graph, ps: seq<(string, string)>)
    requires ps != [] && Placed(g, ps) && g1.nodes == g.nodes
    ensures Placed(g1, ps[1..])
  {
    forall k | 0 <= k < |ps[1..]| ensures ps[1..][k].0 in g1.nodes && ps[1..][k].1 in g1.nodes {
      assert ps[1..][k] == ps[k + 1];
    }
  }

  /** An edge loop keeps the tables valid: both costs of a pair are the same distance. */
  lemma {:induction false} ConnectValid(g: Graph, hit: Intersects, obst: seq<ObstRec>, root: real -> real,
                                        ps: seq<(string, string)>)
    requires Valid(g) && Placed(g, ps)
    ensures Valid(Connect(g, hit, obst, root, ps))
    decreases |ps|
  {
    if ps != [] {
      var (a, b) := ps[0];
      var g1 := if LineOfSight(hit, obst, g.nodes, a, b) then AddLink(g, PairLink(root, g.nodes, a, b)) else g;
      if LineOfSight(hit, obst, g.nodes, a, b) {
        DistSymmetric(root, g.nodes, a, b);
        AddLinkValid(g, PairLink(root, g.nodes, a, b));
      }
      PlacedTail(g, g1, ps);
      ConnectValid(g1, hit, obst, root, ps[1..]);
    }
  }

  //-------------------------------------------------------------------------
  // Generation

  /** None of `ids` is already a node. */
  ghost predicate Fresh(nodes: map<string, Node>, ids: seq<string>) {
    forall i :: 0 <= i < |ids| ==> ids[i] !in nodes
  }

  lemma DistinctTail(ids: seq<string>)
    requires ids != [] && Distinct(ids)
    ensures Distinct(ids[1..]) && ids[0] !in ids[1..]
  {
    forall i, j | 0 <= i < j < |ids[1..]| ensures ids[1..][i] != ids[1..][j] {
      assert ids[1..][i] == ids[i + 1] && ids[1..][j] == ids[j + 1];
    }
  }

  lemma FreshTail(nodes: map<string, Node>, ids: seq<string>, n: Node)
    requires ids != [] && Distinct(ids) && Fresh(nodes, ids)
    ensures Fresh(nodes[ids[0] := n], ids[1..])
  {
    DistinctTail(ids);
    forall i | 0 <= i < |ids[1..]| ensures ids[1..][i] !in nodes[ids[0] := n] {
      assert ids[1..][i] == ids[i + 1];
    }
  }

  lemma AppendSplit(a: seq<string>, ids: seq<string>)
    requires ids != []
    ensures a + ids == (a + [ids[0]]) + ids[1..]
  {
  }

  /** Fresh, distinct generated ids go to the end of the node order, and the tables stay valid. */
  lemma {:induction false} AddGenNodesValid(g: Graph, ids: seq<string>, pts: seq<(real, real)>)
    requires |ids| == |pts| && Valid(g) && Distinct(ids) && Fresh(g.nodes, ids)
    ensures var r := AddGenNodes(g, ids, pts); r.ids == g.ids + ids && Valid(r)
    decreases |ids|
  {
    if ids != [] {
      var g1 := AddNode(g, ids[0], GenNode(pts[0]));
      AddNodeValid(g, ids[0], GenNode(pts[0]));
      FreshTail(g.nodes, ids, GenNode(pts[0]));
      assert AddGenNodes(g, ids, pts) == AddGenNodes(g1, ids[1..], pts[1..]);
      AddGenNodesValid(g1, ids[1..], pts[1..]);
      AppendSplit(g.ids, ids);
    }
  }

  /** The generating loop leaves the entries of every name it does not generate as they were. */
  lemma {:induction false} AddGenNodesKept(g: Graph, ids: seq<string>, pts: seq<(real, real)>, m: string)
    requires |ids| == |pts| && m !in ids
    ensures var r := AddGenNodes(g, ids, pts);
      && (m in g.nodes ==> r.nodes[m] == g.nodes[m])
      && (m in g.nbr ==> r.nbr[m] == g.nbr[m])
      && (m in g.stat ==> r.stat[m] == g.stat[m])
    decreases |ids|
  {
    if ids != [] {
      var g1 := AddNode(g, ids[0], GenNode(pts[0]));
      assert AddGenNodes(g, ids, pts) == AddGenNodes(g1, ids[1..], pts[1..]);
      assert m !in ids[1..];
      AddGenNodesKept(g1, ids[1..], pts[1..], m);
    }
  }

  /** Each generated id holds its sample point, no neighbours and status unvisited. */
  lemma {:induction false} AddGenNodesEntries(g: Graph, ids: seq<string>, pts: seq<(real, real)>)
    requires |ids| == |pts| && Distinct(ids)
    ensures var r := AddGenNodes(g, ids, pts);
      forall i :: 0 <= i < |ids| ==>
        r.nodes[ids[i]] == GenNode(pts[i]) && r.nbr[ids[i]] == [] && r.stat[ids[i]] == Unvisited
    decreases |ids|
  {
    if ids != [] {
      var g1 := AddNode(g, ids[0], GenNode(pts[0]));
      var r := AddGenNodes(g, ids, pts);
      assert r == AddGenNodes(g1, ids[1..], pts[1..]);
      DistinctTail(ids);
      AddGenNodesEntries(g1, ids[1..], pts[1..]);
      AddGenNodesKept(g1, ids[1..], pts[1..], ids[0]);
      forall i | 0 < i < |ids|
        ensures r.nodes[ids[i]] == GenNode(pts[i]) && r.nbr[ids[i]] == [] && r.stat[ids[i]] == Unvisited
      {
        assert ids[1..][i - 1] == ids[i] && pts[1..][i - 1] == pts[i];
      }
    }
  }

  /** A pair that is the only one covering `e` decides whether `e` is seen. */
  lemma SeenByOne(hit: Intersects, obst: seq<ObstRec>, nodes: map<string, Node>,
                  ps: seq<(string, string)>, k: nat, e: (string, string))
    requires k < |ps| && ps[k].0 in nodes && ps[k].1 in nodes && Covers(ps[k], e)
    requires forall k' :: 0 <= k' < |ps| && Covers(ps[k'], e) ==> ps[k'] == ps[k]
    ensures SeenBy(hit, obst, nodes, ps, e) <==> LineOfSight(hit, obst, nodes, ps[k].0, ps[k].1)
  {
  }

  /** When a pair is listed in one order only, it is the only pair covering either of its keys. */
  lemma OnlyCover(ps: seq<(string, string)>, a: string, b: string) returns (k: nat)
    requires (a, b) in ps && (b, a) !in ps
    ensures k < |ps| && ps[k] == (a, b)
    ensures forall k' :: 0 <= k' < |ps| && (Covers(ps[k'], (a, b)) || Covers(ps[k'], (b, a))) ==> ps[k'] == (a, b)
  {
    k :| 0 <= k < |ps| && ps[k] == (a, b);
    forall k' | 0 <= k' < |ps| && (Covers(ps[k'], (a, b)) || Covers(ps[k'], (b, a))) ensures ps[k'] == (a, b) {
      assert ps[k'] in ps;
    }
  }

  /** Generated ids `i < j` get both keys exactly when `gen[i]` sees `gen[j]`. */
  lemma PairSight(hit: Intersects, obst: seq<ObstRec>, nodes: map<string, Node>, gen: seq<string>, i: nat, j: nat)
    requires Distinct(gen) && forall x :: x in gen ==> x in nodes
    requires i < j < |gen|
    ensures SeenBy(hit, obst, nodes, Pairs(gen), (gen[i], gen[j])) <==> LineOfSight(hit, obst, nodes, gen[i], gen[j])
    ensures SeenBy(hit, obst, nodes, Pairs(gen), (gen[j], gen[i])) <==> LineOfSight(hit, obst, nodes, gen[i], gen[j])
  {
    var ps := Pairs(gen);
    var a, b := gen[i], gen[j];
    PairsMembers(gen);
    PairsOnce(gen);
    assert Before(gen, a, b);
    var k := OnlyCover(ps, a, b);
    SeenByOne(hit, obst, nodes, ps, k, (a, b));
    SeenByOne(hit, obst, nodes, ps, k, (b, a));
  }

  /** The pair loop only joins generated ids, and never an id to itself. */
  lemma PairsEnds(hit: Intersects, obst: seq<ObstRec>, nodes: map<string, Node>, gen: seq<string>, e: (string, string))
    requires Distinct(gen)
    requires SeenBy(hit, obst, nodes, Pairs(gen), e)
    ensures e.0 in gen && e.1 in gen && e.0 != e.1
  {
    var ps := Pairs(gen);
    PairsOnce(gen);
    var k :| 0 <= k < |ps| && Covers(ps[k], e);
    assert ps[k] in ps;
  }

  /** A generated id and an original one get both keys exactly when the generated one sees the original. */
  lemma CrossSightOne(hit: Intersects, obst: seq<ObstRec>, nodes: map<string, Node>, gen: seq<string>,
                      org: seq<string>, x: string, y: string)
    requires forall z :: z in gen ==> z in nodes && z !in org
    requires forall z :: z in org ==> z in nodes
    requires x in gen && y in org
    ensures SeenBy(hit, obst, nodes, Cross(gen, org), (x, y)) <==> LineOfSight(hit, obst, nodes, x, y)
    ensures SeenBy(hit, obst, nodes, Cross(gen, org), (y, x)) <==> LineOfSight(hit, obst, nodes, x, y)
  {
    var ps := Cross(gen, org);
    CrossMembers(gen, org);
    var k := OnlyCover(ps, x, y);
    SeenByOne(hit, obst, nodes, ps, k, (x, y));
    SeenByOne(hit, obst, nodes, ps, k, (y, x));
  }

  /** The loop over generated and original ids only joins a generated id with an original one. */
  lemma CrossEnds(hit: Intersects, obst: seq<ObstRec>, nodes: map<string, Node>, gen: seq<string>,
                  org: seq<string>, e: (string, string))
    requires SeenBy(hit, obst, nodes, Cross(gen, org), e)
    ensures (e.0 in gen && e.1 in org) || (e.0 in org && e.1 in gen)
  {
    var ps := Cross(gen, org);
    CrossMembers(gen, org);
    var k :| 0 <= k < |ps| && Covers(ps[k], e);
    assert ps[k] in ps;
  }

  //-------------------------------------------------------------------------
  // The two edge loops

  /**
   * The setting of the edge loops: the generated ids are distinct nodes, none
   * of them original and none on an existing edge, and the original ids are
   * nodes.
   */
  ghost predicate Separate(g: Graph, gen: seq<string>, org: seq<string>) {
    && g.nbr.Keys == g.nodes.Keys && Distinct(gen)
    && (forall x :: x in gen ==> x in g.nodes && x !in org)
    && (forall y :: y in org ==> y in g.nodes)
    && (forall e :: e in g.cost ==> e.0 !in gen && e.1 !in gen)
  }

  /** Keys and costs of edges with no generated end point are untouched by the loops. */
  lemma LoopsKeepOthers(g: Graph, hit: Intersects, obst: seq<ObstRec>, root: real -> real,
                        gen: seq<string>, org: seq<string>)
    requires Separate(g, gen, org)
    ensures var r := EdgeLoops(g, hit, obst, root, gen, org);
      forall e: (string, string) :: e.0 !in gen && e.1 !in gen ==> (e in r.cost <==> e in g.cost)
    ensures var r := EdgeLoops(g, hit, obst, root, gen, org);
      forall e :: e in g.cost ==> e in r.cost && r.cost[e] == g.cost[e]
  {
    var g2 := Connect(g, hit, obst, root, Pairs(gen));
    ConnectKeys(g, hit, obst, root, Pairs(gen));
    ConnectKeys(g2, hit, obst, root, Cross(gen, org));
    ConnectKept(g, hit, obst, root, Pairs(gen));
    ConnectKept(g2, hit, obst, root, Cross(gen, org));
    forall e: (string, string) | e.0 !in gen && e.1 !in gen
      ensures !SeenBy(hit, obst, g.nodes, Pairs(gen), e) && !SeenBy(hit, obst, g.nodes, Cross(gen, org), e)
    {
      if SeenBy(hit, obst, g.nodes, Pairs(gen), e) {
        PairsEnds(hit, obst, g.nodes, gen, e);
      }
      if SeenBy(hit, obst, g.nodes, Cross(gen, org), e) {
        CrossEnds(hit, obst, g.nodes, gen, org, e);
      }
    }
  }

  /**
   * Two generated ids `i < j` are joined, in both directions, exactly when
   * the first sees the second; no generated id is joined to itself.
   */
  lemma LoopsJoinGenerated(g: Graph, hit: Intersects, obst: seq<ObstRec>, root: real -> real,
                           gen: seq<string>, org: seq<string>)
    requires Separate(g, gen, org)
    ensures var r := EdgeLoops(g, hit, obst, root, gen, org);
      forall i, j :: 0 <= i < j < |gen| ==>
        && ((gen[i], gen[j]) in r.cost <==> LineOfSight(hit, obst, g.nodes, gen[i], gen[j]))
        && ((gen[j], gen[i]) in r.cost <==> LineOfSight(hit, obst, g.nodes, gen[i], gen[j]))
    ensures var r := EdgeLoops(g, hit, obst, root, gen, org);
      forall i :: 0 <= i < |gen| ==> (gen[i], gen[i]) !in r.cost
  {
    var r := EdgeLoops(g, hit, obst, root, gen, org);
    forall i, j | 0 <= i < j < |gen|
      ensures && ((gen[i], gen[j]) in r.cost <==> LineOfSight(hit, obst, g.nodes, gen[i], gen[j]))
              && ((gen[j], gen[i]) in r.cost <==> LineOfSight(hit, obst, g.nodes, gen[i], gen[j]))
    {
      LoopsJoinPair(g, hit, obst, root, gen, org, i, j);
    }
    forall i | 0 <= i < |gen| ensures (gen[i], gen[i]) !in r.cost {
      LoopsJoinSelf(g, hit, obst, root, gen, org, gen[i]);
    }
  }

  lemma LoopsJoinPair(g: Graph, hit: Intersects, obst: seq<ObstRec>, root: real -> real,
                      gen: seq<string>, org: seq<string>, i: nat, j: nat)
    requires Separate(g, gen, org) && i < j < |gen|
    ensures var r := EdgeLoops(g, hit, obst, root, gen, org);
      && ((gen[i], gen[j]) in r.cost <==> LineOfSight(hit, obst, g.nodes, gen[i], gen[j]))
      && ((gen[j], gen[i]) in r.cost <==> LineOfSight(hit, obst, g.nodes, gen[i], gen[j]))
  {
    var g2 := Connect(g, hit, obst, root, Pairs(gen));
    var a, b := gen[i], gen[j];
    ConnectKeys(g, hit, obst, root, Pairs(gen));
    ConnectKeys(g2, hit, obst, root, Cross(gen, org));
    if SeenBy(hit, obst, g.nodes, Cross(gen, org), (a, b)) {
      CrossEnds(hit, obst, g.nodes, gen, org, (a, b));
    }
    if SeenBy(hit, obst, g.nodes, Cross(gen, org), (b, a)) {
      CrossEnds(hit, obst, g.nodes, gen, org, (b, a));
    }
    PairSight(hit, obst, g.nodes, gen, i, j);
  }

  lemma LoopsJoinSelf(g: Graph, hit: Intersects, obst: seq<ObstRec>, root: real -> real,
                      gen: seq<string>, org: seq<string>, x: string)
    requires Separate(g, gen, org) && x in gen
    ensures (x, x) !in EdgeLoops(g, hit, obst, root, gen, org).cost
  {
    var g2 := Connect(g, hit, obst, root, Pairs(gen));
    ConnectKeys(g, hit, obst, root, Pairs(gen));
    ConnectKeys(g2, hit, obst, root, Cross(gen, org));
    if SeenBy(hit, obst, g.nodes, Cross(gen, org), (x, x)) {
      CrossEnds(hit, obst, g.nodes, gen, org, (x, x));
    }
    if SeenBy(hit, obst, g.nodes, Pairs(gen), (x, x)) {
      PairsEnds(hit, obst, g.nodes, gen, (x, x));
    }
  }

  /**
   * A generated id and an original id are joined, in both directions, exactly
   * when the generated one sees the original one.
   */
  lemma LoopsJoinOriginal(g: Graph, hit: Intersects, obst: seq<ObstRec>, root: real -> real,
                          gen: seq<string>, org: seq<string>)
    requires Separate(g, gen, org)
    ensures var r := EdgeLoops(g, hit, obst, root, gen, org);
      forall x, y :: x in gen && y in org ==>
        && ((x, y) in r.cost <==> LineOfSight(hit, obst, g.nodes, x, y))
        && ((y, x) in r.cost <==> LineOfSight(hit, obst, g.nodes, x, y))
  {
    var g2 := Connect(g, hit, obst, root, Pairs(gen));
    ConnectKeys(g, hit, obst, root, Pairs(gen));
    ConnectKeys(g2, hit, obst, root, Cross(gen, org));
    forall x, y | x in gen && y in org
      ensures (x, y) !in g2.cost && (y, x) !in g2.cost
      ensures SeenBy(hit, obst, g.nodes, Cross(gen, org), (x, y)) <==> LineOfSight(hit, obst, g.nodes, x, y)
      ensures SeenBy(hit, obst, g.nodes, Cross(gen, org), (y, x)) <==> LineOfSight(hit, obst, g.nodes, x, y)
    {
      if SeenBy(hit, obst, g.nodes, Pairs(gen), (x, y)) {
        PairsEnds(hit, obst, g.nodes, gen, (x, y));
      }
      if SeenBy(hit, obst, g.nodes, Pairs(gen), (y, x)) {
        PairsEnds(hit, obst, g.nodes, gen, (y, x));
      }
      CrossSightOne(hit, obst, g.nodes, gen, org, x, y);
    }
  }

  /** Every edge the loops add costs the distance between its end points. */
  lemma LoopsCosts(g: Graph, hit: Intersects, obst: seq<ObstRec>, root: real -> real,
                   gen: seq<string>, org: seq<string>)
    requires Separate(g, gen, org)
    ensures var r := EdgeLoops(g, hit, obst, root, gen, org);
      forall e :: e in r.cost && e !in g.cost ==>
        e.0 in g.nodes && e.1 in g.nodes && r.cost[e] == Dist(root, g.nodes, e.0, e.1)
  {
    var g2 := Connect(g, hit, obst, root, Pairs(gen));
    ConnectKeys(g, hit, obst, root, Pairs(gen));
    ConnectKeys(g2, hit, obst, root, Cross(gen, org));
    ConnectSeen(g, hit, obst, root, Pairs(gen));
    ConnectSeen(g2, hit, obst, root, Cross(gen, org));
    ConnectKept(g2, hit, obst, root, Cross(gen, org));
  }

  /** The loops keep the tables valid. */
  lemma LoopsValid(g: Graph, hit: Intersects, obst: seq<ObstRec>, root: real -> real,
                   gen: seq<string>, org: seq<string>)
    requires Valid(g) && (forall x :: x in gen ==> x in g.nodes) && (forall y :: y in org ==> y in g.nodes)
    ensures Valid(EdgeLoops(g, hit, obst, root, gen, org))
  {
    ConnectValid(g, hit, obst, root, Pairs(gen));
    ConnectValid(Connect(g, hit, obst, root, Pairs(gen)), hit, obst, root, Cross(gen, org));
  }
  //-------------------------------------------------------------------------
  // GenNodesAndEdges

  /** The ids `GenNodesAndEdges` gives the samples of `p` are not node names yet. */
  ghost predicate FreshGen(p: Prm, pts: seq<(real, real)>) {
    Fresh(p.g.nodes, GenIds(|p.g.nodes| + 1, |pts|))
  }

  /** With fresh ids, the generated nodes set up the edge loops' setting, and the edge table is as loaded. */
  lemma GenSeparate(p: Prm, pts: seq<(real, real)>)
    requires Valid(p.g) && FreshGen(p, pts)
    ensures var gen := GenIds(|p.g.nodes| + 1, |pts|);
      var g1 := AddGenNodes(p.g, gen, pts);
      && Separate(g1, gen, p.g.ids) && g1.cost == p.g.cost
      && (forall x :: x in gen ==> x !in p.g.nodes)
      && Valid(g1) && g1.ids == p.g.ids + gen
  {
    var gen := GenIds(|p.g.nodes| + 1, |pts|);
    var g1 := AddGenNodes(p.g, gen, pts);
    GenIdsNumbered(|p.g.nodes| + 1, |pts|);
    AddGenNodesValid(p.g, gen, pts);
    forall x | x in gen ensures x !in p.g.nodes && x !in p.g.ids && x in g1.nodes {
      var i :| 0 <= i < |gen| && gen[i] == x;
    }
    forall y | y in p.g.ids ensures y in g1.nodes {
      assert y in p.g.nodes;
    }
    forall e | e in g1.cost ensures e.0 !in gen && e.1 !in gen {
      assert e.0 in p.g.nodes && e.1 in p.g.nodes;
    }
  }

  /**
   * The generated nodes follow the original ones in the node order, each at
   * its sample point and unvisited; the original nodes keep their entries and
   * the tables stay valid.
   */
  lemma GenNodesSpec(p: Prm, pts: seq<(real, real)>, hit: Intersects, root: real -> real)
    requires Valid(p.g) && FreshGen(p, pts)
    ensures var r := GenNodesAndEdges(p, pts, hit, root).g;
      var gen := GenIds(|p.g.nodes| + 1, |pts|);
      && r.ids == p.g.ids + gen && Valid(r)
      && (forall i :: 0 <= i < |pts| ==> r.nodes[gen[i]] == GenNode(pts[i]) && r.stat[gen[i]] == Unvisited)
      && (forall m :: m in p.g.nodes ==> r.nodes[m] == p.g.nodes[m] && r.stat[m] == p.g.stat[m])
  {
    var gen := GenIds(|p.g.nodes| + 1, |pts|);
    var g1 := AddGenNodes(p.g, gen, pts);
    GenSeparate(p, pts);
    LoopsValid(g1, hit, p.obst, root, gen, p.g.ids);
    AddGenNodesEntries(p.g, gen, pts);
    forall m | m in p.g.nodes ensures g1.nodes[m] == p.g.nodes[m] && g1.stat[m] == p.g.stat[m] {
      AddGenNodesKept(p.g, gen, pts, m);
    }
  }

  /** The generation leaves the edges among the original nodes, and their costs, as they were. */
  lemma GenKeepsOriginalEdges(p: Prm, pts: seq<(real, real)>, hit: Intersects, root: real -> real)
    requires Valid(p.g) && FreshGen(p, pts)
    ensures var r := GenNodesAndEdges(p, pts, hit, root).g;
      forall e: (string, string) :: e.0 in p.g.nodes && e.1 in p.g.nodes ==> (e in r.cost <==> e in p.g.cost)
    ensures var r := GenNodesAndEdges(p, pts, hit, root).g;
      forall e :: e in p.g.cost ==> e in r.cost && r.cost[e] == p.g.cost[e]
  {
    var gen := GenIds(|p.g.nodes| + 1, |pts|);
    GenSeparate(p, pts);
    LoopsKeepOthers(AddGenNodes(p.g, gen, pts), hit, p.obst, root, gen, p.g.ids);
  }

  /**
   * Generated nodes `i < j` are joined, in both directions, exactly when the
   * first sees the second; no generated node is joined to itself.
   */
  lemma GenJoinsGenerated(p: Prm, pts: seq<(real, real)>, hit: Intersects, root: real -> real)
    requires Valid(p.g) && FreshGen(p, pts)
    ensures var r := GenNodesAndEdges(p, pts, hit, root).g;
      var gen := GenIds(|p.g.nodes| + 1, |pts|);
      forall i, j :: 0 <= i < j < |gen| ==>
        && ((gen[i], gen[j]) in r.cost <==> LineOfSight(hit, p.obst, r.nodes, gen[i], gen[j]))
        && ((gen[j], gen[i]) in r.cost <==> LineOfSight(hit, p.obst, r.nodes, gen[i], gen[j]))
    ensures var r := GenNodesAndEdges(p, pts, hit, root).g;
      var gen := GenIds(|p.g.nodes| + 1, |pts|);
      forall i :: 0 <= i < |gen| ==> (gen[i], gen[i]) !in r.cost
  {
    var gen := GenIds(|p.g.nodes| + 1, |pts|);
    var g1 := AddGenNodes(p.g, gen, pts);
    var r := GenNodesAndEdges(p, pts, hit, root).g;
    GenSeparate(p, pts);
    assert r == EdgeLoops(g1, hit, p.obst, root, gen, p.g.ids) && r.nodes == g1.nodes;
    LoopsJoinGenerated(g1, hit, p.obst, root, gen, p.g.ids);
  }

  /**
   * A generated node and an original node are joined, in both directions,
   * exactly when the generated one sees the original one.
   */
  lemma GenJoinsOriginal(p: Prm, pts: seq<(real, real)>, hit: Intersects, root: real -> real)
    requires Valid(p.g) && FreshGen(p, pts)
    ensures var r := GenNodesAndEdges(p, pts, hit, root).g;
      var gen := GenIds(|p.g.nodes| + 1, |pts|);
      forall x, y :: x in gen && y in p.g.nodes ==>
        && ((x, y) in r.cost <==> LineOfSight(hit, p.obst, r.nodes, x, y))
        && ((y, x) in r.cost <==> LineOfSight(hit, p.obst, r.nodes, x, y))
  {
    var gen := GenIds(|p.g.nodes| + 1, |pts|);
    GenSeparate(p, pts);
    LoopsJoinOriginal(AddGenNodes(p.g, gen, pts), hit, p.obst, root, gen, p.g.ids);
  }

  /** Every edge the generation adds costs the distance between its end points. */
  lemma GenEdgeCosts(p: Prm, pts: seq<(real, real)>, hit: Intersects, root: real -> real)
    requires Valid(p.g) && FreshGen(p, pts)
    ensures var r := GenNodesAndEdges(p, pts, hit, root).g;
      forall e :: e in r.cost && e !in p.g.cost ==>
        e.0 in r.nodes && e.1 in r.nodes && r.cost[e] == Dist(root, r.nodes, e.0, e.1)
  {
    var gen := GenIds(|p.g.nodes| + 1, |pts|);
    GenSeparate(p, pts);
    LoopsCosts(AddGenNodes(p.g, gen, pts), hit, p.obst, root, gen, p.g.ids);
  }

  //-------------------------------------------------------------------------
  // Export and reload

  /** Storing the exported node records on empty tables gives back the node order. */
  lemma ExportIds(g: Graph)
    requires Distinct(g.ids) && forall i :: 0 <= i < |g.ids| ==> g.ids[i] in g.nodes
    ensures AddNodes(Empty, ExtractNodes(g)).ids == g.ids
  {
    AddNodesOrder(Empty, ExtractNodes(g));
  }

  /** Storing the exported node records on empty tables gives back the positions, with every cost `100`. */
  lemma ExportEntries(g: Graph)
    requires forall m :: m in g.nodes <==> m in g.ids
    ensures var h := AddNodes(Empty, ExtractNodes(g));
      && (forall m :: m in h.nodes <==> m in g.nodes)
      && (forall m :: m in g.nodes ==> h.nodes[m] == Node(g.nodes[m].x, g.nodes[m].y, 100.0, 100.0))
  {
    var rs := ExtractNodes(g);
    AddNodesTable(Empty, rs);
    forall m ensures LastRec(rs, m).Some? <==> m in g.nodes {
      LastRecSome(rs, m);
      if m in g.nodes {
        var i :| 0 <= i < |g.ids| && g.ids[i] == m;
        assert rs[i].id == m;
      }
    }
    forall m | m in g.nodes ensures NodeOf(LastRec(rs, m).value) == Node(g.nodes[m].x, g.nodes[m].y, 100.0, 100.0) {
      LastRecSome(rs, m);
      var i :| 0 <= i < |rs| && rs[i] == LastRec(rs, m).value;
    }
  }

  /**
   * Storing the exported node records on empty tables gives back the node
   * order and the positions; every cost so far and tentative total is `100`,
   * every node unvisited and without edges.
   */
  lemma ExportNodesReload(g: Graph)
    requires Valid(g)
    ensures var h := AddNodes(Empty, ExtractNodes(g));
      && Valid(h) && h.cost == map[] && h.ids == g.ids
      && (forall m :: m in h.nodes <==> m in g.nodes)
      && (forall m :: m in g.nodes ==>
            h.nodes[m] == Node(g.nodes[m].x, g.nodes[m].y, 100.0, 100.0) && h.stat[m] == Unvisited)
  {
    NodesTable(ExtractNodes(g));
    ExportIds(g);
    ExportEntries(g);
  }

  /** The exported edge records touch exactly the keys of the edge table. */
  lemma ExportTouches(g: Graph, e: (string, string))
    requires forall k :: k in g.cost <==> k in g.keys
    requires forall a, b :: (a, b) in g.cost ==> (b, a) in g.cost
    ensures var ls := LinksOf(ExtractEdges(g));
      e in g.cost <==> exists i :: 0 <= i < |ls| && Touches(ls[i], e)
  {
    var ls := LinksOf(ExtractEdges(g));
    if e in g.cost {
      var i :| 0 <= i < |g.keys| && g.keys[i] == e;
      assert Touches(ls[i], e);
    }
    forall i | 0 <= i < |ls| && Touches(ls[i], e) ensures e in g.cost {
      assert g.keys[i] in g.cost;
    }
  }

  /** Every exported edge record touching a key writes that key's cost. */
  lemma ExportWrites(g: Graph, e: (string, string))
    requires forall k :: k in g.cost <==> k in g.keys
    requires forall a, b :: (a, b) in g.cost ==> (b, a) in g.cost && g.cost[(a, b)] == g.cost[(b, a)]
    requires e in g.cost
    ensures var ls := LinksOf(ExtractEdges(g));
      forall i :: 0 <= i < |ls| && Touches(ls[i], e) ==> Writes(ls[i], e) == Some(g.cost[e])
  {
    var ls := LinksOf(ExtractEdges(g));
    forall i | 0 <= i < |ls| && Touches(ls[i], e) ensures Writes(ls[i], e) == Some(g.cost[e]) {
      assert g.keys[i] in g.cost;
    }
  }

  /** The exported edge records can all be stored over the reloaded nodes. */
  lemma ExportUsable(g: Graph)
    requires Valid(g)
    ensures forall m :: m in AddNodes(Empty, ExtractNodes(g)).nbr <==> m in g.nodes
    ensures forall i :: 0 <= i < |ExtractEdges(g)| ==>
      Usable(AddNodes(Empty, ExtractNodes(g)), ExtractEdges(g)[i])
  {
    ExportNodesReload(g);
    forall i | 0 <= i < |g.keys| ensures g.keys[i].0 in g.nodes && g.keys[i].1 in g.nodes {
      assert g.keys[i] in g.cost;
    }
  }

  /** Both ends of every exported key are nodes. */
  lemma ExportEnds(g: Graph, nodes: map<string, Node>)
    requires forall k :: k in g.cost <==> k in g.keys
    requires forall a, b :: (a, b) in g.cost ==> a in g.nodes && b in g.nodes
    requires forall m :: m in nodes <==> m in g.nodes
    ensures forall i :: 0 <= i < |g.keys| ==> g.keys[i].0 in nodes && g.keys[i].1 in nodes
  {
    forall i | 0 <= i < |g.keys| ensures g.keys[i].0 in nodes && g.keys[i].1 in nodes {
      assert g.keys[i] in g.cost;
    }
  }

  /** The exported links join nodes and cost the same both ways. */
  lemma ExportLinkEnds(g: Graph, nodes: map<string, Node>)
    requires forall k :: k in g.cost <==> k in g.keys
    requires forall a, b :: (a, b) in g.cost ==> (b, a) in g.cost && g.cost[(a, b)] == g.cost[(b, a)]
    requires forall i :: 0 <= i < |g.keys| ==> g.keys[i].0 in nodes && g.keys[i].1 in nodes
    ensures var ls := LinksOf(ExtractEdges(g));
      forall i :: 0 <= i < |ls| ==> ls[i].a in nodes && ls[i].b in nodes && ls[i].ab == ls[i].ba
  {
    ExportLinksSymmetric(g);
  }

  /** Each exported link carries the same cost in both directions. */
  lemma ExportLinksSymmetric(g: Graph)
    requires forall k :: k in g.cost <==> k in g.keys
    requires forall a, b :: (a, b) in g.cost ==> (b, a) in g.cost && g.cost[(a, b)] == g.cost[(b, a)]
    ensures var ls := LinksOf(ExtractEdges(g));
      forall i :: 0 <= i < |ls| ==> ls[i].a == g.keys[i].0 && ls[i].b == g.keys[i].1 && ls[i].ab == ls[i].ba
  {
    forall i | 0 <= i < |g.keys| ensures (g.keys[i].1, g.keys[i].0) in g.cost {
      assert g.keys[i] in g.cost;
    }
  }

  /** The exported links, written over an edge-free table, rebuild the edge costs. */
  lemma ExportCostMap(g: Graph, h0: Graph)
    requires forall k :: k in g.cost <==> k in g.keys
    requires forall a, b :: (a, b) in g.cost ==> (b, a) in g.cost && g.cost[(a, b)] == g.cost[(b, a)]
    requires h0.cost == map[]
    requires forall i :: 0 <= i < |g.keys| ==> g.keys[i].0 in h0.nbr && g.keys[i].1 in h0.nbr
    ensures AddLinks(h0, LinksOf(ExtractEdges(g))).cost == g.cost
  {
    var ls := LinksOf(ExtractEdges(g));
    ExportLinksSymmetric(g);
    assert forall i :: 0 <= i < |ls| ==> ls[i].a in h0.nbr && ls[i].b in h0.nbr;
    ExportTouchesAll(g);
    ExportWritesAll(g);
    AddLinksRebuild(h0, ls, g.cost);
  }

  lemma ExportTouchesAll(g: Graph)
    requires forall k :: k in g.cost <==> k in g.keys
    requires forall a, b :: (a, b) in g.cost ==> (b, a) in g.cost
    ensures var ls := LinksOf(ExtractEdges(g));
      forall e :: e in g.cost <==> exists i :: 0 <= i < |ls| && Touches(ls[i], e)
  {
    forall e ensures var ls := LinksOf(ExtractEdges(g)); e in g.cost <==> exists i :: 0 <= i < |ls| && Touches(ls[i], e) {
      ExportTouches(g, e);
    }
  }

  lemma ExportWritesAll(g: Graph)
    requires forall k :: k in g.cost <==> k in g.keys
    requires forall a, b :: (a, b) in g.cost ==> (b, a) in g.cost && g.cost[(a, b)] == g.cost[(b, a)]
    ensures var ls := LinksOf(ExtractEdges(g));
      forall e, i :: e in g.cost && 0 <= i < |ls| && Touches(ls[i], e) ==> Writes(ls[i], e) == Some(g.cost[e])
  {
    forall e | e in g.cost
      ensures var ls := LinksOf(ExtractEdges(g)); forall i :: 0 <= i < |ls| && Touches(ls[i], e) ==> Writes(ls[i], e) == Some(g.cost[e])
    {
      ExportWrites(g, e);
    }
  }

  /**
   * Writing the exported edge records, one per directed key, over the
   * reloaded nodes gives back exactly the edge table: each undirected edge is
   * written twice with the same cost.
   */
  lemma ExportEdgesReload(g: Graph)
    requires Valid(g)
    ensures forall m :: m in AddNodes(Empty, ExtractNodes(g)).nbr <==> m in g.nodes
    ensures var h := AddLinks(AddNodes(Empty, ExtractNodes(g)), LinksOf(ExtractEdges(g)));
      Valid(h) && h.cost == g.cost
  {
    var h0 := AddNodes(Empty, ExtractNodes(g));
    ExportNodesReload(g);
    ExportEnds(g, h0.nodes);
    ExportOnto(g, h0);
  }

  /** The exported links, written over a valid edge-free table holding their end points, rebuild the edge table. */
  lemma ExportOnto(g: Graph, h0: Graph)
    requires forall k :: k in g.cost <==> k in g.keys
    requires forall a, b :: (a, b) in g.cost ==> (b, a) in g.cost && g.cost[(a, b)] == g.cost[(b, a)]
    requires Valid(h0) && h0.cost == map[]
    requires forall i :: 0 <= i < |g.keys| ==> g.keys[i].0 in h0.nodes && g.keys[i].1 in h0.nodes
    ensures var h := AddLinks(h0, LinksOf(ExtractEdges(g)));
      Valid(h) && h.cost == g.cost
  {
    var ls := LinksOf(ExtractEdges(g));
    ExportLinkEnds(g, h0.nodes);
    AddLinksValid(h0, ls);
    ExportCostMap(g, h0);
  }

  /**
   * The hand-over from the generator to the planner: when the exported lines
   * read back as the exported records, `AStar.__init__` succeeds exactly when
   * the roadmap has an edge, and then holds the roadmap's node order,
   * positions and edge table, every node at cost `100`.
   */
  lemma ExportReload(g: Graph, nodeLines: seq<Line<NodeRec>>, edgeLines: seq<Line<EdgeRec>>)
    requires Valid(g)
    requires Records(nodeLines) == Success(ExtractNodes(g)) && Records(edgeLines) == Success(ExtractEdges(g))
    ensures LoadAStar(nodeLines, edgeLines).Success? <==> g.cost != map[]
    ensures LoadAStar(nodeLines, edgeLines).Success? ==>
      var h := LoadAStar(nodeLines, edgeLines).value;
      && h.ids == g.ids && h.cost == g.cost
      && (forall m :: m in h.nodes <==> m in g.nodes)
      && (forall m :: m in g.nodes ==> h.nodes[m] == Node(g.nodes[m].x, g.nodes[m].y, 100.0, 100.0))
  {
    ExportReloadSucceeds(g, nodeLines, edgeLines);
    if LoadAStar(nodeLines, edgeLines).Success? {
      LoadAStarUnfold(nodeLines, edgeLines);
      ExportNodesReload(g);
      ExportEdgesReload(g);
    }
  }

  /** Reading the exported records back fails only on an empty edge table. */
  lemma ExportReloadSucceeds(g: Graph, nodeLines: seq<Line<NodeRec>>, edgeLines: seq<Line<EdgeRec>>)
    requires Valid(g)
    requires Records(nodeLines) == Success(ExtractNodes(g)) && Records(edgeLines) == Success(ExtractEdges(g))
    ensures LoadAStar(nodeLines, edgeLines).Success? <==> g.cost != map[]
  {
    ExportUsable(g);
    EdgesUsableIffUsable(nodeLines, edgeLines);
    LoadAStarUnfold(nodeLines, edgeLines);
    ExportEdgeCount(g);
  }

  /** There is an exported edge record exactly when the edge table is not empty. */
  lemma ExportEdgeCount(g: Graph)
    requires forall k :: k in g.cost <==> k in g.keys
    ensures |ExtractEdges(g)| > 0 <==> g.cost != map[]
  {
    if |g.keys| > 0 {
      assert g.keys[0] in g.cost;
    }
    if g.cost != map[] {
      var e :| e in g.cost;
      assert e in g.keys;
    }
  }
}
