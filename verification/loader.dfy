/**
 * Building the graph tables from node and edge lines: the constructor of
 * `AStar` (and `Initialize` of the module-level revision), which aborts on an
 * edge naming an unknown node, and the constructor of `PrmGen`, which skips
 * such an edge and carries on.
 */
module Loader {
  import opened Wrappers
  import opened Seqs
  import opened Input
  import opened Graphs

  /** A node record as stored: cost so far and tentative total both start at the record's cost. */
  function NodeOf(r: NodeRec): Node {
    Node(r.x, r.y, r.cost, r.cost)
  }

  /** The edge's cost field is a number. */
  predicate Priced(e: EdgeRec) {
    e.cost.Some?
  }

  /** An edge record writes the same cost in both directions. */
  function LinkOf(e: EdgeRec): Link
    requires Priced(e)
  {
    Link(e.a, e.b, e.cost.value, e.cost.value)
  }

  function LinksOf(es: seq<EdgeRec>): (ls: seq<Link>)
    requires forall i :: 0 <= i < |es| ==> Priced(es[i])
    ensures |ls| == |es| && forall i :: 0 <= i < |es| ==> ls[i] == LinkOf(es[i])
  {
    seq(|es|, i requires 0 <= i < |es| => LinkOf(es[i]))
  }

  /** The node loop: each kept line stores its record. */
  function LoadNodeLines(g: Graph, lines: seq<Line<NodeRec>>): (r: Result<Graph, LoadError>)
    // the loop fails exactly where reading the records fails, with the same error
    ensures r.Success? <==> Records(lines).Success?
    ensures r.Failure? ==> Records(lines) == Failure(r.error)
    // it stores nodes only: no node is lost and the edge table is untouched
    ensures r.Success? ==> (forall m :: m in g.nodes ==> m in r.value.nodes) && r.value.cost == g.cost && r.value.keys == g.keys
    decreases |lines|
  {
    if lines == [] then Success(g)
    else match Classify(lines[0])
      case Crash(e) => Failure(e)
      case Skip => LoadNodeLines(g, lines[1..])
      case Keep(r) => LoadNodeLines(AddNode(g, r.id, NodeOf(r)), lines[1..])
  }

  /** The stored records, in order. */
  function AddNodes(g: Graph, rs: seq<NodeRec>): Graph
    decreases |rs|
  {
    if rs == [] then g else AddNodes(AddNode(g, rs[0].id, NodeOf(rs[0])), rs[1..])
  }

  /**
   * The edge loop of `AStar`: an unknown end point aborts the load (the first
   * end point is looked up first), and so does a cost that is not a number.
   */
  function LoadEdgeLinesStrict(g: Graph, lines: seq<Line<EdgeRec>>): (r: Result<Graph, LoadError>)
    ensures r.Success? ==> r.value.nodes == g.nodes && r.value.ids == g.ids && r.value.nbr.Keys == g.nbr.Keys
    ensures r.Success? ==> Records(lines).Success?
    decreases |lines|
  {
    if lines == [] then Success(g)
    else match Classify(lines[0])
      case Crash(e) => Failure(e)
      case Skip => LoadEdgeLinesStrict(g, lines[1..])
      case Keep(e) =>
        if e.a !in g.nbr then Failure(UnknownNode(e.a))
        else if e.b !in g.nbr then Failure(UnknownNode(e.b))
        else if !Priced(e) then Failure(Malformed(lines[0].text))
        else LoadEdgeLinesStrict(AddLink(g, LinkOf(e)), lines[1..])
  }

  /**
   * The edge loop of `PrmGen`: an edge naming an unknown node is reported and
   * skipped, whatever its cost field; a known edge whose cost is not a number
   * aborts the load.
   */
  function LoadEdgeLinesSkipping(g: Graph, lines: seq<Line<EdgeRec>>): (r: Result<Graph, LoadError>)
    ensures r.Success? ==> r.value.nodes == g.nodes && r.value.ids == g.ids && r.value.nbr.Keys == g.nbr.Keys
    ensures r.Success? ==> Records(lines).Success?
    decreases |lines|
  {
    if lines == [] then Success(g)
    else match Classify(lines[0])
      case Crash(e) => Failure(e)
      case Skip => LoadEdgeLinesSkipping(g, lines[1..])
      case Keep(e) =>
        if e.a !in g.nbr || e.b !in g.nbr then LoadEdgeLinesSkipping(g, lines[1..])
        else if !Priced(e) then Failure(Malformed(lines[0].text))
        else LoadEdgeLinesSkipping(AddLink(g, LinkOf(e)), lines[1..])
  }

  /** Both end points of the edge are nodes of `g`. */
  predicate Known(g: Graph, e: EdgeRec) {
    e.a in g.nbr && e.b in g.nbr
  }

  /** The edge can be stored: both end points are nodes and the cost is a number. */
  predicate Usable(g: Graph, e: EdgeRec) {
    Known(g, e) && Priced(e)
  }

  /** Every edge can be stored. */
  predicate AllUsable(g: Graph, es: seq<EdgeRec>) {
    forall i :: 0 <= i < |es| ==> Usable(g, es[i])
  }

  lemma AllUsableCons(g: Graph, e: EdgeRec, es: seq<EdgeRec>)
    ensures AllUsable(g, [e] + es) <==> Usable(g, e) && AllUsable(g, es)
  {
    var all := [e] + es;
    if AllUsable(g, all) {
      assert Usable(g, all[0]);
      forall i | 0 <= i < |es| ensures Usable(g, es[i]) { assert all[i + 1] == es[i]; }
    }
    if Usable(g, e) && AllUsable(g, es) {
      forall i | 0 <= i < |all| ensures Usable(g, all[i]) {
        if i > 0 { assert all[i] == es[i - 1]; }
      }
    }
  }

  lemma KnownPricedCons(g: Graph, e: EdgeRec, es: seq<EdgeRec>)
    ensures KnownPriced(g, [e] + es) <==> (Known(g, e) ==> Priced(e)) && KnownPriced(g, es)
  {
    var all := [e] + es;
    if KnownPriced(g, all) {
      assert Known(g, all[0]) ==> Priced(all[0]);
      forall i | 0 <= i < |es| && Known(g, es[i]) ensures Priced(es[i]) { assert all[i + 1] == es[i]; }
    }
    if (Known(g, e) ==> Priced(e)) && KnownPriced(g, es) {
      forall i | 0 <= i < |all| && Known(g, all[i]) ensures Priced(all[i]) {
        if i > 0 { assert all[i] == es[i - 1]; }
      }
    }
  }

  /** Every edge with known end points has a numeric cost. */
  predicate KnownPriced(g: Graph, es: seq<EdgeRec>) {
    forall i :: 0 <= i < |es| ==> Known(g, es[i]) ==> Priced(es[i])
  }

  /** The edges whose end points are both known, in order. */
  function KnownOnly(g: Graph, es: seq<EdgeRec>): (r: seq<EdgeRec>)
    ensures forall e :: e in r <==> e in es && Known(g, e)
    ensures forall i :: 0 <= i < |r| ==> Known(g, r[i])
    ensures KnownPriced(g, es) ==> forall i :: 0 <= i < |r| ==> Priced(r[i])
    decreases |es|
  {
    if es == [] then []
    else
      assert KnownPriced(g, es) ==> KnownPriced(g, es[1..]);
      if Known(g, es[0]) then [es[0]] + KnownOnly(g, es[1..])
      else KnownOnly(g, es[1..])
  }

  /**
   * The kept edges stay in file order: one more edge line at the end of the
   * file adds its edge at the end of the kept ones exactly when it is known.
   */
  lemma {:induction false} KnownOnlySnoc(g: Graph, es: seq<EdgeRec>, e: EdgeRec)
    ensures KnownOnly(g, []) == []
    ensures KnownOnly(g, es + [e]) == KnownOnly(g, es) + (if Known(g, e) then [e] else [])
    decreases |es|
  {
    if es == [] {
      assert es + [e] == [e];
      assert [e][1..] == [];
    } else {
      assert (es + [e])[0] == es[0];
      assert (es + [e])[1..] == es[1..] + [e];
      KnownOnlySnoc(g, es[1..], e);
    }
  }

  /** `AStar.__init__` / `Initialize`: nodes first, then edges; an empty edge table fails the average. */
  function LoadAStar(nodeLines: seq<Line<NodeRec>>, edgeLines: seq<Line<EdgeRec>>): (r: Result<Graph, LoadError>)
    // a crashing node line aborts before any edge line is read
    ensures Records(nodeLines).Failure? ==> r == Failure(Records(nodeLines).error)
    // a loaded table came from lines that all read, and has an edge
    ensures r.Success? ==> Records(nodeLines).Success? && Records(edgeLines).Success? && r.value.cost != map[]
  {
    match LoadNodeLines(Empty, nodeLines)
    case Failure(e) => Failure(e)
    case Success(g) =>
      match LoadEdgeLinesStrict(g, edgeLines)
      case Failure(e) => Failure(e)
      case Success(h) => if h.cost == map[] then Failure(NoEdges) else Success(h)
  }

  //-------------------------------------------------------------------------
  // The single-pass loaders are the two-stage reading: records, then stores.

  lemma {:induction false} LoadNodeLinesIsAddNodes(g: Graph, lines: seq<Line<NodeRec>>)
    ensures LoadNodeLines(g, lines) ==
      match Records(lines)
      case Failure(e) => Failure(e)
      case Success(rs) => Success(AddNodes(g, rs))
    decreases |lines|
  {
    if lines != [] {
      match Classify(lines[0])
      case Crash(e) =>
      case Skip => LoadNodeLinesIsAddNodes(g, lines[1..]);
      case Keep(r) =>
        LoadNodeLinesIsAddNodes(AddNode(g, r.id, NodeOf(r)), lines[1..]);
        match Records(lines[1..])
        case Failure(e) =>
        case Success(rs) => assert ([r] + rs)[1..] == rs;
    }
  }

  lemma {:induction false} StrictIsAddLinks(g: Graph, lines: seq<Line<EdgeRec>>)
    ensures LoadEdgeLinesStrict(g, lines).Success? <==>
      Records(lines).Success? && AllUsable(g, Records(lines).value)
    ensures LoadEdgeLinesStrict(g, lines).Success? ==>
      LoadEdgeLinesStrict(g, lines).value == AddLinks(g, LinksOf(Records(lines).value))
    decreases |lines|
  {
    if lines != [] {
      match Classify(lines[0])
      case Crash(e) =>
      case Skip => StrictIsAddLinks(g, lines[1..]);
      case Keep(e) =>
        if Usable(g, e) {
          StrictIsAddLinks(AddLink(g, LinkOf(e)), lines[1..]);
          StrictKeep(g, lines, e);
        } else {
          match Records(lines[1..])
          case Failure(err) =>
          case Success(es) => AllUsableCons(g, e, es);
        }
    }
  }

  /** A stored edge line: the rest of the run, read on the tables with its link, settles the whole run. */
  lemma StrictKeep(g: Graph, lines: seq<Line<EdgeRec>>, e: EdgeRec)
    requires lines != [] && Classify(lines[0]) == Keep(e) && Usable(g, e)
    requires var g1 := AddLink(g, LinkOf(e));
      && (LoadEdgeLinesStrict(g1, lines[1..]).Success? <==>
            Records(lines[1..]).Success? && AllUsable(g1, Records(lines[1..]).value))
      && (LoadEdgeLinesStrict(g1, lines[1..]).Success? ==>
            LoadEdgeLinesStrict(g1, lines[1..]).value == AddLinks(g1, LinksOf(Records(lines[1..]).value)))
    ensures LoadEdgeLinesStrict(g, lines).Success? <==>
      Records(lines).Success? && AllUsable(g, Records(lines).value)
    ensures LoadEdgeLinesStrict(g, lines).Success? ==>
      LoadEdgeLinesStrict(g, lines).value == AddLinks(g, LinksOf(Records(lines).value))
  {
    var g1 := AddLink(g, LinkOf(e));
    assert forall x :: Known(g1, x) <==> Known(g, x);
    match Records(lines[1..])
    case Failure(err) =>
    case Success(es) =>
      AllUsableCons(g, e, es);
      assert AllUsable(g1, es) <==> AllUsable(g, es);

  }

  lemma {:induction false} SkippingIsAddLinks(g: Graph, lines: seq<Line<EdgeRec>>)
    ensures LoadEdgeLinesSkipping(g, lines).Success? <==>
      Records(lines).Success? && KnownPriced(g, Records(lines).value)
    ensures LoadEdgeLinesSkipping(g, lines).Success? ==>
      LoadEdgeLinesSkipping(g, lines).value == AddLinks(g, LinksOf(KnownOnly(g, Records(lines).value)))
    decreases |lines|
  {
    if lines != [] {
      match Classify(lines[0])
      case Crash(e) =>
      case Skip => SkippingIsAddLinks(g, lines[1..]);
      case Keep(e) =>
        if Usable(g, e) {
          SkippingIsAddLinks(AddLink(g, LinkOf(e)), lines[1..]);
          SkippingKeep(g, lines, e);
        } else if Known(g, e) {
          match Records(lines[1..])
          case Failure(err) =>
          case Success(es) => KnownPricedCons(g, e, es);
        } else {
          SkippingIsAddLinks(g, lines[1..]);
          match Records(lines[1..])
          case Failure(err) =>
          case Success(es) =>
            KnownPricedCons(g, e, es);
            assert ([e] + es)[1..] == es;
        }
    }
  }

  /** A stored edge line in the skipping loop: the rest of the run, read on the tables with its link, settles the whole run. */
  lemma SkippingKeep(g: Graph, lines: seq<Line<EdgeRec>>, e: EdgeRec)
    requires lines != [] && Classify(lines[0]) == Keep(e) && Usable(g, e)
    requires var g1 := AddLink(g, LinkOf(e));
      && (LoadEdgeLinesSkipping(g1, lines[1..]).Success? <==>
            Records(lines[1..]).Success? && KnownPriced(g1, Records(lines[1..]).value))
      && (LoadEdgeLinesSkipping(g1, lines[1..]).Success? ==>
            LoadEdgeLinesSkipping(g1, lines[1..]).value == AddLinks(g1, LinksOf(KnownOnly(g1, Records(lines[1..]).value))))
    ensures LoadEdgeLinesSkipping(g, lines).Success? <==>
      Records(lines).Success? && KnownPriced(g, Records(lines).value)
    ensures LoadEdgeLinesSkipping(g, lines).Success? ==>
      LoadEdgeLinesSkipping(g, lines).value == AddLinks(g, LinksOf(KnownOnly(g, Records(lines).value)))
  {
    var g1 := AddLink(g, LinkOf(e));
    assert forall x :: Known(g1, x) <==> Known(g, x);
    match Records(lines[1..])
    case Failure(err) =>
    case Success(es) =>
      KnownOnlySameNodes(g, g1, es);
      KnownPricedCons(g, e, es);
  }

  lemma {:induction false} KnownOnlySameNodes(g: Graph, h: Graph, es: seq<EdgeRec>)
    requires g.nbr.Keys == h.nbr.Keys
    ensures KnownOnly(g, es) == KnownOnly(h, es)
    decreases |es|
  {
    if es != [] { KnownOnlySameNodes(g, h, es[1..]); }
  }
}

module LoaderSpec {
  import opened Wrappers
  import opened Seqs
  import opened Input
  import opened Graphs
  import opened Loader

  /** The last record for `id`, if any: later lines overwrite earlier ones. */
  function LastRec(rs: seq<NodeRec>, id: string): Option<NodeRec>
    decreases |rs|
  {
    if rs == [] then None
    else match LastRec(rs[1..], id)
      case Some(r) => Some(r)
      case None => if rs[0].id == id then Some(rs[0]) else None
  }

  lemma LastRecSome(rs: seq<NodeRec>, id: string)
    ensures LastRec(rs, id).Some? <==> exists i :: 0 <= i < |rs| && rs[i].id == id
    ensures LastRec(rs, id).Some? ==> LastRec(rs, id).value in rs && LastRec(rs, id).value.id == id
    decreases |rs|
  {
    if rs != [] {
      LastRecSome(rs[1..], id);
      if exists i :: 0 <= i < |rs| && rs[i].id == id {
        var i :| 0 <= i < |rs| && rs[i].id == id;
        if i > 0 { assert rs[1..][i - 1].id == id; }
      }
      if exists i :: 0 <= i < |rs[1..]| && rs[1..][i].id == id {
        var i :| 0 <= i < |rs[1..]| && rs[1..][i].id == id;
        assert rs[i + 1].id == id;
      }
    }
  }

  /** Node records on tables without edges keep the tables valid and edge-free. */
  lemma {:induction false} AddNodesValid(g: Graph, rs: seq<NodeRec>)
    requires Valid(g) && g.cost == map[] && forall m :: m in g.nbr ==> g.nbr[m] == []
    ensures Valid(AddNodes(g, rs)) && AddNodes(g, rs).cost == map[]
    ensures forall m :: m in AddNodes(g, rs).nbr ==> AddNodes(g, rs).nbr[m] == []
    decreases |rs|
  {
    if rs != [] {
      var r := rs[0];
      AddNodeValid(g, r.id, NodeOf(r));
      AddNodesValid(AddNode(g, r.id, NodeOf(r)), rs[1..]);
    }
  }

  /**
   * After storing node records, a node exists exactly when it existed before or
   * some record names it; it then holds its last record, with cost so far and
   * tentative total equal to the record's cost, and is unvisited with an empty
   * neighbour list.
   */
  lemma AddNodesTable(g: Graph, rs: seq<NodeRec>)
    ensures forall m :: m in AddNodes(g, rs).nodes <==> m in g.nodes || LastRec(rs, m).Some?
    ensures forall m :: LastRec(rs, m).Some? ==>
      && m in AddNodes(g, rs).nodes && AddNodes(g, rs).nodes[m] == NodeOf(LastRec(rs, m).value)
      && m in AddNodes(g, rs).stat && AddNodes(g, rs).stat[m] == Unvisited
      && m in AddNodes(g, rs).nbr && AddNodes(g, rs).nbr[m] == []
    ensures forall m :: LastRec(rs, m).None? ==>
      && (m in g.nodes ==> AddNodes(g, rs).nodes[m] == g.nodes[m])
      && (m in g.stat <==> m in AddNodes(g, rs).stat)
      && (m in g.stat ==> AddNodes(g, rs).stat[m] == g.stat[m])
      && (m in g.nbr <==> m in AddNodes(g, rs).nbr)
      && (m in g.nbr ==> AddNodes(g, rs).nbr[m] == g.nbr[m])
  {
    var r := AddNodes(g, rs);
    forall m ensures m in r.nodes <==> m in g.nodes || LastRec(rs, m).Some? {
      AddNodesAtHolds(g, rs, m);
    }
    forall m | LastRec(rs, m).Some?
      ensures && m in r.nodes && r.nodes[m] == NodeOf(LastRec(rs, m).value)
              && m in r.stat && r.stat[m] == Unvisited
              && m in r.nbr && r.nbr[m] == []
    {
      AddNodesAtHolds(g, rs, m);
    }
    forall m | LastRec(rs, m).None?
      ensures && (m in g.nodes ==> m in r.nodes && r.nodes[m] == g.nodes[m])
              && (m in g.stat <==> m in r.stat)
              && (m in g.stat ==> m in r.stat && r.stat[m] == g.stat[m])
              && (m in g.nbr <==> m in r.nbr)
              && (m in g.nbr ==> m in r.nbr && r.nbr[m] == g.nbr[m])
    {
      AddNodesAtHolds(g, rs, m);
    }
  }

  /** What the node records leave under one name `m`. */
  ghost predicate AddNodesAt(g: Graph, rs: seq<NodeRec>, m: string) {
    var r := AddNodes(g, rs);
    && (m in r.nodes <==> m in g.nodes || LastRec(rs, m).Some?)
    && (LastRec(rs, m).Some? ==>
          && m in r.nodes && r.nodes[m] == NodeOf(LastRec(rs, m).value)
          && m in r.stat && r.stat[m] == Unvisited
          && m in r.nbr && r.nbr[m] == [])
    && (LastRec(rs, m).None? ==>
          && (m in g.nodes ==> r.nodes[m] == g.nodes[m])
          && (m in g.stat <==> m in r.stat)
          && (m in g.stat ==> r.stat[m] == g.stat[m])
          && (m in g.nbr <==> m in r.nbr)
          && (m in g.nbr ==> r.nbr[m] == g.nbr[m]))
  }

  lemma {:induction false} AddNodesAtHolds(g: Graph, rs: seq<NodeRec>, m: string)
    ensures AddNodesAt(g, rs, m)
    decreases |rs|
  {
    if rs != [] {
      var g1 := AddNode(g, rs[0].id, NodeOf(rs[0]));
      assert AddNodes(g, rs) == AddNodes(g1, rs[1..]);
      AddNodesAtHolds(g1, rs[1..], m);
    }
  }

  /** Records with distinct ids, none of them a node yet, append their ids to the node order in record order. */
  lemma {:induction false} AddNodesOrder(g: Graph, rs: seq<NodeRec>)
    requires forall i, j :: 0 <= i < j < |rs| ==> rs[i].id != rs[j].id
    requires forall i :: 0 <= i < |rs| ==> rs[i].id !in g.nodes
    ensures var r := AddNodes(g, rs);
      && |r.ids| == |g.ids| + |rs|
      && (forall i :: 0 <= i < |g.ids| ==> r.ids[i] == g.ids[i])
      && (forall i :: 0 <= i < |rs| ==> r.ids[|g.ids| + i] == rs[i].id)
    decreases |rs|
  {
    if rs != [] {
      var g1 := AddNode(g, rs[0].id, NodeOf(rs[0]));
      var t := rs[1..];
      forall i | 0 <= i < |t| ensures t[i].id !in g1.nodes {
        assert t[i] == rs[i + 1];
      }
      forall i, j | 0 <= i < j < |t| ensures t[i].id != t[j].id {
        assert t[i] == rs[i + 1] && t[j] == rs[j + 1];
      }
      AddNodesOrder(g1, t);
      var r := AddNodes(g, rs);
      assert r == AddNodes(g1, t);
      forall i | 0 < i < |rs| ensures r.ids[|g.ids| + i] == rs[i].id {
        assert r.ids[|g1.ids| + (i - 1)] == t[i - 1].id;
      }
    }
  }

  /** An id is stored by some record. */
  predicate HasId(rs: seq<NodeRec>, id: string) {
    exists i :: 0 <= i < |rs| && rs[i].id == id
  }

  /** The node table a run of node records produces from empty tables: one node per id, from its last record. */
  lemma NodesTable(rs: seq<NodeRec>)
    ensures var g := AddNodes(Empty, rs);
      && Valid(g) && g.cost == map[]
      && (forall m :: m in g.nodes <==> HasId(rs, m))
      && (forall m :: m in g.nodes ==> LastRec(rs, m).Some? && g.nodes[m] == NodeOf(LastRec(rs, m).value))
      && (forall m :: m in g.nodes ==> g.stat[m] == Unvisited)
  {
    AddNodesValid(Empty, rs);
    AddNodesTable(Empty, rs);
    forall m ensures LastRec(rs, m).Some? <==> HasId(rs, m) { LastRecSome(rs, m); }
  }

  /** The node table a run of node lines produces from empty tables, when no line crashes. */
  lemma NodeLinesTable(nodeLines: seq<Line<NodeRec>>)
    requires Records(nodeLines).Success?
    ensures LoadNodeLines(Empty, nodeLines) == Success(AddNodes(Empty, Records(nodeLines).value))
    ensures var g := AddNodes(Empty, Records(nodeLines).value);
      var rs := Records(nodeLines).value;
      && Valid(g) && g.cost == map[]
      && (forall m :: m in g.nodes <==> HasId(rs, m))
      && (forall m :: m in g.nodes ==> LastRec(rs, m).Some? && g.nodes[m] == NodeOf(LastRec(rs, m).value))
      && (forall m :: m in g.nodes ==> g.stat[m] == Unvisited)
  {
    LoadNodeLinesIsAddNodes(Empty, nodeLines);
    NodesTable(Records(nodeLines).value);
  }

  /** The edge table a run of links leaves on edge-free tables. */
  lemma LinksTable(g: Graph, ls: seq<Link>)
    requires Valid(g) && g.cost == map[]
    requires forall i :: 0 <= i < |ls| ==> ls[i].a in g.nodes && ls[i].b in g.nodes && ls[i].ab == ls[i].ba
    ensures var h := AddLinks(g, ls);
      && Valid(h)
      && (forall e :: e in h.cost <==> LastWrite(ls, e).Some?)
      && (forall e :: e in h.cost ==> h.cost[e] == LastWrite(ls, e).value)
      && (h.cost == map[] <==> ls == [])
  {
    AddLinksCost(g, ls);
    AddLinksValid(g, ls);
    if ls != [] {
      LastWriteTouches(ls, (ls[0].a, ls[0].b));
      assert (ls[0].a, ls[0].b) in AddLinks(g, ls).cost;
    }
  }

  /** The edge records of the edge lines name only nodes of the node lines and have numeric costs. */
  ghost predicate EdgesUsable(nodeLines: seq<Line<NodeRec>>, edgeLines: seq<Line<EdgeRec>>)
    requires Records(nodeLines).Success? && Records(edgeLines).Success?
  {
    var rs := Records(nodeLines).value;
    var es := Records(edgeLines).value;
    forall i :: 0 <= i < |es| ==> HasId(rs, es[i].a) && HasId(rs, es[i].b) && Priced(es[i])
  }

  /** An edge is known to the stored node table exactly when both its end points have records. */
  lemma KnownIffHasId(rs: seq<NodeRec>)
    ensures forall e :: Known(AddNodes(Empty, rs), e) <==> HasId(rs, e.a) && HasId(rs, e.b)
  {
    AddNodesTable(Empty, rs);
    forall m ensures LastRec(rs, m).Some? <==> HasId(rs, m) { LastRecSome(rs, m); }
  }

  /** Some link was applied exactly when the edge table is no longer empty. */
  lemma AddLinksNonEmpty(g: Graph, ls: seq<Link>)
    requires g.cost == map[]
    requires forall i :: 0 <= i < |ls| ==> ls[i].a in g.nbr && ls[i].b in g.nbr
    ensures AddLinks(g, ls).cost == map[] <==> ls == []
  {
    AddLinksCost(g, ls);
    if ls != [] {
      LastWriteTouches(ls, (ls[0].a, ls[0].b));
      assert (ls[0].a, ls[0].b) in AddLinks(g, ls).cost;
    }
  }

  /** A successful load is the node stores followed by the writes of every edge record, of which there is one at least. */
  lemma LoadAStarStaged(nodeLines: seq<Line<NodeRec>>, edgeLines: seq<Line<EdgeRec>>)
    requires Records(nodeLines).Success? && Records(edgeLines).Success?
    requires LoadAStar(nodeLines, edgeLines).Success?
    ensures var g := AddNodes(Empty, Records(nodeLines).value);
      var es := Records(edgeLines).value;
      && AllUsable(g, es) && |es| > 0
      && LoadAStar(nodeLines, edgeLines).value == AddLinks(g, LinksOf(es))
  {
    var g := AddNodes(Empty, Records(nodeLines).value);
    LoadNodeLinesIsAddNodes(Empty, nodeLines);
    StrictIsAddLinks(g, edgeLines);
  }

  /** Known end points and at least one edge record make the load succeed. */
  lemma LoadAStarSucceeds(nodeLines: seq<Line<NodeRec>>, edgeLines: seq<Line<EdgeRec>>)
    requires Records(nodeLines).Success? && Records(edgeLines).Success?
    requires var g := AddNodes(Empty, Records(nodeLines).value);
      var es := Records(edgeLines).value;
      AllUsable(g, es) && |es| > 0
    ensures LoadAStar(nodeLines, edgeLines).Success?
  {
    var g := AddNodes(Empty, Records(nodeLines).value);
    var es := Records(edgeLines).value;
    LoadNodeLinesIsAddNodes(Empty, nodeLines);
    assert LoadNodeLines(Empty, nodeLines) == Success(g);
    StrictIsAddLinks(g, edgeLines);
    var h := AddLinks(g, LinksOf(es));
    assert LoadEdgeLinesStrict(g, edgeLines) == Success(h);
    AddNodesValid(Empty, Records(nodeLines).value);
    AddLinksNonEmpty(g, LinksOf(es));
    assert h.cost != map[];
  }

  /** Given both record runs, the edges can be stored exactly when every end point has a record and every cost is a number. */
  lemma EdgesUsableIffUsable(nodeLines: seq<Line<NodeRec>>, edgeLines: seq<Line<EdgeRec>>)
    requires Records(nodeLines).Success? && Records(edgeLines).Success?
    ensures var g := AddNodes(Empty, Records(nodeLines).value);
      EdgesUsable(nodeLines, edgeLines) <==> AllUsable(g, Records(edgeLines).value)
  {
    KnownIffHasId(Records(nodeLines).value);
  }

  /** A crashing line in either run fails the load. */
  lemma LoadAStarCrash(nodeLines: seq<Line<NodeRec>>, edgeLines: seq<Line<EdgeRec>>)
    requires Records(nodeLines).Failure? || Records(edgeLines).Failure?
    ensures LoadAStar(nodeLines, edgeLines).Failure?
  {
    LoadNodeLinesIsAddNodes(Empty, nodeLines);
    if Records(nodeLines).Success? {
      StrictIsAddLinks(AddNodes(Empty, Records(nodeLines).value), edgeLines);
    }
  }

  /** `AStar.__init__` is the node stores followed by the edge writes, failing on an edge-free table. */
  lemma LoadAStarUnfold(nodeLines: seq<Line<NodeRec>>, edgeLines: seq<Line<EdgeRec>>)
    ensures LoadAStar(nodeLines, edgeLines).Success? <==>
      && Records(nodeLines).Success? && Records(edgeLines).Success?
      && EdgesUsable(nodeLines, edgeLines) && |Records(edgeLines).value| > 0
    ensures LoadAStar(nodeLines, edgeLines).Success? ==>
      && Records(nodeLines).Success? && Records(edgeLines).Success?
      && var g := AddNodes(Empty, Records(nodeLines).value);
         var es := Records(edgeLines).value;
         && AllUsable(g, es)
         && LoadAStar(nodeLines, edgeLines).value == AddLinks(g, LinksOf(es))
  {
    if Records(nodeLines).Success? && Records(edgeLines).Success? {
      EdgesUsableIffUsable(nodeLines, edgeLines);
      if LoadAStar(nodeLines, edgeLines).Success? {
        LoadAStarStaged(nodeLines, edgeLines);
      } else if EdgesUsable(nodeLines, edgeLines) && |Records(edgeLines).value| > 0 {
        LoadAStarSucceeds(nodeLines, edgeLines);
      }
    } else {
      LoadAStarCrash(nodeLines, edgeLines);
    }
  }

  /**
   * `AStar.__init__` / `Initialize`. The load succeeds exactly when no line
   * crashes, every edge names two loaded nodes and at least one edge is kept.
   * Then the tables are valid; the nodes are those of the node lines, each from
   * its last record, unvisited, with cost so far and tentative total equal to
   * the record's cost; a directed cost `a:b` exists exactly when some edge line
   * joins `a` and `b`, and holds the cost of the last such line.
   */
  lemma LoadAStarSpec(nodeLines: seq<Line<NodeRec>>, edgeLines: seq<Line<EdgeRec>>)
    ensures LoadAStar(nodeLines, edgeLines).Success? <==>
      && Records(nodeLines).Success? && Records(edgeLines).Success?
      && EdgesUsable(nodeLines, edgeLines) && |Records(edgeLines).value| > 0
    ensures LoadAStar(nodeLines, edgeLines).Success? ==>
      var g := LoadAStar(nodeLines, edgeLines).value;
      var rs := Records(nodeLines).value;
      var ls := LinksOf(Records(edgeLines).value);
      && Valid(g)
      && (forall m :: m in g.nodes <==> HasId(rs, m))
      && (forall m :: m in g.nodes ==> LastRec(rs, m).Some? && g.nodes[m] == NodeOf(LastRec(rs, m).value))
      && (forall m :: m in g.nodes ==> g.stat[m] == Unvisited && g.nodes[m].cost == g.nodes[m].tent)
      && (forall e :: e in g.cost <==> LastWrite(ls, e).Some?)
      && (forall e :: e in g.cost ==> g.cost[e] == LastWrite(ls, e).value)
  {
    LoadAStarUnfold(nodeLines, edgeLines);
    if LoadAStar(nodeLines, edgeLines).Success? {
      AStarTables(Records(nodeLines).value, Records(edgeLines).value);
    }
  }

  /** The tables the node records and the usable edge records build. */
  lemma AStarTables(rs: seq<NodeRec>, es: seq<EdgeRec>)
    requires AllUsable(AddNodes(Empty, rs), es)
    ensures var ls := LinksOf(es);
      var g := AddLinks(AddNodes(Empty, rs), ls);
      && Valid(g)
      && (forall m :: m in g.nodes <==> HasId(rs, m))
      && (forall m :: m in g.nodes ==> LastRec(rs, m).Some? && g.nodes[m] == NodeOf(LastRec(rs, m).value))
      && (forall m :: m in g.nodes ==> g.stat[m] == Unvisited && g.nodes[m].cost == g.nodes[m].tent)
      && (forall e :: e in g.cost <==> LastWrite(ls, e).Some?)
      && (forall e :: e in g.cost ==> g.cost[e] == LastWrite(ls, e).value)
  {
    var g0 := AddNodes(Empty, rs);
    var ls := LinksOf(es);
    NodesTable(rs);
    assert forall i :: 0 <= i < |ls| ==> ls[i].a in g0.nodes && ls[i].b in g0.nodes && ls[i].ab == ls[i].ba;
    LinksTable(g0, ls);
  }
}
