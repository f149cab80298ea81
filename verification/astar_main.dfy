/**
 * The demonstration script of the engine: six nodes, nine edges, and the
 * search from node `1` to node `6`. The square roots the heuristic needs are
 * fixed to three decimals; the start's own heuristic is never computed, since
 * the start keeps its loaded totals.
 */
module AStarMain {
  import opened Wrappers
  import opened Seqs
  import opened Input
  import opened Graphs
  import opened Loader
  import opened LoaderSpec
  import opened OpenList
  import opened Parents
  import opened SearchOps
  import opened SearchInv
  import opened Search
  import opened SearchSpec

  /** `nodetxt`: a comment line, then `id,x,y,cost` for six nodes of cost zero. */
  const NodeLines: seq<Line<NodeRec>> := [
    Line("#" + " Each line is of the form 'node,cost_to_go,heuristic_cost", None),
    Line("1,0,0,0", Some(NodeRec("1", 0.0, 0.0, 0.0))),
    Line("2,12,4,0", Some(NodeRec("2", 12.0, 4.0, 0.0))),
    Line("3,10,2,0", Some(NodeRec("3", 10.0, 2.0, 0.0))),
    Line("4,10,-2,0", Some(NodeRec("4", 10.0, -2.0, 0.0))),
    Line("5,12,-4,0", Some(NodeRec("5", 12.0, -4.0, 0.0))),
    Line("6,20,0,0", Some(NodeRec("6", 20.0, 0.0, 0.0)))]

  /** `edgetxt`: a comment line, then `n1,n2,cost` for nine edges. */
  const EdgeLines: seq<Line<EdgeRec>> := [
    Line("#" + " Each line is of the form 'node1,node2,cost'", Some(EdgeRec("# Each line is of the form 'node1", "node2", None))),
    Line("1,3,18", Some(EdgeRec("1", "3", Some(18.0)))),
    Line("1,4,12", Some(EdgeRec("1", "4", Some(12.0)))),
    Line("1,5,30", Some(EdgeRec("1", "5", Some(30.0)))),
    Line("3,2,27", Some(EdgeRec("3", "2", Some(27.0)))),
    Line("3,6,15", Some(EdgeRec("3", "6", Some(15.0)))),
    Line("4,6,20", Some(EdgeRec("4", "6", Some(20.0)))),
    Line("4,5,8", Some(EdgeRec("4", "5", Some(8.0)))),
    Line("2,6,10", Some(EdgeRec("2", "6", Some(10.0)))),
    Line("5,6,10", Some(EdgeRec("5", "6", Some(10.0))))]

  const Nodes: map<string, Node> := map[
    "1" := Node(0.0, 0.0, 0.0, 0.0), "2" := Node(12.0, 4.0, 0.0, 0.0),
    "3" := Node(10.0, 2.0, 0.0, 0.0), "4" := Node(10.0, -2.0, 0.0, 0.0),
    "5" := Node(12.0, -4.0, 0.0, 0.0), "6" := Node(20.0, 0.0, 0.0, 0.0)]

  const Unseen: map<string, Status> := map[
    "1" := Unvisited, "2" := Unvisited, "3" := Unvisited,
    "4" := Unvisited, "5" := Unvisited, "6" := Unvisited]

  /** The tables after the node loop. */
  const NodesOnly: Graph := Graph(["1", "2", "3", "4", "5", "6"], Nodes, Unseen,
    map["1" := [], "2" := [], "3" := [], "4" := [], "5" := [], "6" := []], [], map[])

  /** The neighbour lists after the edge loop, in the order the edge lines append them. */
  const Nbr: map<string, seq<string>> := map[
    "1" := ["3", "4", "5"], "2" := ["3", "6"], "3" := ["1", "2", "6"],
    "4" := ["1", "6", "5"], "5" := ["1", "4", "6"], "6" := ["3", "4", "2", "5"]]

  /** The directed edge costs after the edge loop. */
  const Cost: map<(string, string), real> := map[
    ("1", "3") := 18.0, ("3", "1") := 18.0, ("1", "4") := 12.0, ("4", "1") := 12.0,
    ("1", "5") := 30.0, ("5", "1") := 30.0, ("3", "2") := 27.0, ("2", "3") := 27.0,
    ("3", "6") := 15.0, ("6", "3") := 15.0, ("4", "6") := 20.0, ("6", "4") := 20.0,
    ("4", "5") := 8.0, ("5", "4") := 8.0, ("2", "6") := 10.0, ("6", "2") := 10.0,
    ("5", "6") := 10.0, ("6", "5") := 10.0]

  /** The tables the search reads, as the script's lines leave them. */
  predicate Loaded(gr: Graph) {
    gr.nodes == Nodes && gr.stat == Unseen && gr.nbr == Nbr && gr.cost == Cost
  }

  /** The square roots of the squared distances to node `6` that the search takes. */
  predicate Roots(root: real -> real) {
    root(0.0) == 0.0 && root(80.0) == 8.944 && root(104.0) == 10.198
  }

  //-------------------------------------------------------------------------
  // Loading

  /** The node records of the script, in file order. */
  const NodeRecs: seq<NodeRec> := [
    NodeRec("1", 0.0, 0.0, 0.0), NodeRec("2", 12.0, 4.0, 0.0), NodeRec("3", 10.0, 2.0, 0.0),
    NodeRec("4", 10.0, -2.0, 0.0), NodeRec("5", 12.0, -4.0, 0.0), NodeRec("6", 20.0, 0.0, 0.0)]

  /** The edge records of the script, in file order. */
  const EdgeRecs: seq<EdgeRec> := [
    EdgeRec("1", "3", Some(18.0)), EdgeRec("1", "4", Some(12.0)), EdgeRec("1", "5", Some(30.0)),
    EdgeRec("3", "2", Some(27.0)), EdgeRec("3", "6", Some(15.0)), EdgeRec("4", "6", Some(20.0)),
    EdgeRec("4", "5", Some(8.0)), EdgeRec("2", "6", Some(10.0)), EdgeRec("5", "6", Some(10.0))]

  /** A kept line puts its record in front of those of the lines after it. */
  lemma RecordsKept<R>(lines: seq<Line<R>>, k: nat, r: R, rest: seq<R>)
    requires k < |lines| && Classify(lines[k]) == Keep(r) && Records(lines[k + 1..]) == Success(rest)
    ensures Records(lines[k..]) == Success([r] + rest)
  {
    assert lines[k..][0] == lines[k] && lines[k..][1..] == lines[k + 1..];
  }

  /** The lines after a leading comment, each kept, read as the given records. */
  lemma {:induction false} RecordsAfterComment<R>(lines: seq<Line<R>>, rs: seq<R>)
    requires |lines| == |rs| + 1 && Classify(lines[0]).Skip?
    requires forall k :: 1 <= k < |lines| ==> Classify(lines[k]) == Keep(rs[k - 1])
    ensures Records(lines) == Success(rs)
  {
    var k := |lines|;
    assert lines[k..] == [] && rs[k - 1..] == [];
    while k > 1
      invariant 1 <= k <= |lines|
      invariant Records(lines[k..]) == Success(rs[k - 1..])
    {
      RecordsKept(lines, k - 1, rs[k - 2], rs[k - 1..]);
      assert [rs[k - 2]] + rs[k - 1..] == rs[k - 2..];
      k := k - 1;
    }
    assert rs[0..] == rs;
  }

  lemma NodeRecords()
    ensures Records(NodeLines) == Success(NodeRecs)
  {
    assert NodeLines[0].text[0] == '#';
    RecordsAfterComment(NodeLines, NodeRecs);
  }

  lemma EdgeRecords()
    ensures Records(EdgeLines) == Success(EdgeRecs)
  {
    assert EdgeLines[0].text[0] == '#';
    RecordsAfterComment(EdgeLines, EdgeRecs);
  }

  lemma NodesStored()
    ensures AddNodes(Empty, NodeRecs) == NodesOnly
  {
    var rs := NodeRecs;
    var g1 := AddNode(Empty, "1", NodeOf(rs[0]));
    var g2 := AddNode(g1, "2", NodeOf(rs[1]));
    var g3 := AddNode(g2, "3", NodeOf(rs[2]));
    var g4 := AddNode(g3, "4", NodeOf(rs[3]));
    var g5 := AddNode(g4, "5", NodeOf(rs[4]));
    var g6 := AddNode(g5, "6", NodeOf(rs[5]));
    assert AddNodes(Empty, rs) == AddNodes(g1, rs[1..]);
    assert AddNodes(g1, rs[1..]) == AddNodes(g2, rs[2..]);
    assert AddNodes(g2, rs[2..]) == AddNodes(g3, rs[3..]);
    assert AddNodes(g3, rs[3..]) == AddNodes(g4, rs[4..]);
    assert AddNodes(g4, rs[4..]) == AddNodes(g5, rs[5..]);
    assert AddNodes(g5, rs[5..]) == AddNodes(g6, rs[6..]);
    assert g6 == NodesOnly;
  }

  /** The links of the edge records, in file order. */
  const Links: seq<Link> := [
    Link("1", "3", 18.0, 18.0), Link("1", "4", 12.0, 12.0), Link("1", "5", 30.0, 30.0),
    Link("3", "2", 27.0, 27.0), Link("3", "6", 15.0, 15.0), Link("4", "6", 20.0, 20.0),
    Link("4", "5", 8.0, 8.0), Link("2", "6", 10.0, 10.0), Link("5", "6", 10.0, 10.0)]

  /** The names one link appends to the neighbour list of `m`. */
  function Pair(l: Link, m: string): seq<string> {
    (if l.a == m then [l.b] else []) + (if l.b == m then [l.a] else [])
  }

  /** The names a run of links appends to the neighbour list of `m`, in order. */
  function Partners(ls: seq<Link>, m: string): seq<string> {
    if ls == [] then [] else Pair(ls[0], m) + Partners(ls[1..], m)
  }

  /** One link appends the other end point to the neighbour list of each of its end points. */
  lemma AddLinkNbrAt(g: Graph, l: Link, m: string)
    requires l.a in g.nbr && l.b in g.nbr && m in g.nbr
    ensures AddLink(g, l).nbr[m] == g.nbr[m] + Pair(l, m)
  {
    if l.a == l.b {
      if m == l.a { assert [l.b] + [l.a] == [l.a, l.a]; }
    } else if m == l.a {
      assert [l.b] + [] == [l.b];
    } else if m == l.b {
      assert [] + [l.a] == [l.a];
    }
  }

  lemma AppendAssoc<T>(a: seq<T>, b: seq<T>, c: seq<T>)
    ensures a + b + c == a + (b + c)
  {
  }

  /** The neighbour list after a run of links, from the list after its first link. */
  lemma NbrStep(g: Graph, ls: seq<Link>, m: string)
    requires ls != [] && forall i :: 0 <= i < |ls| ==> ls[i].a in g.nbr && ls[i].b in g.nbr
    requires m in g.nbr
    requires var g1 := AddLink(g, ls[0]);
      AddLinks(g1, ls[1..]).nbr[m] == g1.nbr[m] + Partners(ls[1..], m)
    ensures AddLinks(g, ls).nbr[m] == g.nbr[m] + Partners(ls, m)
  {
    var g1 := AddLink(g, ls[0]);
    var p, rest, before := Pair(ls[0], m), Partners(ls[1..], m), g.nbr[m];
    assert AddLinks(g, ls) == AddLinks(g1, ls[1..]);
    assert Partners(ls, m) == p + rest;
    AddLinkNbrAt(g, ls[0], m);
    AppendAssoc(before, p, rest);
  }

  /** A run of links appends each end point's partners to its neighbour list, in link order. */
  lemma {:induction false} AddLinksNbrAt(g: Graph, ls: seq<Link>, m: string)
    requires forall i :: 0 <= i < |ls| ==> ls[i].a in g.nbr && ls[i].b in g.nbr
    requires m in g.nbr
    ensures AddLinks(g, ls).nbr[m] == g.nbr[m] + Partners(ls, m)
    decreases |ls|
  {
    if ls != [] {
      AddLinksNbrAt(AddLink(g, ls[0]), ls[1..], m);
      NbrStep(g, ls, m);
    }
  }

  lemma Partners1() ensures Partners(Links, "1") == Nbr["1"] {}
  lemma Partners2() ensures Partners(Links, "2") == Nbr["2"] {}
  lemma Partners3() ensures Partners(Links, "3") == Nbr["3"] {}
  lemma Partners4() ensures Partners(Links, "4") == Nbr["4"] {}
  lemma Partners5() ensures Partners(Links, "5") == Nbr["5"] {}
  lemma Partners6() ensures Partners(Links, "6") == Nbr["6"] {}

  lemma LinksKnown()
    ensures forall i :: 0 <= i < |Links| ==> Links[i].a in NodesOnly.nbr && Links[i].b in NodesOnly.nbr
  {
  }

  /** A name with an empty list before a run of links ends with exactly its partners. */
  lemma NbrFromEmpty(g: Graph, ls: seq<Link>, m: string, want: seq<string>)
    requires forall i :: 0 <= i < |ls| ==> ls[i].a in g.nbr && ls[i].b in g.nbr
    requires m in g.nbr && g.nbr[m] == [] && Partners(ls, m) == want
    ensures AddLinks(g, ls).nbr[m] == want
  {
    AddLinksNbrAt(g, ls, m);
    assert [] + want == want;
  }

  /** Links with the partners `Nbr` lists, applied to tables whose lists are all empty, leave `Nbr`. */
  lemma NbrBuilt(g: Graph, ls: seq<Link>)
    requires forall i :: 0 <= i < |ls| ==> ls[i].a in g.nbr && ls[i].b in g.nbr
    requires g.nbr.Keys == Nbr.Keys && forall m :: m in g.nbr ==> g.nbr[m] == []
    requires Partners(ls, "1") == Nbr["1"] && Partners(ls, "2") == Nbr["2"]
    requires Partners(ls, "3") == Nbr["3"] && Partners(ls, "4") == Nbr["4"]
    requires Partners(ls, "5") == Nbr["5"] && Partners(ls, "6") == Nbr["6"]
    ensures AddLinks(g, ls).nbr == Nbr
  {
    var h := AddLinks(g, ls);
    assert h.nbr["1"] == Nbr["1"] by { NbrFromEmpty(g, ls, "1", Nbr["1"]); }
    assert h.nbr["2"] == Nbr["2"] by { NbrFromEmpty(g, ls, "2", Nbr["2"]); }
    assert h.nbr["3"] == Nbr["3"] by { NbrFromEmpty(g, ls, "3", Nbr["3"]); }
    assert h.nbr["4"] == Nbr["4"] by { NbrFromEmpty(g, ls, "4", Nbr["4"]); }
    assert h.nbr["5"] == Nbr["5"] by { NbrFromEmpty(g, ls, "5", Nbr["5"]); }
    assert h.nbr["6"] == Nbr["6"] by { NbrFromEmpty(g, ls, "6", Nbr["6"]); }
    MapOfSix(h.nbr);
  }

  /** A table with the keys of `Nbr` and its list at each of them is `Nbr`. */
  lemma MapOfSix(h: map<string, seq<string>>)
    requires h.Keys == Nbr.Keys
    requires h["1"] == Nbr["1"] && h["2"] == Nbr["2"] && h["3"] == Nbr["3"]
    requires h["4"] == Nbr["4"] && h["5"] == Nbr["5"] && h["6"] == Nbr["6"]
    ensures h == Nbr
  {
  }

  /** The script's links, applied to the loaded nodes, give the neighbour lists of `Nbr`. */
  lemma NbrOfLinks(g: Graph)
    requires forall i :: 0 <= i < |Links| ==> Links[i].a in g.nbr && Links[i].b in g.nbr
    requires g.nbr.Keys == Nbr.Keys && forall m :: m in g.nbr ==> g.nbr[m] == []
    ensures AddLinks(g, Links).nbr == Nbr
  {
    Partners1(); Partners2(); Partners3(); Partners4(); Partners5(); Partners6();
    NbrBuilt(g, Links);
  }

  /** Each link writes keys of the cost table, with the table's cost. */
  lemma LinkWrites(i: nat, e: (string, string))
    requires i < |Links| && Touches(Links[i], e)
    ensures e in Cost && Writes(Links[i], e) == Some(Cost[e])
  {
    if i == 0 {} else if i == 1 {} else if i == 2 {} else if i == 3 {} else if i == 4 {}
    else if i == 5 {} else if i == 6 {} else if i == 7 {} else {}
  }

  /** Each key of the cost table is written by some link. */
  lemma CostTouched(e: (string, string))
    requires e in Cost
    ensures exists i :: 0 <= i < |Links| && Touches(Links[i], e)
  {
    if e == ("1", "3") || e == ("3", "1") { assert Touches(Links[0], e); }
    else if e == ("1", "4") || e == ("4", "1") { assert Touches(Links[1], e); }
    else if e == ("1", "5") || e == ("5", "1") { assert Touches(Links[2], e); }
    else if e == ("3", "2") || e == ("2", "3") { assert Touches(Links[3], e); }
    else if e == ("3", "6") || e == ("6", "3") { assert Touches(Links[4], e); }
    else if e == ("4", "6") || e == ("6", "4") { assert Touches(Links[5], e); }
    else if e == ("4", "5") || e == ("5", "4") { assert Touches(Links[6], e); }
    else if e == ("2", "6") || e == ("6", "2") { assert Touches(Links[7], e); }
    else { assert Touches(Links[8], e); }
  }

  lemma CostBuilt()
    ensures AddLinks(NodesOnly, Links).cost == Cost
  {
    forall e ensures e in Cost <==> exists i :: 0 <= i < |Links| && Touches(Links[i], e) {
      if e in Cost { CostTouched(e); }
      if exists i :: 0 <= i < |Links| && Touches(Links[i], e) {
        var i :| 0 <= i < |Links| && Touches(Links[i], e);
        LinkWrites(i, e);
      }
    }
    forall e, i | e in Cost && 0 <= i < |Links| && Touches(Links[i], e) ensures Writes(Links[i], e) == Some(Cost[e]) {
      LinkWrites(i, e);
    }
    AddLinksRebuild(NodesOnly, Links, Cost);
  }

  /** No edge of the script joins a node to itself. */
  lemma CostNoLoops()
    ensures forall a :: (a, a) !in Cost
  {
  }

  /** Every edge record of the script names two loaded nodes and a number, and gives `Links`. */
  lemma EdgeLinks()
    ensures AllUsable(NodesOnly, EdgeRecs)
    ensures LinksOf(EdgeRecs) == Links
  {
  }

  /** Lines reading as the script's records load the script's links over its nodes. */
  lemma LoadBuilds(nodeLines: seq<Line<NodeRec>>, edgeLines: seq<Line<EdgeRec>>)
    requires Records(nodeLines) == Success(NodeRecs) && Records(edgeLines) == Success(EdgeRecs)
    ensures LoadAStar(nodeLines, edgeLines) == Success(AddLinks(NodesOnly, Links))
  {
    NodesStored();
    EdgeLinks();
    LoadAStarSucceeds(nodeLines, edgeLines);
    LoadAStarStaged(nodeLines, edgeLines);
  }

  /** The script's links over its nodes give the tables `Loaded` names. */
  lemma BuiltLoaded()
    ensures Loaded(AddLinks(NodesOnly, Links))
  {
    NbrOfLinks(NodesOnly);
    CostBuilt();
  }

  /**
   * Lines reading as the script's records load into the tables `Loaded`
   * names, which are well formed and free of self-loops.
   */
  /** Lines that read as the script's records load into exactly the tables the search reads. */
  lemma LoadedTables(nodeLines: seq<Line<NodeRec>>, edgeLines: seq<Line<EdgeRec>>)
    requires Records(nodeLines) == Success(NodeRecs) && Records(edgeLines) == Success(EdgeRecs)
    ensures LoadAStar(nodeLines, edgeLines).Success?
    ensures var gr := LoadAStar(nodeLines, edgeLines).value;
      Loaded(gr) && Valid(gr) && NoSelfLoops(gr)
  {
    LoadBuilds(nodeLines, edgeLines);
    LoadAStarSpec(nodeLines, edgeLines);
    var gr := LoadAStar(nodeLines, edgeLines).value;
    assert Loaded(gr) by { BuiltLoaded(); }
    CostNoLoops();
  }

  //-------------------------------------------------------------------------
  // Searching

  /** The neighbour lists and edge costs the search from `1` to `6` reads. */
  predicate Facts(gr: Graph) {
    && "1" in gr.nbr && gr.nbr["1"] == ["3", "4", "5"]
    && "4" in gr.nbr && gr.nbr["4"] == ["1", "6", "5"]
    && "3" in gr.nbr && gr.nbr["3"] == ["1", "2", "6"]
    && "5" in gr.nbr && gr.nbr["5"] == ["1", "4", "6"]
    && ("1", "3") in gr.cost && gr.cost[("1", "3")] == 18.0
    && ("1", "4") in gr.cost && gr.cost[("1", "4")] == 12.0
    && ("1", "5") in gr.cost && gr.cost[("1", "5")] == 30.0
    && ("4", "1") in gr.cost && ("4", "6") in gr.cost && gr.cost[("4", "6")] == 20.0
    && ("4", "5") in gr.cost && gr.cost[("4", "5")] == 8.0
    && ("3", "1") in gr.cost && ("3", "2") in gr.cost && gr.cost[("3", "2")] == 27.0
    && ("3", "6") in gr.cost && gr.cost[("3", "6")] == 15.0
    && ("5", "1") in gr.cost && ("5", "4") in gr.cost && ("5", "6") in gr.cost && gr.cost[("5", "6")] == 10.0
  }

  lemma NbrFacts(gr: Graph)
    requires gr.nbr == Nbr
    ensures "1" in gr.nbr && gr.nbr["1"] == ["3", "4", "5"]
    ensures "4" in gr.nbr && gr.nbr["4"] == ["1", "6", "5"]
    ensures "3" in gr.nbr && gr.nbr["3"] == ["1", "2", "6"]
    ensures "5" in gr.nbr && gr.nbr["5"] == ["1", "4", "6"]
  {
  }

  lemma CostFactsFrom1And4(gr: Graph)
    requires gr.cost == Cost
    ensures ("1", "3") in gr.cost && gr.cost[("1", "3")] == 18.0
    ensures ("1", "4") in gr.cost && gr.cost[("1", "4")] == 12.0
    ensures ("1", "5") in gr.cost && gr.cost[("1", "5")] == 30.0
    ensures ("4", "1") in gr.cost && ("4", "6") in gr.cost && gr.cost[("4", "6")] == 20.0
    ensures ("4", "5") in gr.cost && gr.cost[("4", "5")] == 8.0
  {
  }

  lemma CostFactsFrom3And5(gr: Graph)
    requires gr.cost == Cost
    ensures ("3", "1") in gr.cost && ("3", "2") in gr.cost && gr.cost[("3", "2")] == 27.0
    ensures ("3", "6") in gr.cost && gr.cost[("3", "6")] == 15.0
    ensures ("5", "1") in gr.cost && ("5", "4") in gr.cost && ("5", "6") in gr.cost && gr.cost[("5", "6")] == 10.0
  {
  }

  lemma LoadedFacts(gr: Graph)
    requires Loaded(gr)
    ensures Facts(gr)
  {
    NbrFacts(gr);
    CostFactsFrom1And4(gr);
    CostFactsFrom3And5(gr);
  }

  // The node tables after each iteration: `1` closed, then `4`, `3` and `5`.
  const N1: map<string, Node> := Nodes["3" := Node(10.0, 2.0, 18.0, 28.198)]
    ["4" := Node(10.0, -2.0, 12.0, 22.198)]["5" := Node(12.0, -4.0, 30.0, 38.944)]
  const N2: map<string, Node> := N1["6" := Node(20.0, 0.0, 32.0, 32.0)]["5" := Node(12.0, -4.0, 20.0, 28.944)]
  const N3: map<string, Node> := N2["2" := Node(12.0, 4.0, 45.0, 53.944)]
  const N4: map<string, Node> := N3["6" := Node(20.0, 0.0, 30.0, 30.0)]

  // The statuses after each iteration.
  const St1: map<string, Status> := Unseen["3" := Open]["4" := Open]["5" := Open]["1" := Closed]
  const St2: map<string, Status> := St1["6" := Open]["4" := Closed]
  const St3: map<string, Status> := St2["2" := Open]["3" := Closed]
  const St4: map<string, Status> := St3["5" := Closed]

  // The parent links after each iteration.
  const P1: map<string, string> := map["3" := "1", "4" := "1", "5" := "1"]
  const P2: map<string, string> := P1["6" := "4"]["5" := "4"]
  const P3: map<string, string> := P2["2" := "3"]
  const P4: map<string, string> := P3["6" := "5"]

  /** The tables before the first iteration, and after each of the next four. */
  const S0: State := State(Nodes, Unseen, map[], ["1"], [])
  const S1: State := State(N1, St1, P1, ["4", "3", "5"], ["1"])
  const S2: State := State(N2, St2, P2, ["3", "6", "5"], ["1", "4"])
  const S3: State := State(N3, St3, P3, ["6", "5", "2"], ["1", "4", "3"])
  const S4: State := State(N4, St4, P4, ["6", "2"], ["1", "4", "3", "5"])

  /** A neighbour neither open nor closed is opened with the expanded node as parent. */
  lemma VisitFresh(gr: Graph, root: real -> real, goal: string, st: State, n: string, m: string,
                    c: real, t: real, open: seq<string>)
    requires Tabled(st.open, st.nodes)
    requires n in st.nodes && m in st.nodes && goal in st.nodes && (n, m) in gr.cost
    requires m !in st.closed && m !in st.open
    requires c == st.nodes[n].cost + gr.cost[(n, m)] && t == c + Heuristic(root, st.nodes, m, goal)
    requires open == Insert(st.open, st.nodes[m := Node(st.nodes[m].x, st.nodes[m].y, c, t)], m)
    ensures Visit(gr, root, goal, st, n, m) == st.(parent := st.parent[m := n],
      nodes := st.nodes[m := Node(st.nodes[m].x, st.nodes[m].y, c, t)], open := open, stat := st.stat[m := Open])
  {
    var s1 := AssignFresh(gr, root, goal, st, n, m, c, t);
    assert Visit(gr, root, goal, st, n, m) == AddToOpen(s1, m);
    OpenedIs(s1, m);
  }

  /** The parent assignment of a visit, with the cost so far `c` and the total `t` it writes. */
  lemma AssignFresh(gr: Graph, root: real -> real, goal: string, st: State, n: string, m: string,
                    c: real, t: real) returns (s1: State)
    requires n in st.nodes && m in st.nodes && goal in st.nodes && (n, m) in gr.cost
    requires c == st.nodes[n].cost + gr.cost[(n, m)] && t == c + Heuristic(root, st.nodes, m, goal)
    ensures s1 == AssignParent(gr, root, goal, st, m, n)
    ensures s1 == st.(parent := st.parent[m := n], nodes := st.nodes[m := Node(st.nodes[m].x, st.nodes[m].y, c, t)])
  {
    s1 := AssignParent(gr, root, goal, st, m, n);
  }

  /** Opening a name inserts it and marks it open, and changes nothing else. */
  lemma OpenedIs(st: State, m: string)
    requires Tabled(st.open, st.nodes) && m in st.nodes
    ensures AddToOpen(st, m) == st.(open := Insert(st.open, st.nodes, m), stat := st.stat[m := Open])
  {
  }

  /** An entry with a total no larger than the new one's stays in front of it. */
  lemma InsertPast(open: seq<string>, nodes: map<string, Node>, n: string)
    requires Tabled(open, nodes) && n in nodes && open != [] && nodes[open[0]].tent <= nodes[n].tent
    ensures Insert(open, nodes, n) == [open[0]] + Insert(open[1..], nodes, n)
  {
  }

  /** An open neighbour reached more cheaply is reparented, and keeps its place in the open list. */
  lemma VisitCheaper(gr: Graph, root: real -> real, goal: string, st: State, n: string, m: string, c: real, t: real)
    requires Tabled(st.open, st.nodes)
    requires n in st.nodes && m in st.nodes && goal in st.nodes && (n, m) in gr.cost
    requires m !in st.closed && m in st.open
    requires c == st.nodes[n].cost + gr.cost[(n, m)] < st.nodes[m].cost
    requires t == c + Heuristic(root, st.nodes, m, goal)
    ensures Visit(gr, root, goal, st, n, m) == st.(parent := st.parent[m := n],
      nodes := st.nodes[m := Node(st.nodes[m].x, st.nodes[m].y, c, t)])
  {
  }

  /** An open neighbour not reached more cheaply, or a closed one, is left alone. */
  lemma VisitKept(gr: Graph, root: real -> real, goal: string, st: State, n: string, m: string)
    requires Tabled(st.open, st.nodes)
    requires n in st.nodes && m in st.nodes && goal in st.nodes && (n, m) in gr.cost
    requires m in st.closed || (m in st.open && st.nodes[n].cost + gr.cost[(n, m)] >= st.nodes[m].cost)
    ensures Visit(gr, root, goal, st, n, m) == st
  {
  }

  /** The neighbour loop visits the first name, then loops over the rest. */
  lemma ExpandCons(gr: Graph, root: real -> real, goal: string, st: State, n: string, todo: seq<string>, s1: State)
    requires Tabled(st.open, st.nodes) && n in st.nodes && goal in st.nodes
    requires forall i :: 0 <= i < |todo| ==> (n, todo[i]) in gr.cost && todo[i] in st.nodes
    requires todo != [] && Visit(gr, root, goal, st, n, todo[0]) == s1
    ensures Tabled(s1.open, s1.nodes) && s1.nodes.Keys == st.nodes.Keys
    ensures Expand(gr, root, goal, st, n, todo) == Expand(gr, root, goal, s1, n, todo[1..])
  {
  }

  //-------------------------------------------------------------------------
  // Iteration 1: `1` is selected; `3`, `4` and `5` are opened from it.

  const T0: State := State(Nodes, Unseen, map[], [], [])
  const T1: State := State(Nodes["3" := Node(10.0, 2.0, 18.0, 28.198)], Unseen["3" := Open],
    map["3" := "1"], ["3"], [])
  const T2: State := State(Nodes["3" := Node(10.0, 2.0, 18.0, 28.198)]["4" := Node(10.0, -2.0, 12.0, 22.198)],
    Unseen["3" := Open]["4" := Open], map["3" := "1", "4" := "1"], ["4", "3"], [])
  const T3: State := State(N1, Unseen["3" := Open]["4" := Open]["5" := Open], P1, ["4", "3", "5"], [])

  /** The neighbour loop over three names is three visits in turn. */
  lemma ExpandThree(gr: Graph, root: real -> real, goal: string, n: string, a: string, b: string, c: string,
                    s0: State, s1: State, s2: State, s3: State)
    requires Tabled(s0.open, s0.nodes) && n in s0.nodes && goal in s0.nodes
    requires (n, a) in gr.cost && (n, b) in gr.cost && (n, c) in gr.cost
    requires a in s0.nodes && b in s0.nodes && c in s0.nodes
    requires Visit(gr, root, goal, s0, n, a) == s1
    requires Tabled(s1.open, s1.nodes) && s1.nodes.Keys == s0.nodes.Keys
    requires Visit(gr, root, goal, s1, n, b) == s2
    requires Tabled(s2.open, s2.nodes) && s2.nodes.Keys == s0.nodes.Keys
    requires Visit(gr, root, goal, s2, n, c) == s3
    ensures Expand(gr, root, goal, s0, n, [a, b, c]) == s3
  {
    var todo := [a, b, c];
    assert todo[1..] == [b, c] && todo[1..][1..] == [c] && todo[1..][1..][1..] == [];
    ExpandCons(gr, root, goal, s0, n, todo, s1);
    ExpandCons(gr, root, goal, s1, n, todo[1..], s2);
    ExpandCons(gr, root, goal, s2, n, todo[1..][1..], s3);
  }

  lemma Insert1b()
    ensures Insert(T1.open, T1.nodes["4" := Node(10.0, -2.0, 12.0, 22.198)], "4") == ["4", "3"]
  {
    var nodes := T1.nodes["4" := Node(10.0, -2.0, 12.0, 22.198)];
    assert nodes["4"].tent == 22.198 && nodes["3"].tent == 28.198;
  }

  lemma Insert1c()
    ensures Insert(T2.open, T2.nodes["5" := Node(12.0, -4.0, 30.0, 38.944)], "5") == ["4", "3", "5"]
  {
    var nodes := T2.nodes["5" := Node(12.0, -4.0, 30.0, 38.944)];
    assert nodes["5"].tent == 38.944 && nodes["4"].tent == 22.198 && nodes["3"].tent == 28.198;
    InsertPast(["4", "3"], nodes, "5");
    assert ["4", "3"][1..] == ["3"];
    InsertPast(["3"], nodes, "5");
    assert ["3"][1..] == [];
  }

  lemma Look1c(root: real -> real)
    requires Roots(root)
    ensures T2.nodes["1"].cost == 0.0 && Heuristic(root, T2.nodes, "5", "6") == 8.944
  {
  }

  lemma Visit1a(gr: Graph, root: real -> real)
    requires Facts(gr) && Roots(root)
    ensures Visit(gr, root, "6", T0, "1", "3") == T1
  {
    VisitFresh(gr, root, "6", T0, "1", "3", 18.0, 28.198, ["3"]);
  }

  lemma Visit1b(gr: Graph, root: real -> real)
    requires Facts(gr) && Roots(root)
    ensures Visit(gr, root, "6", T1, "1", "4") == T2
  {
    Insert1b();
    VisitFresh(gr, root, "6", T1, "1", "4", 12.0, 22.198, ["4", "3"]);
  }

  lemma Visit1c(gr: Graph, root: real -> real)
    requires Facts(gr) && Roots(root)
    ensures Visit(gr, root, "6", T2, "1", "5") == T3
  {
    Insert1c();
    Look1c(root);
    VisitFresh(gr, root, "6", T2, "1", "5", 30.0, 38.944, ["4", "3", "5"]);
  }


  //-------------------------------------------------------------------------
  // Iteration 2: `4` is selected; `6` is opened from it and `5` is reparented to it.

  const U0: State := State(N1, St1, P1, ["3", "5"], ["1"])
  const U1: State := State(N1["6" := Node(20.0, 0.0, 32.0, 32.0)], St1["6" := Open], P1["6" := "4"],
    ["3", "6", "5"], ["1"])
  const U2: State := State(N2, St1["6" := Open], P2, ["3", "6", "5"], ["1"])

  lemma Select2()
    ensures Select(S1.open, S1.nodes) == "4"
  {
  }

  lemma Insert2b()
    ensures Insert(U0.open, U0.nodes["6" := Node(20.0, 0.0, 32.0, 32.0)], "6") == ["3", "6", "5"]
  {
    var nodes := U0.nodes["6" := Node(20.0, 0.0, 32.0, 32.0)];
    assert nodes["6"].tent == 32.0 && nodes["3"].tent == 28.198 && nodes["5"].tent == 38.944;
    InsertPast(["3", "5"], nodes, "6");
    assert ["3", "5"][1..] == ["5"];
  }

  lemma Look2b(root: real -> real)
    requires Roots(root)
    ensures U0.nodes["4"].cost == 12.0 && Heuristic(root, U0.nodes, "6", "6") == 0.0
  {
  }

  lemma Look2c(root: real -> real)
    requires Roots(root)
    ensures U1.nodes["4"].cost == 12.0 && U1.nodes["5"].cost == 30.0
    ensures Heuristic(root, U1.nodes, "5", "6") == 8.944
  {
  }

  lemma Visit2a(gr: Graph, root: real -> real)
    requires Facts(gr) && Roots(root)
    ensures Visit(gr, root, "6", U0, "4", "1") == U0
  {
    VisitKept(gr, root, "6", U0, "4", "1");
  }

  lemma Visit2b(gr: Graph, root: real -> real)
    requires Facts(gr) && Roots(root)
    ensures Visit(gr, root, "6", U0, "4", "6") == U1
  {
    Insert2b();
    Look2b(root);
    VisitFresh(gr, root, "6", U0, "4", "6", 32.0, 32.0, ["3", "6", "5"]);
  }

  lemma Visit2c(gr: Graph, root: real -> real)
    requires Facts(gr) && Roots(root)
    ensures Visit(gr, root, "6", U1, "4", "5") == U2
  {
    Look2c(root);
    VisitCheaper(gr, root, "6", U1, "4", "5", 20.0, 28.944);
  }


  //-------------------------------------------------------------------------
  // Iteration 3: `3` is selected; `2` is opened from it, and `6` keeps its parent.

  const W0: State := State(N2, St2, P2, ["6", "5"], ["1", "4"])
  const W1: State := State(N3, St2["2" := Open], P3, ["6", "5", "2"], ["1", "4"])

  lemma Select3()
    ensures Select(S2.open, S2.nodes) == "3"
  {
  }

  lemma Insert3b()
    ensures Insert(W0.open, W0.nodes["2" := Node(12.0, 4.0, 45.0, 53.944)], "2") == ["6", "5", "2"]
  {
    var nodes := W0.nodes["2" := Node(12.0, 4.0, 45.0, 53.944)];
    assert nodes["2"].tent == 53.944 && nodes["6"].tent == 32.0 && nodes["5"].tent == 28.944;
    InsertPast(["6", "5"], nodes, "2");
    assert ["6", "5"][1..] == ["5"];
    InsertPast(["5"], nodes, "2");
    assert ["5"][1..] == [];
  }

  lemma Look3b(root: real -> real)
    requires Roots(root)
    ensures W0.nodes["3"].cost == 18.0 && Heuristic(root, W0.nodes, "2", "6") == 8.944
  {
  }

  lemma Look3c()
    ensures W1.nodes["3"].cost == 18.0 && W1.nodes["6"].cost == 32.0
  {
  }

  lemma Visit3a(gr: Graph, root: real -> real)
    requires Facts(gr) && Roots(root)
    ensures Visit(gr, root, "6", W0, "3", "1") == W0
  {
    VisitKept(gr, root, "6", W0, "3", "1");
  }

  lemma Visit3b(gr: Graph, root: real -> real)
    requires Facts(gr) && Roots(root)
    ensures Visit(gr, root, "6", W0, "3", "2") == W1
  {
    Insert3b();
    Look3b(root);
    VisitFresh(gr, root, "6", W0, "3", "2", 45.0, 53.944, ["6", "5", "2"]);
  }

  lemma Visit3c(gr: Graph, root: real -> real)
    requires Facts(gr) && Roots(root)
    ensures Visit(gr, root, "6", W1, "3", "6") == W1
  {
    Look3c();
    VisitKept(gr, root, "6", W1, "3", "6");
  }


  //-------------------------------------------------------------------------
  // Iteration 4: `5` is selected; `6` is reparented to it.

  const X0: State := State(N3, St3, P3, ["6", "2"], ["1", "4", "3"])
  const X1: State := State(N4, St3, P4, ["6", "2"], ["1", "4", "3"])

  lemma Select4()
    ensures Select(S3.open, S3.nodes) == "5"
  {
  }

  lemma Look4c(root: real -> real)
    requires Roots(root)
    ensures X0.nodes["5"].cost == 20.0 && X0.nodes["6"].cost == 32.0
    ensures Heuristic(root, X0.nodes, "6", "6") == 0.0
  {
  }

  lemma Visit4ab(gr: Graph, root: real -> real)
    requires Facts(gr) && Roots(root)
    ensures Visit(gr, root, "6", X0, "5", "1") == X0
    ensures Visit(gr, root, "6", X0, "5", "4") == X0
  {
    VisitKept(gr, root, "6", X0, "5", "1");
    VisitKept(gr, root, "6", X0, "5", "4");
  }

  lemma Visit4c(gr: Graph, root: real -> real)
    requires Facts(gr) && Roots(root)
    ensures Visit(gr, root, "6", X0, "5", "6") == X1
  {
    Look4c(root);
    VisitCheaper(gr, root, "6", X0, "5", "6", 30.0, 30.0);
  }


  //-------------------------------------------------------------------------
  // Iteration 5: `6` is selected and the parent walk is returned.

  lemma Select5()
    ensures Select(S4.open, S4.nodes) == "6"
  {
  }

  /** The parent links on the path found. */
  lemma Links4()
    ensures "6" in P4 && P4["6"] == "5" && "5" in P4 && P4["5"] == "4" && "4" in P4 && P4["4"] == "1" && "1" !in P4
    ensures "1" in N4 && "4" in N4 && "5" in N4 && "6" in N4
  {
  }

  /** The parent walk from `6` is `6`, `5`, `4`, `1`, whatever ranks justify it. */
  lemma Walk4(rank: map<string, nat>)
    requires Ranked(P4, rank)
    ensures Reverse(ParentList(N4, P4, "6", rank)) == ["1", "4", "5", "6"]
  {
    Links4();
    assert ParentList(N4, P4, "1", rank) == ["1"];
    assert ParentList(N4, P4, "4", rank) == ["4", "1"];
    assert ParentList(N4, P4, "5", rank) == ["5", "4", "1"];
    assert ParentList(N4, P4, "6", rank) == ["6", "5", "4", "1"];
  }

  lemma Expand1(gr: Graph, root: real -> real)
    requires Facts(gr) && Roots(root)
    ensures Expand(gr, root, "6", T0, "1", ["3", "4", "5"]) == T3
  {
    Visit1a(gr, root);
    Visit1b(gr, root);
    Visit1c(gr, root);
    ExpandThree(gr, root, "6", "1", "3", "4", "5", T0, T1, T2, T3);
  }

  lemma Expand2(gr: Graph, root: real -> real)
    requires Facts(gr) && Roots(root)
    ensures Expand(gr, root, "6", U0, "4", ["1", "6", "5"]) == U2
  {
    Visit2a(gr, root);
    Visit2b(gr, root);
    Visit2c(gr, root);
    ExpandThree(gr, root, "6", "4", "1", "6", "5", U0, U0, U1, U2);
  }

  lemma Expand3(gr: Graph, root: real -> real)
    requires Facts(gr) && Roots(root)
    ensures Expand(gr, root, "6", W0, "3", ["1", "2", "6"]) == W1
  {
    Visit3a(gr, root);
    Visit3b(gr, root);
    Visit3c(gr, root);
    ExpandThree(gr, root, "6", "3", "1", "2", "6", W0, W0, W1, W1);
  }

  lemma Expand4(gr: Graph, root: real -> real)
    requires Facts(gr) && Roots(root)
    ensures Expand(gr, root, "6", X0, "5", ["1", "4", "6"]) == X1
  {
    Visit4ab(gr, root);
    Visit4c(gr, root);
    ExpandThree(gr, root, "6", "5", "1", "4", "6", X0, X0, X0, X1);
  }

  //-------------------------------------------------------------------------
  // The loop

  /**
   * An iteration that selects `n` other than the goal, and whose neighbour
   * loop leads from `s0` to `s3`, continues with the closed `s3`.
   */
  lemma Advance(gr: Graph, root: real -> real, st: State, n: string, a: string, b: string, c: string,
                s0: State, s3: State, next: State)
    requires Inv(gr, "1", "6", st) && st.open != [] && Tabled(st.open, st.nodes)
    requires Select(st.open, st.nodes) == n && n in st.open && n != "6"
    requires st.(open := RemoveFirst(st.open, n)) == s0
    requires n in gr.nbr && gr.nbr[n] == [a, b, c]
    requires Tabled(s0.open, s0.nodes) && n in s0.nodes && "6" in s0.nodes
    requires (n, a) in gr.cost && (n, b) in gr.cost && (n, c) in gr.cost
    requires a in s0.nodes && b in s0.nodes && c in s0.nodes
    requires Expand(gr, root, "6", s0, n, [a, b, c]) == s3
    requires Close(s3, n) == next
    ensures Inv(gr, "1", "6", next)
    ensures Run(gr, root, "1", "6", st) == Run(gr, root, "1", "6", next)
  {
    StepNext(gr, root, "1", "6", st, n);
  }

  /** An iteration that selects the goal returns the reversed parent walk from it. */
  lemma Arrive(gr: Graph, root: real -> real, st: State, path: seq<string>)
    requires Inv(gr, "1", "6", st) && st.open != []
    requires Select(st.open, st.nodes) == "6" && "6" in st.open
    requires forall rank :: Ranked(st.parent, rank) ==> Reverse(ParentList(st.nodes, st.parent, "6", rank)) == path
    ensures Run(gr, root, "1", "6", st).outcome == Found(path)
  {
    LinkedRanked(gr, st);
  }

  lemma Remove1()
    ensures S0.(open := RemoveFirst(S0.open, "1")) == T0 && Close(T3, "1") == S1
  {
  }

  lemma Remove2()
    ensures S1.(open := RemoveFirst(S1.open, "4")) == U0 && Close(U2, "4") == S2
  {
  }

  lemma Remove3()
    ensures S2.(open := RemoveFirst(S2.open, "3")) == W0 && Close(W1, "3") == S3
  {
  }

  lemma Remove4()
    ensures S3.(open := RemoveFirst(S3.open, "5")) == X0 && Close(X1, "5") == S4
  {
  }

  lemma Step1(gr: Graph, root: real -> real)
    requires Facts(gr) && Roots(root) && Inv(gr, "1", "6", S0)
    ensures Inv(gr, "1", "6", S1) && Run(gr, root, "1", "6", S0) == Run(gr, root, "1", "6", S1)
  {
    Remove1();
    Expand1(gr, root);
    Advance(gr, root, S0, "1", "3", "4", "5", T0, T3, S1);
  }

  lemma Step2(gr: Graph, root: real -> real)
    requires Facts(gr) && Roots(root) && Inv(gr, "1", "6", S1)
    ensures Inv(gr, "1", "6", S2) && Run(gr, root, "1", "6", S1) == Run(gr, root, "1", "6", S2)
  {
    Select2();
    Remove2();
    Expand2(gr, root);
    Advance(gr, root, S1, "4", "1", "6", "5", U0, U2, S2);
  }

  lemma Step3(gr: Graph, root: real -> real)
    requires Facts(gr) && Roots(root) && Inv(gr, "1", "6", S2)
    ensures Inv(gr, "1", "6", S3) && Run(gr, root, "1", "6", S2) == Run(gr, root, "1", "6", S3)
  {
    Select3();
    Remove3();
    Expand3(gr, root);
    Advance(gr, root, S2, "3", "1", "2", "6", W0, W1, S3);
  }

  lemma Step4(gr: Graph, root: real -> real)
    requires Facts(gr) && Roots(root) && Inv(gr, "1", "6", S3)
    ensures Inv(gr, "1", "6", S4) && Run(gr, root, "1", "6", S3) == Run(gr, root, "1", "6", S4)
  {
    Select4();
    Remove4();
    Expand4(gr, root);
    Advance(gr, root, S3, "5", "1", "4", "6", X0, X1, S4);
  }

  lemma Step5(gr: Graph, root: real -> real)
    requires Inv(gr, "1", "6", S4)
    ensures Run(gr, root, "1", "6", S4).outcome == Found(["1", "4", "5", "6"])
  {
    Select5();
    forall rank | Ranked(S4.parent, rank)
      ensures Reverse(ParentList(S4.nodes, S4.parent, "6", rank)) == ["1", "4", "5", "6"]
    {
      Walk4(rank);
    }
    Arrive(gr, root, S4, ["1", "4", "5", "6"]);
  }

  //-------------------------------------------------------------------------
  // The script

  /** The path found costs 12 + 8 + 10. */
  lemma FoundCost(gr: Graph)
    requires Facts(gr)
    ensures PathCost(gr.cost, ["1", "4", "5", "6"]) == Some(30.0)
  {
    assert ["1", "4", "5", "6"][1..] == ["4", "5", "6"] && ["4", "5", "6"][1..] == ["5", "6"];
  }

  /** On the script's tables the search from `1` to `6` returns `1`, `4`, `5`, `6`. */
  lemma SearchFound(gr: Graph, root: real -> real)
    requires Valid(gr) && NoSelfLoops(gr) && Loaded(gr) && Roots(root)
    ensures AStarSearch(gr, root, "1", "6").outcome == Found(["1", "4", "5", "6"])
    ensures PathCost(gr.cost, ["1", "4", "5", "6"]) == Some(30.0)
  {
    LoadedFacts(gr);
    FoundCost(gr);
    assert "1" in gr.nodes && "6" in gr.nodes;
    InitInv(gr, "1", "6");
    assert Init(gr, "1") == S0;
    Step1(gr, root);
    Step2(gr, root);
    Step3(gr, root);
    Step4(gr, root);
    Step5(gr, root);
  }

  /** The tables load, well formed, and the search from `1` to `6` returns a path of cost 30. */
  ghost predicate ScriptOutcome(r: Result<Graph, LoadError>, root: real -> real) {
    && r.Success? && Valid(r.value) && NoSelfLoops(r.value)
    && AStarSearch(r.value, root, "1", "6").outcome == Found(["1", "4", "5", "6"])
    && PathCost(r.value.cost, ["1", "4", "5", "6"]) == Some(30.0)
  }

  /** Lines reading as the script's records load into tables on which the search finds `1`, `4`, `5`, `6`. */
  lemma RecordsFound(nodeLines: seq<Line<NodeRec>>, edgeLines: seq<Line<EdgeRec>>, root: real -> real)
    requires Records(nodeLines) == Success(NodeRecs) && Records(edgeLines) == Success(EdgeRecs)
    requires Roots(root)
    ensures ScriptOutcome(LoadAStar(nodeLines, edgeLines), root)
  {
    LoadedTables(nodeLines, edgeLines);
    SearchFound(LoadAStar(nodeLines, edgeLines).value, root);
  }

  /**
   * The script: the two files load, and the search from `1` to `6` returns
   * `['1', '4', '5', '6']`, a path of cost 30.
   */
  lemma ScriptRun(root: real -> real)
    requires Roots(root)
    ensures ScriptOutcome(LoadAStar(NodeLines, EdgeLines), root)
  {
    NodeRecords();
    EdgeRecords();
    RecordsFound(NodeLines, EdgeLines, root);
  }
}
