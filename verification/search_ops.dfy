/**
 * The steps of `AStar.astar` (and of `astar` in the module-level revision):
 * `assignParent`, `addNodeToOpenList` with its status write, the visit of one
 * neighbour of the node being expanded, the loop over all its neighbours, and
 * `addNodeToClosedList`.
 */
module SearchOps {
  import opened Wrappers
  import opened Seqs
  import opened Geometry
  import opened Graphs
  import opened OpenList

  /**
   * What the search writes: the node table (cost so far and tentative total
   * change), the statuses, the parent links and the two lists. The adjacency
   * lists and the edge costs stay in the loaded `Graph`.
   */
  datatype State = State(
    nodes: map<string, Node>,
    stat: map<string, Status>,
    parent: map<string, string>,
    open: seq<string>,
    closed: seq<string>)

  /** The tables before the first iteration: `openlist = [start]`, `closedlist = []`, no parents. */
  function Init(gr: Graph, start: string): (st: State)
    ensures st.nodes == gr.nodes && st.stat == gr.stat && st.parent == map[]
    ensures st.open == [start] && st.closed == []
  {
    State(gr.nodes, gr.stat, map[], [start], [])
  }

  /** `Distance(n, goal)`: the heuristic, with the supplied square root. */
  function Heuristic(root: real -> real, nodes: map<string, Node>, n: string, goal: string): (h: real)
    requires n in nodes && goal in nodes
    ensures h == Distance(root, nodes[goal].x, nodes[goal].y, nodes[n].x, nodes[n].y)
    ensures n == goal ==> h == root(0.0)
  {
    Distance(root, nodes[n].x, nodes[n].y, nodes[goal].x, nodes[goal].y)
  }

  /**
   * `assignParent(n, p, goal)`: `n` gets parent `p`, cost so far `p`'s cost
   * plus the cost of the edge `p:n`, and tentative total that cost plus the
   * heuristic. No other entry of any table changes.
   */
  function AssignParent(gr: Graph, root: real -> real, goal: string, st: State, n: string, p: string): (r: State)
    requires n in st.nodes && p in st.nodes && goal in st.nodes && (p, n) in gr.cost
    ensures r.parent == st.parent[n := p]
    ensures r.nodes.Keys == st.nodes.Keys
    ensures forall m :: m in st.nodes && m != n ==> r.nodes[m] == st.nodes[m]
    ensures r.nodes[n].x == st.nodes[n].x && r.nodes[n].y == st.nodes[n].y
    ensures r.nodes[n].cost == st.nodes[p].cost + gr.cost[(p, n)]
    ensures r.nodes[n].tent == r.nodes[n].cost + Heuristic(root, st.nodes, n, goal)
    ensures r.open == st.open && r.closed == st.closed && r.stat == st.stat
  {
    var nd := st.nodes[n];
    var g := st.nodes[p].cost + gr.cost[(p, n)];
    var h := Distance(root, nd.x, nd.y, st.nodes[goal].x, st.nodes[goal].y);
    st.(parent := st.parent[n := p], nodes := st.nodes[n := Node(nd.x, nd.y, g, g + h)])
  }

  /** `addNodeToOpenList(n)`: the sorted insertion, and the status `"open"`. */
  function AddToOpen(st: State, n: string): (r: State)
    requires Tabled(st.open, st.nodes) && n in st.nodes
    // `n` goes in front of the first entry with a strictly larger total, or at the end
    ensures var k := InsertPos(st.open, st.nodes, st.nodes[n].tent);
      r.open == st.open[..k] + [n] + st.open[k..]
    ensures r.open == Insert(st.open, st.nodes, n)
    ensures forall m :: m in r.open <==> m in st.open || m == n
    ensures Tabled(r.open, r.nodes)
    ensures SortedBy(st.open, st.nodes) ==> SortedBy(r.open, r.nodes)
    ensures r.stat == st.stat[n := Open]
    ensures r.nodes == st.nodes && r.parent == st.parent && r.closed == st.closed
  {
    InsertContents(st.open, st.nodes, n);
    assert SortedBy(st.open, st.nodes) ==> SortedBy(Insert(st.open, st.nodes, n), st.nodes) by {
      if SortedBy(st.open, st.nodes) { InsertKeepsSorted(st.open, st.nodes, n); }
    }
    st.(open := Insert(st.open, st.nodes, n), stat := st.stat[n := Open])
  }

  /** `addNodeToClosedList(n)`: appended to the closed list, status `"closed"`. */
  function Close(st: State, n: string): (r: State)
    ensures r.closed == st.closed + [n] && r.stat == st.stat[n := Closed]
    ensures r.nodes == st.nodes && r.parent == st.parent && r.open == st.open
  {
    st.(closed := st.closed + [n], stat := st.stat[n := Closed])
  }

  /**
   * One pass of the neighbour loop of the node `n` being expanded, for its
   * neighbour `m`: a closed neighbour is skipped; one not yet open gets `n` as
   * parent and is opened; an open one is reparented to `n` only when the path
   * through `n` is strictly cheaper.
   */
  function Visit(gr: Graph, root: real -> real, goal: string, st: State, n: string, m: string): (r: State)
    requires Tabled(st.open, st.nodes)
    requires n in st.nodes && m in st.nodes && goal in st.nodes && (n, m) in gr.cost
    ensures r.nodes.Keys == st.nodes.Keys && Tabled(r.open, r.nodes)
    ensures r.closed == st.closed
    ensures forall x :: x in r.open <==> x in st.open || (x == m && m !in st.closed)
    // a closed neighbour is left alone
    ensures m in st.closed ==> r == st
    // a newly seen neighbour is reached through n
    ensures m !in st.closed && m !in st.open ==>
      r.parent == st.parent[m := n] && r.nodes[m].cost == st.nodes[n].cost + gr.cost[(n, m)]
    // an open neighbour changes only for a strictly cheaper path through n
    ensures m !in st.closed && m in st.open ==>
      || r == st
      || (&& r.parent == st.parent[m := n]
          && r.nodes[m].cost == st.nodes[n].cost + gr.cost[(n, m)] < st.nodes[m].cost)
    // no other node's entry changes, and no open node's cost so far goes up
    ensures forall x :: x in st.nodes && x != m ==> r.nodes[x] == st.nodes[x]
    ensures forall x :: x in st.open ==> r.nodes[x].cost <= st.nodes[x].cost
  {
    if m in st.closed then st
    else if m !in st.open then
      var s1 := AssignParent(gr, root, goal, st, m, n);
      assert Tabled(s1.open, s1.nodes);
      AddToOpen(s1, m)
    else if st.nodes[m].cost > st.nodes[n].cost + gr.cost[(n, m)] then
      AssignParent(gr, root, goal, st, m, n)
    else st
  }

  /** The neighbour loop `for n2 in nbr[n]` over the names still to visit. */
  function Expand(gr: Graph, root: real -> real, goal: string, st: State, n: string, todo: seq<string>): (r: State)
    requires Tabled(st.open, st.nodes)
    requires n in st.nodes && goal in st.nodes
    requires forall i :: 0 <= i < |todo| ==> (n, todo[i]) in gr.cost && todo[i] in st.nodes
    ensures r.nodes.Keys == st.nodes.Keys && Tabled(r.open, r.nodes)
    ensures r.closed == st.closed
    ensures forall x :: x in r.open <==> x in st.open || (x in todo && x !in st.closed)
    ensures forall x :: x in st.open ==> r.nodes[x].cost <= st.nodes[x].cost
    ensures forall x :: x in st.nodes && x !in todo ==> r.nodes[x] == st.nodes[x]
    decreases |todo|
  {
    if todo == [] then st
    else
      var s1 := Visit(gr, root, goal, st, n, todo[0]);
      var r := Expand(gr, root, goal, s1, n, todo[1..]);
      assert forall x :: x in todo <==> x == todo[0] || x in todo[1..];
      r
  }
}
