/**
 * What stays true of the search tables from one iteration of the `astar`
 * loop to the next, and while the neighbours of the node being expanded are
 * visited (that node, `cur`, is then on neither list).
 */
module SearchInv {
  import opened Wrappers
  import opened Seqs
  import opened Graphs
  import opened OpenList
  import opened SearchOps
  import opened Parents

  /** The lists are duplicate-free, disjoint and hold nodes of the graph. */
  ghost predicate Shaped(gr: Graph, st: State) {
    && st.nodes.Keys == gr.nodes.Keys
    && Tabled(st.open, st.nodes)
    && (forall i :: 0 <= i < |st.closed| ==> st.closed[i] in gr.nodes)
    && Distinct(st.open) && Distinct(st.closed)
    && (forall m :: m in st.open ==> m !in st.closed)
  }

  /**
   * Each parent link runs along an edge from a closed node (or from `cur`),
   * and the child's cost so far is its parent's plus the edge's cost. A closed
   * node's parent was closed before it.
   */
  ghost predicate Linked(gr: Graph, st: State, cur: set<string>) {
    && (forall m :: m in st.parent ==>
          && m in st.nodes && st.parent[m] in st.nodes
          && (st.parent[m] in st.closed || st.parent[m] in cur)
          && (st.parent[m], m) in gr.cost
          && st.nodes[m].cost == st.nodes[st.parent[m]].cost + gr.cost[(st.parent[m], m)])
    && (forall j :: 0 <= j < |st.closed| && st.closed[j] in st.parent ==>
          st.parent[st.closed[j]] in st.closed[..j])
  }

  /**
   * The nodes seen so far are the open ones, the closed ones and `cur`; all
   * but the start have a parent, and the start has none and keeps its loaded
   * cost.
   */
  ghost predicate Rooted(gr: Graph, start: string, st: State, cur: set<string>) {
    && start in gr.nodes && start in st.nodes && start !in st.parent
    && st.nodes[start].cost == gr.nodes[start].cost
    && (forall m :: m in st.parent ==> m in st.open || m in st.closed || m in cur)
    && (forall m :: (m in st.open || m in st.closed || m in cur) && m != start ==> m in st.parent)
  }

  /** Every neighbour of a closed node is open, closed or `cur`. */
  ghost predicate Frontier(gr: Graph, st: State, cur: set<string>) {
    forall c, m :: c in st.closed && (c, m) in gr.cost ==> m in st.open || m in st.closed || m in cur
  }

  /** Between iterations. Before the first one the start is the only open node; after it, it is closed. */
  ghost predicate Inv(gr: Graph, start: string, goal: string, st: State) {
    && Valid(gr) && NoSelfLoops(gr)
    && goal in gr.nodes && goal !in st.closed
    && Shaped(gr, st) && Linked(gr, st, {}) && Rooted(gr, start, st, {}) && Frontier(gr, st, {})
    && (start in st.closed || (st.open == [start] && st.closed == []))
  }

  /** While the neighbours of `n` are visited. */
  ghost predicate Mid(gr: Graph, start: string, goal: string, st: State, n: string) {
    && Valid(gr) && NoSelfLoops(gr)
    && goal in gr.nodes && goal !in st.closed && n != goal
    && n in gr.nodes && n !in st.open && n !in st.closed
    && Shaped(gr, st) && Linked(gr, st, {n}) && Rooted(gr, start, st, {n}) && Frontier(gr, st, {n})
    && (n in st.parent ==> st.parent[n] in st.closed)
    && (start in st.closed || start == n)
  }

  //-------------------------------------------------------------------------

  lemma InitInv(gr: Graph, start: string, goal: string)
    requires Valid(gr) && NoSelfLoops(gr) && start in gr.nodes && goal in gr.nodes
    ensures Inv(gr, start, goal, Init(gr, start))
  {
  }

  /** Taking the selected node off the open list starts its expansion. */
  lemma RemoveMid(gr: Graph, start: string, goal: string, st: State, n: string)
    requires Inv(gr, start, goal, st) && n in st.open && n != goal
    ensures Mid(gr, start, goal, st.(open := RemoveFirst(st.open, n)), n)
  {
    var s1 := st.(open := RemoveFirst(st.open, n));
    RemoveShaped(gr, st, n);
    RemoveLinked(gr, st, n);
    RemoveRooted(gr, start, st, n);
    RemoveFrontier(gr, st, n);
    if start !in st.closed {
      assert st.open == [start];
    }
  }

  lemma RemoveShaped(gr: Graph, st: State, n: string)
    requires Shaped(gr, st) && n in st.open
    ensures Shaped(gr, st.(open := RemoveFirst(st.open, n)))
    ensures n !in RemoveFirst(st.open, n) && n !in st.closed
    ensures forall m :: m in RemoveFirst(st.open, n) <==> m in st.open && m != n
  {
    RemoveFirstDistinct(st.open, n);
  }

  lemma RemoveLinked(gr: Graph, st: State, n: string)
    requires Linked(gr, st, {}) && n in st.open
    ensures Linked(gr, st.(open := RemoveFirst(st.open, n)), {n})
    ensures n in st.parent ==> st.parent[n] in st.closed
  {
  }

  lemma RemoveRooted(gr: Graph, start: string, st: State, n: string)
    requires Shaped(gr, st) && Rooted(gr, start, st, {}) && n in st.open
    ensures Rooted(gr, start, st.(open := RemoveFirst(st.open, n)), {n})
  {
    RemoveFirstDistinct(st.open, n);
  }

  lemma RemoveFrontier(gr: Graph, st: State, n: string)
    requires Shaped(gr, st) && Frontier(gr, st, {}) && n in st.open
    ensures Frontier(gr, st.(open := RemoveFirst(st.open, n)), {n})
  {
    RemoveFirstDistinct(st.open, n);
  }

  /** Visiting a neighbour keeps the lists in shape. */
  lemma VisitShaped(gr: Graph, root: real -> real, goal: string, st: State, n: string, m: string)
    requires Shaped(gr, st) && n in gr.nodes && m in gr.nodes && goal in gr.nodes && (n, m) in gr.cost
    ensures Shaped(gr, Visit(gr, root, goal, st, n, m))
  {
    var r := Visit(gr, root, goal, st, n, m);
    if m !in st.closed && m !in st.open {
      var s1 := AssignParent(gr, root, goal, st, m, n);
      assert r.open == Insert(s1.open, s1.nodes, m);
      InsertDistinct(s1.open, s1.nodes, m);
    } else {
      assert r.open == st.open;
    }
    assert Distinct(r.open);
  }

  /** Visiting a neighbour keeps the parent links along edges, with consistent costs. */
  lemma VisitLinked(gr: Graph, root: real -> real, goal: string, st: State, n: string, m: string)
    requires Shaped(gr, st) && Linked(gr, st, {n})
    requires n in gr.nodes && m in gr.nodes && goal in gr.nodes && (n, m) in gr.cost && m != n && n !in st.closed
    requires n in st.parent ==> st.parent[n] in st.closed
    ensures Linked(gr, Visit(gr, root, goal, st, n, m), {n})
    ensures var r := Visit(gr, root, goal, st, n, m); n in r.parent ==> r.parent[n] in r.closed
  {
    var r := Visit(gr, root, goal, st, n, m);
    if r != st {
      assert m !in st.closed;
      forall x | x in r.parent
        ensures && x in r.nodes && r.parent[x] in r.nodes
                && (r.parent[x] in r.closed || r.parent[x] in {n})
                && (r.parent[x], x) in gr.cost
                && r.nodes[x].cost == r.nodes[r.parent[x]].cost + gr.cost[(r.parent[x], x)]
      {
        if x != m {
          assert r.parent[x] == st.parent[x] && r.parent[x] != m;
        }
      }
      forall j | 0 <= j < |r.closed| && r.closed[j] in r.parent
        ensures r.parent[r.closed[j]] in r.closed[..j]
      {
        assert r.closed[j] != m;
      }
    }
  }

  /** Visiting a neighbour of `n` keeps every seen node other than the start parented. */
  lemma VisitRooted(gr: Graph, root: real -> real, start: string, goal: string, st: State, n: string, m: string)
    requires Shaped(gr, st) && Rooted(gr, start, st, {n})
    requires n in gr.nodes && m in gr.nodes && goal in gr.nodes && (n, m) in gr.cost && m != n
    requires start in st.closed || start == n
    ensures Rooted(gr, start, Visit(gr, root, goal, st, n, m), {n})
  {
  }

  /** Visiting a neighbour only adds to the open list. */
  lemma VisitFrontier(gr: Graph, root: real -> real, goal: string, st: State, n: string, m: string)
    requires Shaped(gr, st) && Frontier(gr, st, {n})
    requires n in gr.nodes && m in gr.nodes && goal in gr.nodes && (n, m) in gr.cost
    ensures Frontier(gr, Visit(gr, root, goal, st, n, m), {n})
  {
  }

  /** Visiting a neighbour keeps the expansion invariant. */
  lemma VisitMid(gr: Graph, root: real -> real, start: string, goal: string, st: State, n: string, m: string)
    requires Mid(gr, start, goal, st, n) && (n, m) in gr.cost
    ensures Mid(gr, start, goal, Visit(gr, root, goal, st, n, m), n)
  {
    assert m in gr.nodes && m != n;
    VisitShaped(gr, root, goal, st, n, m);
    VisitLinked(gr, root, goal, st, n, m);
    VisitRooted(gr, root, start, goal, st, n, m);
    VisitFrontier(gr, root, goal, st, n, m);
  }

  /** The whole neighbour loop keeps the expansion invariant. */
  lemma {:induction false} ExpandMid(gr: Graph, root: real -> real, start: string, goal: string, st: State, n: string, todo: seq<string>)
    requires Mid(gr, start, goal, st, n)
    requires forall i :: 0 <= i < |todo| ==> (n, todo[i]) in gr.cost
    ensures Mid(gr, start, goal, Expand(gr, root, goal, st, n, todo), n)
    decreases |todo|
  {
    if todo != [] {
      VisitMid(gr, root, start, goal, st, n, todo[0]);
      ExpandMid(gr, root, start, goal, Visit(gr, root, goal, st, n, todo[0]), n, todo[1..]);
    }
  }

  /** Closing `n` once all its neighbours are open or closed ends the iteration with the invariant. */
  lemma CloseInv(gr: Graph, start: string, goal: string, st: State, n: string)
    requires Mid(gr, start, goal, st, n)
    requires forall m :: (n, m) in gr.cost ==> m in st.open || m in st.closed
    ensures Inv(gr, start, goal, Close(st, n))
  {
    CloseShaped(gr, st, n);
    CloseLinked(gr, st, n);
    CloseRooted(gr, start, st, n);
    CloseFrontier(gr, st, n);
  }

  lemma CloseShaped(gr: Graph, st: State, n: string)
    requires Shaped(gr, st) && n in gr.nodes && n !in st.open && n !in st.closed
    ensures Shaped(gr, Close(st, n))
  {
  }

  lemma CloseLinked(gr: Graph, st: State, n: string)
    requires Linked(gr, st, {n}) && (n in st.parent ==> st.parent[n] in st.closed)
    ensures Linked(gr, Close(st, n), {})
  {
    var c := Close(st, n).closed;
    assert c[..|st.closed|] == st.closed;
    forall j | 0 <= j < |c| && c[j] in st.parent
      ensures st.parent[c[j]] in c[..j]
    {
      if j < |st.closed| {
        assert c[..j] == st.closed[..j];
      }
    }
  }

  lemma CloseRooted(gr: Graph, start: string, st: State, n: string)
    requires Rooted(gr, start, st, {n}) && (start in st.closed || start == n)
    ensures Rooted(gr, start, Close(st, n), {})
    ensures start in Close(st, n).closed
  {
  }

  lemma CloseFrontier(gr: Graph, st: State, n: string)
    requires Frontier(gr, st, {n})
    requires forall m :: (n, m) in gr.cost ==> m in st.open || m in st.closed
    ensures Frontier(gr, Close(st, n), {})
  {
  }

  /** The closed list never outgrows the node table. */
  lemma ClosedBound(gr: Graph, st: State)
    requires Shaped(gr, st)
    ensures |st.closed| <= |gr.nodes|
  {
    DistinctCard(st.closed, gr.nodes.Keys);
  }

  //-------------------------------------------------------------------------
  // The parent links are acyclic.

  /** A closed node ranks by its place in the closed list; any other node ranks after all of them. */
  ghost function RankOf(st: State): map<string, nat> {
    map m | m in st.nodes :: if m in st.closed then Idx(st.closed, m) else |st.closed|
  }

  lemma LinkedRanked(gr: Graph, st: State)
    requires Shaped(gr, st) && Linked(gr, st, {})
    ensures Ranked(st.parent, RankOf(st))
  {
    var rank := RankOf(st);
    forall m | m in st.parent
      ensures m in rank && st.parent[m] in rank && rank[st.parent[m]] < rank[m]
    {
      var p := st.parent[m];
      if m in st.closed {
        var k := Idx(st.closed, m);
        assert st.parent[st.closed[k]] in st.closed[..k];
        var i :| 0 <= i < k && st.closed[i] == p;
        IdxFirst(st.closed, p, i);
      }
    }
  }
}
