/**
 * `AStar.astar(start, goal)` (and `astar` of the module-level revision): the
 * loop that selects an open node, stops at the goal, and otherwise visits the
 * node's neighbours and closes it. The loop is given once as a function on the
 * search tables and once as a method with the source's loops; the two agree.
 */
module Search {
  import opened Wrappers
  import opened Seqs
  import opened Graphs
  import opened OpenList
  import opened Parents
  import opened SearchOps
  import opened SearchInv

  /** A `KeyError` on a missing node name, or the `ValueError` of removing a name that is not open. */
  datatype SearchError = KeyMissing(key: string) | NotInOpen(name: string)

  /** The returned path, the empty list returned when the open list runs out, or an exception. */
  datatype Outcome = Found(path: seq<string>) | Exhausted | Failed(err: SearchError)

  /** How the search ended, and the tables at that point. */
  datatype Finish = Finish(outcome: Outcome, last: State)

  /** One iteration either ends the search or leaves new tables for the next one. */
  datatype StepResult = Done(fin: Finish) | Next(st: State)

  /** The neighbours of a node are its edge partners, and are nodes. */
  lemma NeighboursAreEdges(gr: Graph, n: string)
    requires Valid(gr) && n in gr.nodes
    ensures n in gr.nbr
    ensures forall i :: 0 <= i < |gr.nbr[n]| ==> (n, gr.nbr[n][i]) in gr.cost && gr.nbr[n][i] in gr.nodes
    ensures forall m :: m in gr.nbr[n] <==> (n, m) in gr.cost
  {
  }

  /**
   * One iteration of the `while len(openlist) > 0` loop: select, remove, stop
   * at the goal with the reversed parent walk, or visit every neighbour and
   * close the node. A name the removal cannot find raises.
   */
  function Step(gr: Graph, root: real -> real, start: string, goal: string, st: State): (s: StepResult)
    requires Inv(gr, start, goal, st) && st.open != []
    ensures s.Next? ==> Inv(gr, start, goal, s.st) && |s.st.closed| == |st.closed| + 1
  {
    var n := Select(st.open, st.nodes);
    if n !in st.open then Done(Finish(Failed(NotInOpen(n)), st))
    else
      var s1 := st.(open := RemoveFirst(st.open, n));
      if n == goal then
        LinkedRanked(gr, st);
        Done(Finish(Found(Reverse(ParentList(st.nodes, st.parent, n, RankOf(st)))), s1))
      else
        RemoveMid(gr, start, goal, st, n);
        NeighboursAreEdges(gr, n);
        var s2 := Expand(gr, root, goal, s1, n, gr.nbr[n]);
        ExpandMid(gr, root, start, goal, s1, n, gr.nbr[n]);
        CloseInv(gr, start, goal, s2, n);
        Next(Close(s2, n))
  }

  /** The loop from the given tables on; every iteration closes one more node. */
  function Run(gr: Graph, root: real -> real, start: string, goal: string, st: State): (f: Finish)
    requires Inv(gr, start, goal, st)
    // between two nodes no lookup raises: the only exception is the failed removal
    ensures f.outcome.Failed? ==> f.outcome.err == NotInOpen(NoneName)
    // `[]` is returned only once the open list is empty
    ensures f.outcome.Exhausted? ==> f.last.open == []
    decreases |gr.nodes| - |st.closed|
  {
    ClosedBound(gr, st);
    if st.open == [] then Finish(Exhausted, st)
    else match Step(gr, root, start, goal, st)
      case Done(f) => f
      case Next(s) =>
        ClosedBound(gr, s);
        Run(gr, root, start, goal, s)
  }

  /**
   * A start or goal that is not a node. With `start == goal` the parent walk
   * of a missing name is empty; otherwise looking up the start's neighbours
   * raises; with a missing goal the first neighbour of the start raises in the
   * heuristic, after its parent link and cost so far are written, and a start
   * without neighbours ends the loop with nothing found.
   */
  function Degenerate(gr: Graph, start: string, goal: string): (f: Finish)
    requires Valid(gr)
    requires start !in gr.nodes || goal !in gr.nodes
    ensures f.outcome.Found? <==> start == goal
    ensures f.outcome.Found? ==> f.outcome.path == []
    ensures f.outcome.Failed? ==> f.outcome.err.KeyMissing? && f.outcome.err.key !in gr.nodes
    ensures f.outcome.Exhausted? <==> start != goal && start in gr.nodes && gr.nbr[start] == []
  {
    var removed := Init(gr, start).(open := []);
    if start == goal then Finish(Found([]), removed)
    else if start !in gr.nodes then Finish(Failed(KeyMissing(start)), removed)
    else if gr.nbr[start] == [] then Finish(Exhausted, removed.(closed := [start], stat := gr.stat[start := Closed]))
    else
      var m := gr.nbr[start][0];
      assert (start, m) in gr.cost;
      var g := gr.nodes[start].cost + gr.cost[(start, m)];
      Finish(Failed(KeyMissing(goal)),
             removed.(parent := map[m := start], nodes := gr.nodes[m := gr.nodes[m].(cost := g)]))
  }

  /** `astar(start, goal)` on freshly loaded tables without self-loops. */
  function AStarSearch(gr: Graph, root: real -> real, start: string, goal: string): (f: Finish)
    requires Valid(gr) && NoSelfLoops(gr)
    // a `KeyError` names a start or goal that is not a node
    ensures f.outcome.Failed? && f.outcome.err.KeyMissing? ==> f.outcome.err.key !in gr.nodes
    // the failed removal needs the `"None"` of an unsuccessful scan
    ensures f.outcome.Failed? && f.outcome.err.NotInOpen? ==> f.outcome.err.name == NoneName
  {
    if start !in gr.nodes || goal !in gr.nodes then Degenerate(gr, start, goal)
    else
      InitInv(gr, start, goal);
      Run(gr, root, start, goal, Init(gr, start))
  }

  /** The `for n2 in nbr[n]` loop of one iteration, as a loop. */
  method VisitAll(gr: Graph, root: real -> real, start: string, goal: string, st: State, n: string) returns (cur: State)
    requires Mid(gr, start, goal, st, n)
    ensures n in gr.nbr && forall i :: 0 <= i < |gr.nbr[n]| ==> (n, gr.nbr[n][i]) in gr.cost && gr.nbr[n][i] in st.nodes
    ensures cur == Expand(gr, root, goal, st, n, gr.nbr[n])
  {
    NeighboursAreEdges(gr, n);
    var todo := gr.nbr[n];
    cur := st;
    var i := 0;
    while i < |todo|
      invariant 0 <= i <= |todo|
      invariant Mid(gr, start, goal, cur, n)
      invariant Expand(gr, root, goal, cur, n, todo[i..]) == Expand(gr, root, goal, st, n, todo)
    {
      VisitMid(gr, root, start, goal, cur, n, todo[i]);
      assert todo[i..][1..] == todo[i + 1..];
      cur := Visit(gr, root, goal, cur, n, todo[i]);
      i := i + 1;
    }
  }

  /** An iteration that neither fails nor reaches the goal visits the neighbours and closes the node. */
  lemma StepNext(gr: Graph, root: real -> real, start: string, goal: string, st: State, n: string)
    requires Inv(gr, start, goal, st) && st.open != []
    requires n == Select(st.open, st.nodes) && n in st.open && n != goal
    ensures Mid(gr, start, goal, st.(open := RemoveFirst(st.open, n)), n)
    ensures n in gr.nbr && forall i :: 0 <= i < |gr.nbr[n]| ==> (n, gr.nbr[n][i]) in gr.cost && gr.nbr[n][i] in st.nodes
    ensures Step(gr, root, start, goal, st) ==
      Next(Close(Expand(gr, root, goal, st.(open := RemoveFirst(st.open, n)), n, gr.nbr[n]), n))
  {
    RemoveMid(gr, start, goal, st, n);
    NeighboursAreEdges(gr, n);
  }

  /**
   * `astar(start, goal)` with the source's two loops: the `while` over the
   * open list and the `for` over the neighbours of the selected node.
   */
  method AStar(gr: Graph, root: real -> real, start: string, goal: string) returns (fin: Finish)
    requires Valid(gr) && NoSelfLoops(gr)
    ensures fin == AStarSearch(gr, root, start, goal)
  {
    if start !in gr.nodes || goal !in gr.nodes {
      return Degenerate(gr, start, goal);
    }
    InitInv(gr, start, goal);
    var st := Init(gr, start);
    while st.open != []
      invariant Inv(gr, start, goal, st)
      invariant Run(gr, root, start, goal, st) == AStarSearch(gr, root, start, goal)
      decreases |gr.nodes| - |st.closed|
    {
      ClosedBound(gr, st);
      var n := Select(st.open, st.nodes);
      if n !in st.open {
        return Finish(Failed(NotInOpen(n)), st);
      }
      var s1 := st.(open := RemoveFirst(st.open, n));
      if n == goal {
        LinkedRanked(gr, st);
        return Finish(Found(Reverse(ParentList(st.nodes, st.parent, n, RankOf(st)))), s1);
      }
      StepNext(gr, root, start, goal, st, n);
      var cur := VisitAll(gr, root, start, goal, s1, n);
      var next := Close(cur, n);
      assert Step(gr, root, start, goal, st) == Next(next);
      ClosedBound(gr, next);
      st := next;
    }
    return Finish(Exhausted, st);
  }
}
