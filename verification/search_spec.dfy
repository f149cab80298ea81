/**
 * What `astar` promises of its result: a returned path runs from the start to
 * the goal along edges, and `astarcost` of it is the goal's cost so far less
 * the start's loaded cost; an exhausted open list means the goal cannot be
 * reached; `astar(s, s)` is `[s]`; the selection fails only when every open
 * total has reached the `1e6` bound.
 */
module SearchSpec {
  import opened Wrappers
  import opened Seqs
  import opened Graphs
  import opened OpenList
  import opened Parents
  import opened SearchOps
  import opened SearchInv
  import opened Search

  /** Some walk leads from `a` to `b`. */
  ghost predicate Reachable(gr: Graph, a: string, b: string) {
    exists p :: Walk(gr.cost, p) && p[0] == a && p[|p| - 1] == b
  }

  /** The open and closed nodes. */
  ghost function Seen(st: State): set<string> {
    set x | x in st.open + st.closed
  }

  //-------------------------------------------------------------------------
  // One iteration

  /** Between iterations the parent links form a tree of edges rooted at the start. */
  lemma InvCostTree(gr: Graph, start: string, st: State)
    requires Linked(gr, st, {}) && Rooted(gr, start, st, {})
    ensures CostTree(gr.cost, st.nodes, st.parent, start, Seen(st))
  {
    forall x | x in st.parent ensures st.parent[x] in Seen(st) {
      assert st.parent[x] in st.open + st.closed;
    }
  }

  /**
   * An iteration that ends the search either fails to remove the selected
   * name, leaving the tables as they were, or selects the goal and returns its
   * reversed parent walk, with the goal removed from the open list.
   */
  lemma StepDone(gr: Graph, root: real -> real, start: string, goal: string, st: State)
    requires Inv(gr, start, goal, st) && st.open != []
    requires Step(gr, root, start, goal, st).Done?
    ensures Ranked(st.parent, RankOf(st))
    ensures var n := Select(st.open, st.nodes); var f := Step(gr, root, start, goal, st).fin;
      || (n !in st.open && f == Finish(Failed(NotInOpen(n)), st))
      || (n == goal && goal in st.open
          && f == Finish(Found(Reverse(ParentList(st.nodes, st.parent, goal, RankOf(st)))),
                         st.(open := RemoveFirst(st.open, goal))))
  {
    LinkedRanked(gr, st);
  }

  /** A finish of the kinds an iteration produces ends the search as described. */
  lemma DoneEnds(gr: Graph, start: string, goal: string, st: State, f: Finish)
    requires Inv(gr, start, goal, st) && st.open != [] && Ranked(st.parent, RankOf(st))
    requires var n := Select(st.open, st.nodes);
      || (n !in st.open && f == Finish(Failed(NotInOpen(n)), st))
      || (n == goal && goal in st.open
          && f == Finish(Found(Reverse(ParentList(st.nodes, st.parent, goal, RankOf(st)))),
                         st.(open := RemoveFirst(st.open, goal))))
    ensures Ends(gr, start, goal, f)
  {
    if f.outcome.Found? {
      FinishChain(gr, start, goal, st, f);
    } else {
      SelectInOpen(st.open, st.nodes);
    }
  }

  /**
   * The reversed parent walk of an open node runs from the start to the node
   * along edges, visits no node twice, and costs the node's cost so far less
   * the start's loaded cost.
   */
  lemma OpenChain(gr: Graph, start: string, st: State, m: string)
    requires Linked(gr, st, {}) && Rooted(gr, start, st, {}) && m in st.open
    requires Ranked(st.parent, RankOf(st))
    ensures var p := Reverse(ParentList(st.nodes, st.parent, m, RankOf(st)));
      Chain(gr.cost, p, start, m, st.nodes[m].cost - gr.nodes[start].cost) && Distinct(p)
  {
    var rank := RankOf(st);
    InvCostTree(gr, start, st);
    assert m in Seen(st) by { assert m in st.open + st.closed; }
    assert m in st.nodes;
    ChainCost(gr.cost, st.nodes, st.parent, rank, start, Seen(st), m);
    ParentListDistinct(st.nodes, st.parent, m, rank);
    ReverseDistinct(ParentList(st.nodes, st.parent, m, rank));
  }

  /** A finish whose path is the reversed parent walk of the open goal, on unchanged nodes, returns that walk. */
  lemma FinishChain(gr: Graph, start: string, goal: string, st: State, f: Finish)
    requires Linked(gr, st, {}) && Rooted(gr, start, st, {}) && goal in st.open
    requires Ranked(st.parent, RankOf(st)) && f.outcome.Found?
    requires f.outcome.path == Reverse(ParentList(st.nodes, st.parent, goal, RankOf(st)))
    requires f.last.nodes == st.nodes
    ensures Chain(gr.cost, f.outcome.path, start, goal, f.last.nodes[goal].cost - gr.nodes[start].cost)
    ensures Distinct(f.outcome.path)
  {
    OpenChain(gr, start, st, goal);
  }

  lemma ReverseDistinct<T>(s: seq<T>)
    requires Distinct(s)
    ensures Distinct(Reverse(s))
  {
    var r := Reverse(s);
    forall i, j | 0 <= i < j < |r| ensures r[i] != r[j] {
      assert r[i] == s[|s| - 1 - i] && r[j] == s[|s| - 1 - j];
    }
  }

  /** A failed removal happens only on two or more open entries, none of them below the bound. */
  lemma StepFailed(gr: Graph, root: real -> real, start: string, goal: string, st: State)
    requires Inv(gr, start, goal, st) && st.open != []
    requires Step(gr, root, start, goal, st).Done? && Step(gr, root, start, goal, st).fin.outcome.Failed?
    ensures var f := Step(gr, root, start, goal, st).fin;
      && f.outcome.err == NotInOpen(NoneName) && f.last == st
      && |st.open| >= 2 && NoneName !in st.open
      && (forall i :: 0 <= i < |st.open| ==> st.nodes[st.open[i]].tent >= Sentinel)
  {
    SelectInOpen(st.open, st.nodes);
  }

  //-------------------------------------------------------------------------
  // The whole loop

  /**
   * How a search from tables satisfying the invariant may end: a found path
   * runs from the start to the goal along edges, visits no node twice and
   * costs the goal's final cost so far less the start's loaded cost; an
   * exhausted loop leaves the invariant with an empty open list; a failure
   * is the removal of `"None"` from a list whose totals all reached the bound.
   */
  ghost predicate Ends(gr: Graph, start: string, goal: string, f: Finish) {
    && (f.outcome.Found? ==>
          goal in f.last.nodes && start in gr.nodes
          && Chain(gr.cost, f.outcome.path, start, goal, f.last.nodes[goal].cost - gr.nodes[start].cost)
          && Distinct(f.outcome.path))
    && (f.outcome.Exhausted? ==> Inv(gr, start, goal, f.last) && f.last.open == [])
    && (f.outcome.Failed? ==>
          && f.outcome.err == NotInOpen(NoneName)
          && |f.last.open| >= 2 && NoneName !in f.last.open && Tabled(f.last.open, f.last.nodes)
          && (forall i :: 0 <= i < |f.last.open| ==> f.last.nodes[f.last.open[i]].tent >= Sentinel))
  }

  /** An iteration that ends the search ends it as described. */
  lemma StepEnds(gr: Graph, root: real -> real, start: string, goal: string, st: State)
    requires Inv(gr, start, goal, st) && st.open != []
    requires Step(gr, root, start, goal, st).Done?
    ensures Ends(gr, start, goal, Step(gr, root, start, goal, st).fin)
  {
    StepDone(gr, root, start, goal, st);
    DoneEnds(gr, start, goal, st, Step(gr, root, start, goal, st).fin);
  }

  /** The loop from tables satisfying the invariant ends as described. */
  lemma {:induction false} RunEnds(gr: Graph, root: real -> real, start: string, goal: string, st: State)
    requires Inv(gr, start, goal, st)
    ensures Ends(gr, start, goal, Run(gr, root, start, goal, st))
    decreases |gr.nodes| - |st.closed|
  {
    ClosedBound(gr, st);
    if st.open == [] {
      assert Run(gr, root, start, goal, st) == Finish(Exhausted, st);
    } else {
      var s := Step(gr, root, start, goal, st);
      if s.Done? {
        StepEnds(gr, root, start, goal, st);
        assert Run(gr, root, start, goal, st) == s.fin;
      } else {
        ClosedBound(gr, s.st);
        RunEnds(gr, root, start, goal, s.st);
        assert Run(gr, root, start, goal, st) == Run(gr, root, start, goal, s.st);
      }
    }
  }

  /** With an empty open list, every walk from the start stays among the closed nodes, so it misses the goal. */
  lemma ExhaustedUnreachable(gr: Graph, start: string, goal: string, st: State)
    requires Inv(gr, start, goal, st) && st.open == []
    ensures !Reachable(gr, start, goal)
  {
    forall p | Walk(gr.cost, p) && p[0] == start
      ensures p[|p| - 1] != goal
    {
      WalkClosed(gr, start, goal, st, p, |p| - 1);
    }
  }

  lemma {:induction false} WalkClosed(gr: Graph, start: string, goal: string, st: State, p: seq<string>, i: nat)
    requires Inv(gr, start, goal, st) && st.open == []
    requires Walk(gr.cost, p) && p[0] == start && i < |p|
    ensures p[i] in st.closed
  {
    if i > 0 {
      WalkClosed(gr, start, goal, st, p, i - 1);
      assert (p[i - 1], p[i]) in gr.cost;
    }
  }

  //-------------------------------------------------------------------------
  // `astar(start, goal)`

  /** `astar(start, goal)` between two nodes ends as described. */
  lemma NodesEnds(gr: Graph, root: real -> real, start: string, goal: string)
    requires Valid(gr) && NoSelfLoops(gr) && start in gr.nodes && goal in gr.nodes
    ensures Ends(gr, start, goal, AStarSearch(gr, root, start, goal))
  {
    InitInv(gr, start, goal);
    RunEnds(gr, root, start, goal, Init(gr, start));
  }

  /**
   * A path returned between two nodes runs from the start to the goal along
   * edges, visits no node twice, and `astarcost` of it is the goal's final
   * cost so far less the start's loaded cost.
   */
  lemma FoundPath(gr: Graph, root: real -> real, start: string, goal: string)
    requires Valid(gr) && NoSelfLoops(gr) && start in gr.nodes && goal in gr.nodes
    requires AStarSearch(gr, root, start, goal).outcome.Found?
    ensures var f := AStarSearch(gr, root, start, goal); var p := f.outcome.path;
      && Walk(gr.cost, p) && p[0] == start && p[|p| - 1] == goal && Distinct(p)
      && goal in f.last.nodes
      && PathCost(gr.cost, p) == Some(f.last.nodes[goal].cost - gr.nodes[start].cost)
  {
    NodesEnds(gr, root, start, goal);
    FoundEnds(gr, start, goal, AStarSearch(gr, root, start, goal));
  }

  lemma FoundEnds(gr: Graph, start: string, goal: string, f: Finish)
    requires Ends(gr, start, goal, f) && f.outcome.Found?
    ensures var p := f.outcome.path;
      && Walk(gr.cost, p) && p[0] == start && p[|p| - 1] == goal && Distinct(p)
      && goal in f.last.nodes && start in gr.nodes
      && PathCost(gr.cost, p) == Some(f.last.nodes[goal].cost - gr.nodes[start].cost)
  {
  }

  /** `astar(s, s)` of a node is `[s]`. */
  lemma FoundSelf(gr: Graph, root: real -> real, s: string)
    requires Valid(gr) && NoSelfLoops(gr) && s in gr.nodes
    ensures AStarSearch(gr, root, s, s).outcome == Found([s])
  {
    var st := Init(gr, s);
    InitInv(gr, s, s);
    assert Select(st.open, st.nodes) == s;
    LinkedRanked(gr, st);
    assert ParentList(st.nodes, st.parent, s, RankOf(st)) == [s];
    assert Reverse([s]) == [s];
    assert Step(gr, root, s, s, st).Done?;
    assert Run(gr, root, s, s, st) == Step(gr, root, s, s, st).fin;
  }

  /** The empty path is returned only when no walk leads from the start to the goal. */
  lemma ExhaustedMeansUnreachable(gr: Graph, root: real -> real, start: string, goal: string)
    requires Valid(gr) && NoSelfLoops(gr)
    requires AStarSearch(gr, root, start, goal).outcome.Exhausted?
    ensures !Reachable(gr, start, goal)
  {
    if start in gr.nodes && goal in gr.nodes {
      NodesEnds(gr, root, start, goal);
      ExhaustedUnreachable(gr, start, goal, AStarSearch(gr, root, start, goal).last);
    } else {
      forall p | Walk(gr.cost, p) && p[0] == start
        ensures p[|p| - 1] != goal
      {
        if |p| > 1 {
          assert (p[|p| - 2], p[|p| - 1]) in gr.cost;
        }
      }
    }
  }

  /**
   * A `KeyError` names a start or goal that is not a node; a start that is
   * not a node raises unless it is also the goal, and a goal that is not a
   * node raises once the start has a neighbour.
   */
  lemma KeyMissingNames(gr: Graph, root: real -> real, start: string, goal: string)
    requires Valid(gr) && NoSelfLoops(gr)
    ensures var f := AStarSearch(gr, root, start, goal);
      && (f.outcome.Failed? && f.outcome.err.KeyMissing? ==>
            (f.outcome.err.key == start && start !in gr.nodes) || (f.outcome.err.key == goal && goal !in gr.nodes))
      && (start != goal && start !in gr.nodes ==> f.outcome == Failed(KeyMissing(start)))
      && (start in gr.nodes && goal !in gr.nodes && gr.nbr[start] != [] ==> f.outcome == Failed(KeyMissing(goal)))
  {
    if start in gr.nodes && goal in gr.nodes {
      NodesEnds(gr, root, start, goal);
    }
  }

  /**
   * The `ValueError` of `openlist.remove` occurs only when two or more nodes
   * are open and all their tentative totals have reached `1e6`.
   */
  lemma NotInOpenBound(gr: Graph, root: real -> real, start: string, goal: string)
    requires Valid(gr) && NoSelfLoops(gr)
    requires AStarSearch(gr, root, start, goal).outcome.Failed?
    requires AStarSearch(gr, root, start, goal).outcome.err.NotInOpen?
    ensures var f := AStarSearch(gr, root, start, goal);
      && f.outcome.err.name == NoneName && |f.last.open| >= 2 && Tabled(f.last.open, f.last.nodes)
      && (forall i :: 0 <= i < |f.last.open| ==> f.last.nodes[f.last.open[i]].tent >= Sentinel)
  {
    NodesEnds(gr, root, start, goal);
  }
}
