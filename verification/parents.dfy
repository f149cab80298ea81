/**
 * Reading results off the search tables: `getParentList`, which follows the
 * parent links from a node, and `astarcost`, which sums the edge costs along a
 * path.
 */
module Parents {
  import opened Wrappers
  import opened Seqs
  import opened Graphs

  /**
   * A ranking of the names that every parent link strictly lowers: the
   * witness that the parent links have no cycle.
   */
  ghost predicate Ranked(parent: map<string, string>, rank: map<string, nat>) {
    forall m :: m in parent ==> m in rank && parent[m] in rank && rank[parent[m]] < rank[m]
  }

  /**
   * `getParentList(n)`: `n`, its parent, the parent's parent and so on, for as
   * long as the names are nodes; the walk stops after a name without a parent.
   * It ends because the links are ranked.
   */
  function ParentList(nodes: map<string, Node>, parent: map<string, string>, n: string,
                      ghost rank: map<string, nat>): (r: seq<string>)
    requires Ranked(parent, rank)
    ensures n !in nodes <==> r == []
    ensures n in nodes ==> r[0] == n
    ensures forall i :: 0 <= i < |r| ==> r[i] in nodes
    ensures forall i :: 0 <= i < |r| - 1 ==> r[i] in parent && r[i + 1] == parent[r[i]]
    ensures r != [] && r[|r| - 1] in parent ==> parent[r[|r| - 1]] !in nodes
    decreases if n in rank then rank[n] + 1 else 0
  {
    if n !in nodes then []
    else if n !in parent then [n]
    else [n] + ParentList(nodes, parent, parent[n], rank)
  }

  /** Every name on the walk from a ranked name is ranked no higher. */
  lemma {:induction false} ParentListBelow(nodes: map<string, Node>, parent: map<string, string>, n: string,
                                           rank: map<string, nat>)
    requires Ranked(parent, rank) && n in rank
    ensures forall x :: x in ParentList(nodes, parent, n, rank) ==> x in rank && rank[x] <= rank[n]
    decreases rank[n]
  {
    if n in nodes && n in parent {
      ParentListBelow(nodes, parent, parent[n], rank);
    }
  }

  /** The walk visits no name twice. */
  lemma {:induction false} ParentListDistinct(nodes: map<string, Node>, parent: map<string, string>, n: string,
                                              rank: map<string, nat>)
    requires Ranked(parent, rank)
    ensures Distinct(ParentList(nodes, parent, n, rank))
    decreases if n in rank then rank[n] + 1 else 0
  {
    if n in nodes && n in parent {
      var rest := ParentList(nodes, parent, parent[n], rank);
      ParentListDistinct(nodes, parent, parent[n], rank);
      ParentListBelow(nodes, parent, parent[n], rank);
      assert n !in rest;
      assert ParentList(nodes, parent, n, rank) == [n] + rest;
    }
  }

  /** A property that holds of `n` and passes from a name to its parent holds all along the walk. */
  lemma {:induction false} ParentListAll(nodes: map<string, Node>, parent: map<string, string>, n: string,
                                         rank: map<string, nat>, s: set<string>)
    requires Ranked(parent, rank)
    requires n in s
    requires forall m :: m in s && m in parent ==> parent[m] in s
    ensures forall x :: x in ParentList(nodes, parent, n, rank) ==> x in s
    decreases if n in rank then rank[n] + 1 else 0
  {
    if n in nodes && n in parent {
      ParentListAll(nodes, parent, parent[n], rank, s);
    }
  }

  /**
   * `astarcost(path)`: the directed costs of consecutive pairs, summed; a pair
   * with no stored cost is a `KeyError`, modelled as `None`.
   */
  function PathCost(cost: map<(string, string), real>, p: seq<string>): (r: Option<real>)
    ensures r.Some? <==> forall i :: 0 <= i < |p| - 1 ==> (p[i], p[i + 1]) in cost
    ensures |p| <= 1 ==> r == Some(0.0)
    decreases |p|
  {
    if |p| <= 1 then Some(0.0)
    else if (p[0], p[1]) !in cost then None
    else match PathCost(cost, p[1..])
      case None => None
      case Some(c) => Some(cost[(p[0], p[1])] + c)
  }

  /** Extending a path by one step adds that step's cost. */
  lemma {:induction false} PathCostSnoc(cost: map<(string, string), real>, p: seq<string>, m: string)
    requires p != [] && (p[|p| - 1], m) in cost && PathCost(cost, p).Some?
    ensures PathCost(cost, p + [m]) == Some(PathCost(cost, p).value + cost[(p[|p| - 1], m)])
    decreases |p|
  {
    if |p| > 1 {
      assert (p + [m])[1..] == p[1..] + [m];
      PathCostSnoc(cost, p[1..], m);
    }
  }

  /** Consecutive names of `p` are joined by edges. */
  ghost predicate Walk(cost: map<(string, string), real>, p: seq<string>) {
    |p| > 0 && forall i :: 0 <= i < |p| - 1 ==> (p[i], p[i + 1]) in cost
  }

  /** `p` runs from `a` to `b` along edges and costs `c`. */
  ghost predicate Chain(cost: map<(string, string), real>, p: seq<string>, a: string, b: string, c: real) {
    Walk(cost, p) && p[0] == a && p[|p| - 1] == b && PathCost(cost, p) == Some(c)
  }

  /** One more step along an edge extends a walk and adds the edge's cost. */
  lemma ExtendPath(cost: map<(string, string), real>, q: seq<string>, a: string, b: string, m: string, g: real)
    requires Chain(cost, q, a, b, g) && (b, m) in cost
    ensures Chain(cost, q + [m], a, m, g + cost[(b, m)])
  {
    var p := q + [m];
    forall i | 0 <= i < |p| - 1 ensures (p[i], p[i + 1]) in cost {
      if i < |q| - 1 {
        assert p[i] == q[i] && p[i + 1] == q[i + 1];
      }
    }
    PathCostSnoc(cost, q, m);
  }

  /** Reversing a walk built by putting `m` in front of `rest`. */
  lemma ChainLink(cost: map<(string, string), real>, rest: seq<string>, a: string, b: string, m: string, g: real, g': real)
    requires Chain(cost, Reverse(rest), a, b, g) && (b, m) in cost && g' == g + cost[(b, m)]
    ensures Chain(cost, Reverse([m] + rest), a, m, g')
  {
    assert ([m] + rest)[1..] == rest;
    ExtendPath(cost, Reverse(rest), a, b, m, g);
  }

  /**
   * Parent links that run along edges from names of `seen`, with each child's
   * cost so far its parent's plus the edge's, and `start` the only name of
   * `seen` without a parent.
   */
  ghost predicate CostTree(cost: map<(string, string), real>, nodes: map<string, Node>,
                           parent: map<string, string>, start: string, seen: set<string>)
  {
    && start in nodes && start !in parent
    && (forall x :: x in seen && x !in parent ==> x == start)
    && (forall x :: x in parent ==>
          && x in nodes && parent[x] in nodes && parent[x] in seen
          && (parent[x], x) in cost
          && nodes[x].cost == nodes[parent[x]].cost + cost[(parent[x], x)])
  }

  /**
   * The reversed parent walk of a seen name runs from `start` to the name
   * along edges, and its cost is the name's cost so far less the start's.
   */
  lemma {:induction false} ChainCost(cost: map<(string, string), real>, nodes: map<string, Node>,
                                     parent: map<string, string>, rank: map<string, nat>,
                                     start: string, seen: set<string>, m: string)
    requires Ranked(parent, rank) && CostTree(cost, nodes, parent, start, seen)
    requires m in seen && m in nodes
    ensures Chain(cost, Reverse(ParentList(nodes, parent, m, rank)), start, m, nodes[m].cost - nodes[start].cost)
    decreases if m in rank then rank[m] else 0
  {
    if m in parent {
      var pm := parent[m];
      ChainCost(cost, nodes, parent, rank, start, seen, pm);
      ParentListCons(nodes, parent, m, rank);
      ChainLink(cost, ParentList(nodes, parent, pm, rank), start, pm, m,
                nodes[pm].cost - nodes[start].cost, nodes[m].cost - nodes[start].cost);
    } else {
      ChainSingle(cost, nodes, parent, m, rank);
    }
  }

  lemma ParentListCons(nodes: map<string, Node>, parent: map<string, string>, m: string, rank: map<string, nat>)
    requires Ranked(parent, rank) && m in nodes && m in parent
    ensures ParentList(nodes, parent, m, rank) == [m] + ParentList(nodes, parent, parent[m], rank)
  {
  }

  lemma ChainSingle(cost: map<(string, string), real>, nodes: map<string, Node>, parent: map<string, string>,
                    m: string, rank: map<string, nat>)
    requires Ranked(parent, rank) && m in nodes && m !in parent
    ensures Chain(cost, Reverse(ParentList(nodes, parent, m, rank)), m, m, 0.0)
  {
    assert ParentList(nodes, parent, m, rank) == [m];
    assert Reverse([m]) == [m];
  }
}
