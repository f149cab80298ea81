/**
 * The graph tables the engine and the roadmap generator share: the node table
 * (`nodedict`, `nodestat`), the adjacency lists (`nbr`) and the directed
 * edge-cost table (`edgecost`, keyed `"a:b"` in the source, a pair here).
 * Python dictionaries remember insertion order, which the exporters and the
 * generator observe, so the key order of both tables is kept as a sequence.
 */
module Graphs {
  import opened Seqs
  import opened Wrappers

  datatype Status = Unvisited | Open | Closed

  /** A node-table entry: position, cost so far (`cost`) and tentative total (`tent_tot_cost`). */
  datatype Node = Node(x: real, y: real, cost: real, tent: real)

  /** One edge write: `edgecost[a:b] = ab` followed by `edgecost[b:a] = ba`. */
  datatype Link = Link(a: string, b: string, ab: real, ba: real)

  datatype Graph = Graph(
    ids: seq<string>,                   // node-table keys in insertion order
    nodes: map<string, Node>,
    stat: map<string, Status>,
    nbr: map<string, seq<string>>,
    keys: seq<(string, string)>,        // edge-cost keys in insertion order
    cost: map<(string, string), real>)

  const Empty: Graph := Graph([], map[], map[], map[], [], map[])

  /**
   * The tables agree: the key orders list each key once, every node has an
   * adjacency list and a status, every edge is stored in both directions with
   * one cost, and `b` is a neighbour of `a` exactly when the cost `a:b` exists.
   */
  ghost predicate Valid(g: Graph) {
    && Distinct(g.ids)
    && (forall m :: m in g.nodes <==> m in g.ids)
    && g.nbr.Keys == g.nodes.Keys
    && g.stat.Keys == g.nodes.Keys
    && Distinct(g.keys)
    && (forall e :: e in g.cost <==> e in g.keys)
    && (forall a, b :: (a, b) in g.cost ==>
          a in g.nodes && b in g.nodes && (b, a) in g.cost && g.cost[(a, b)] == g.cost[(b, a)])
    && (forall a, b :: a in g.nbr ==> (b in g.nbr[a] <==> (a, b) in g.cost))
  }

  /** No edge joins a node to itself. */
  ghost predicate NoSelfLoops(g: Graph) {
    forall a :: (a, a) !in g.cost
  }

  /** `(a, b)` is written by link `l`. */
  predicate Touches(l: Link, e: (string, string)) {
    e == (l.a, l.b) || e == (l.b, l.a)
  }

  /** The value link `l` leaves at key `e`: the second write (`b:a`) wins when both keys coincide. */
  function Writes(l: Link, e: (string, string)): Option<real> {
    if e == (l.b, l.a) then Some(l.ba) else if e == (l.a, l.b) then Some(l.ab) else None
  }

  /**
   * Storing a node record: the entry is (re)written, its adjacency list is
   * reset to empty and its status to unvisited; a new id goes to the end of
   * the key order, an existing one keeps its place.
   */
  function AddNode(g: Graph, id: string, n: Node): (r: Graph)
    ensures r.nodes == g.nodes[id := n] && r.nbr == g.nbr[id := []] && r.stat == g.stat[id := Unvisited]
    ensures r.cost == g.cost && r.keys == g.keys
    ensures id in g.nodes ==> r.ids == g.ids
    ensures id !in g.nodes ==> r.ids == g.ids + [id]
  {
    Graph(if id in g.nodes then g.ids else g.ids + [id],
          g.nodes[id := n], g.stat[id := Unvisited], g.nbr[id := []], g.keys, g.cost)
  }

  /**
   * A node can be stored without breaking the tables when it is new or has no
   * edges yet; storing it over a node with edges would orphan them.
   */
  lemma AddNodeValid(g: Graph, id: string, n: Node)
    requires Valid(g)
    requires id !in g.nodes || g.nbr[id] == []
    ensures Valid(AddNode(g, id, n))
  {
    var r := AddNode(g, id, n);
    if id !in g.nodes {
      assert Distinct(r.ids) by {
        forall i, j | 0 <= i < j < |r.ids| ensures r.ids[i] != r.ids[j] {
          if j == |g.ids| { assert r.ids[i] in g.ids; }
        }
      }
      forall a, b | (a, b) in g.cost ensures a != id && b != id {}
    } else {
      forall a, b | (a, b) in g.cost ensures a != id {
        assert b in g.nbr[a];
      }
    }
  }

  /**
   * Appending a neighbour to both adjacency lists and writing the two directed
   * costs; a key seen for the first time goes to the end of the key order.
   */
  function AddLink(g: Graph, l: Link): (r: Graph)
    requires l.a in g.nbr && l.b in g.nbr
    ensures r.ids == g.ids && r.nodes == g.nodes && r.stat == g.stat
    ensures r.nbr.Keys == g.nbr.Keys
    ensures forall e :: e in r.cost <==> e in g.cost || Touches(l, e)
    ensures forall e :: e in r.cost && !Touches(l, e) ==> r.cost[e] == g.cost[e]
    ensures forall e :: Touches(l, e) ==> r.cost[e] == Writes(l, e).value
    // each end point gets the other appended to its neighbour list, a repeated edge included
    ensures l.a != l.b ==> r.nbr[l.a] == g.nbr[l.a] + [l.b] && r.nbr[l.b] == g.nbr[l.b] + [l.a]
    ensures l.a == l.b ==> r.nbr[l.a] == g.nbr[l.a] + [l.a, l.a]
    ensures forall m :: m in g.nbr && m != l.a && m != l.b ==> r.nbr[m] == g.nbr[m]
    // keys not stored yet go to the end of the key order, `a:b` before `b:a`
    ensures r.keys == g.keys
      + (if (l.a, l.b) in g.cost then [] else [(l.a, l.b)])
      + (if (l.b, l.a) in g.cost || l.a == l.b then [] else [(l.b, l.a)])
  {
    var nbr1 := g.nbr[l.a := g.nbr[l.a] + [l.b]];
    var nbr2 := nbr1[l.b := nbr1[l.b] + [l.a]];
    var keys1 := if (l.a, l.b) in g.cost then g.keys else g.keys + [(l.a, l.b)];
    var cost1 := g.cost[(l.a, l.b) := l.ab];
    var keys2 := if (l.b, l.a) in cost1 then keys1 else keys1 + [(l.b, l.a)];
    var cost2 := cost1[(l.b, l.a) := l.ba];
    Graph(g.ids, g.nodes, g.stat, nbr2, keys2, cost2)
  }

  /** The links of a sequence, applied in order. */
  function AddLinks(g: Graph, ls: seq<Link>): (r: Graph)
    requires forall i :: 0 <= i < |ls| ==> ls[i].a in g.nbr && ls[i].b in g.nbr
    ensures r.ids == g.ids && r.nodes == g.nodes && r.stat == g.stat && r.nbr.Keys == g.nbr.Keys
    decreases |ls|
  {
    if ls == [] then g else AddLinks(AddLink(g, ls[0]), ls[1..])
  }

  /** The value the last link touching `e` leaves there, if any link touches it. */
  function LastWrite(ls: seq<Link>, e: (string, string)): Option<real>
    decreases |ls|
  {
    if ls == [] then None
    else match LastWrite(ls[1..], e)
      case Some(v) => Some(v)
      case None => Writes(ls[0], e)
  }

  lemma LastWriteTouches(ls: seq<Link>, e: (string, string))
    ensures LastWrite(ls, e).Some? <==> exists i :: 0 <= i < |ls| && Touches(ls[i], e)
    decreases |ls|
  {
    if ls != [] {
      LastWriteTouches(ls[1..], e);
      if exists i :: 0 <= i < |ls| && Touches(ls[i], e) {
        var i :| 0 <= i < |ls| && Touches(ls[i], e);
        if i > 0 { assert Touches(ls[1..][i - 1], e); }
      }
      if exists i :: 0 <= i < |ls[1..]| && Touches(ls[1..][i], e) {
        var i :| 0 <= i < |ls[1..]| && Touches(ls[1..][i], e);
        assert Touches(ls[i + 1], e);
      }
    }
  }

  /** When every link touching `e` leaves `v` there, so does the last one. */
  lemma {:induction false} LastWriteUniform(ls: seq<Link>, e: (string, string), v: real)
    requires forall i :: 0 <= i < |ls| && Touches(ls[i], e) ==> Writes(ls[i], e) == Some(v)
    ensures LastWrite(ls, e).Some? ==> LastWrite(ls, e).value == v
    decreases |ls|
  {
    if ls != [] {
      forall i | 0 <= i < |ls[1..]| && Touches(ls[1..][i], e) ensures Writes(ls[1..][i], e) == Some(v) {
        assert ls[1..][i] == ls[i + 1];
      }
      LastWriteUniform(ls[1..], e, v);
      if LastWrite(ls[1..], e).None? && Writes(ls[0], e).Some? {
        assert Touches(ls[0], e);
      }
    }
  }

  /**
   * After a run of links, a key exists exactly when it existed before or some
   * link touched it, and its cost is the last write to it (the old cost if no
   * link touched it).
   */
  lemma {:induction false} AddLinksCost(g: Graph, ls: seq<Link>)
    requires forall i :: 0 <= i < |ls| ==> ls[i].a in g.nbr && ls[i].b in g.nbr
    ensures forall e :: e in AddLinks(g, ls).cost <==> e in g.cost || LastWrite(ls, e).Some?
    ensures forall e :: e in AddLinks(g, ls).cost ==>
      AddLinks(g, ls).cost[e] == (if LastWrite(ls, e).Some? then LastWrite(ls, e).value else g.cost[e])
    decreases |ls|
  {
    if ls != [] {
      var g1 := AddLink(g, ls[0]);
      AddLinksCost(g1, ls[1..]);
    }
  }

  /**
   * Links applied to an edge-free table rebuild the cost map `c` when they
   * touch exactly the keys of `c` and every write to a key leaves its cost.
   */
  lemma AddLinksRebuild(g: Graph, ls: seq<Link>, c: map<(string, string), real>)
    requires g.cost == map[]
    requires forall i :: 0 <= i < |ls| ==> ls[i].a in g.nbr && ls[i].b in g.nbr
    requires forall e :: e in c <==> exists i :: 0 <= i < |ls| && Touches(ls[i], e)
    requires forall e, i :: e in c && 0 <= i < |ls| && Touches(ls[i], e) ==> Writes(ls[i], e) == Some(c[e])
    ensures AddLinks(g, ls).cost == c
  {
    AddLinksCost(g, ls);
    LastWriteMap(AddLinks(g, ls).cost, ls, c);
  }

  /** A map holding exactly the last writes of `ls` is `c`. */
  lemma LastWriteMap(m: map<(string, string), real>, ls: seq<Link>, c: map<(string, string), real>)
    requires forall e :: e in m <==> LastWrite(ls, e).Some?
    requires forall e :: e in m ==> m[e] == LastWrite(ls, e).value
    requires forall e :: e in c <==> exists i :: 0 <= i < |ls| && Touches(ls[i], e)
    requires forall e, i :: e in c && 0 <= i < |ls| && Touches(ls[i], e) ==> Writes(ls[i], e) == Some(c[e])
    ensures m == c
  {
    forall e ensures LastWrite(ls, e).Some? <==> e in c {
      LastWriteTouches(ls, e);
    }
    forall e | e in c ensures LastWrite(ls, e) == Some(c[e]) {
      RebuildAt(ls, c, e);
    }
  }

  /** A key of `c` is touched, and every write to it leaves `c[e]`, so its last write does. */
  lemma RebuildAt(ls: seq<Link>, c: map<(string, string), real>, e: (string, string))
    requires e in c
    requires forall e :: e in c <==> exists i :: 0 <= i < |ls| && Touches(ls[i], e)
    requires forall e, i :: e in c && 0 <= i < |ls| && Touches(ls[i], e) ==> Writes(ls[i], e) == Some(c[e])
    ensures LastWrite(ls, e) == Some(c[e])
  {
    LastWriteTouches(ls, e);
    LastWriteUniform(ls, e, c[e]);
  }

  /** Storing a value under a key keeps the key order listing each stored key once. */
  lemma StoreKey<K>(keys: seq<K>, cost: map<K, real>, k: K, v: real)
    requires Distinct(keys) && forall e :: e in cost <==> e in keys
    ensures var keys' := if k in cost then keys else keys + [k];
      Distinct(keys') && forall e :: e in cost[k := v] <==> e in keys'
  {
    if k !in cost {
      var keys' := keys + [k];
      forall i, j | 0 <= i < j < |keys'| ensures keys'[i] != keys'[j] {
        if j == |keys| { assert keys'[i] in keys; }
      }
    }
  }

  /** Links whose two directed costs agree and whose end points are nodes keep the tables valid. */
  lemma AddLinkValid(g: Graph, l: Link)
    requires Valid(g)
    requires l.a in g.nodes && l.b in g.nodes && l.ab == l.ba
    ensures Valid(AddLink(g, l))
  {
    var r := AddLink(g, l);
    StoreKey(g.keys, g.cost, (l.a, l.b), l.ab);
    var keys1 := if (l.a, l.b) in g.cost then g.keys else g.keys + [(l.a, l.b)];
    StoreKey(keys1, g.cost[(l.a, l.b) := l.ab], (l.b, l.a), l.ba);
    AddLinkSymmetric(g, l);
    AddLinkNbr(g, l);
  }

  /** Every edge is still stored in both directions with one cost, between nodes. */
  lemma AddLinkSymmetric(g: Graph, l: Link)
    requires l.a in g.nbr && l.b in g.nbr
    requires l.a in g.nodes && l.b in g.nodes && l.ab == l.ba
    requires forall a, b :: (a, b) in g.cost ==>
      a in g.nodes && b in g.nodes && (b, a) in g.cost && g.cost[(a, b)] == g.cost[(b, a)]
    ensures var r := AddLink(g, l);
      forall a, b :: (a, b) in r.cost ==>
        a in r.nodes && b in r.nodes && (b, a) in r.cost && r.cost[(a, b)] == r.cost[(b, a)]
  {
    var r := AddLink(g, l);
    forall a, b | (a, b) in r.cost
      ensures a in r.nodes && b in r.nodes && (b, a) in r.cost && r.cost[(a, b)] == r.cost[(b, a)]
    {
      if !Touches(l, (a, b)) {
        assert (a, b) in g.cost && !Touches(l, (b, a));
      }
    }
  }

  /** The adjacency lists and the cost keys still agree after a link. */
  lemma AddLinkNbr(g: Graph, l: Link)
    requires l.a in g.nbr && l.b in g.nbr
    requires forall a, b :: a in g.nbr ==> (b in g.nbr[a] <==> (a, b) in g.cost)
    ensures var r := AddLink(g, l);
      forall a, b :: a in r.nbr ==> (b in r.nbr[a] <==> (a, b) in r.cost)
  {
    var r := AddLink(g, l);
    forall a, b | a in r.nbr
      ensures b in r.nbr[a] <==> (a, b) in r.cost
    {
      assert b in r.nbr[a] <==> b in g.nbr[a] || (a == l.a && b == l.b) || (a == l.b && b == l.a);
    }
  }

  lemma {:induction false} AddLinksValid(g: Graph, ls: seq<Link>)
    requires Valid(g)
    requires forall i :: 0 <= i < |ls| ==> ls[i].a in g.nodes && ls[i].b in g.nodes && ls[i].ab == ls[i].ba
    ensures Valid(AddLinks(g, ls))
    decreases |ls|
  {
    if ls != [] {
      AddLinkValid(g, ls[0]);
      AddLinksValid(AddLink(g, ls[0]), ls[1..]);
    }
  }
}
