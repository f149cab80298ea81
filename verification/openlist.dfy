/**
 * The open list of the engine: `addNodeToOpenList`, a stable insertion by
 * tentative total cost, and `getSeeminglyClosestNodeToTarget`, a full scan for
 * the first entry of least tentative total below the `1e6` starting bound.
 */
module OpenList {
  import opened Wrappers
  import opened Graphs

  /** The starting value of `mincost` in the selection scan. */
  const Sentinel: real := 1000000.0

  /** The starting value of `minnode`: the name returned when no entry beats the bound. */
  const NoneName: string := "None"

  /** Every entry of the list has a node-table entry. */
  predicate Tabled(open: seq<string>, nodes: map<string, Node>) {
    forall i :: 0 <= i < |open| ==> open[i] in nodes
  }

  /** The entries are in non-decreasing order of tentative total cost. */
  ghost predicate SortedBy(open: seq<string>, nodes: map<string, Node>)
    requires Tabled(open, nodes)
  {
    forall i, j :: 0 <= i < j < |open| ==> nodes[open[i]].tent <= nodes[open[j]].tent
  }

  //-------------------------------------------------------------------------
  // Insertion

  /**
   * The place a new entry of tentative total `f` takes: in front of the first
   * entry whose total is strictly larger, or at the end when there is none.
   */
  function InsertPos(open: seq<string>, nodes: map<string, Node>, f: real): (k: nat)
    requires Tabled(open, nodes)
    ensures k <= |open|
    ensures forall i :: 0 <= i < k ==> nodes[open[i]].tent <= f
    ensures k < |open| ==> f < nodes[open[k]].tent
  {
    if open == [] || f < nodes[open[0]].tent then 0
    else 1 + InsertPos(open[1..], nodes, f)
  }

  /** `addNodeToOpenList`: the scan for the first strictly larger total, then `insert` or `append`. */
  function Insert(open: seq<string>, nodes: map<string, Node>, n: string): (r: seq<string>)
    requires Tabled(open, nodes) && n in nodes
    ensures var k := InsertPos(open, nodes, nodes[n].tent);
      r == open[..k] + [n] + open[k..]
  {
    if open == [] then [n]
    else if nodes[n].tent < nodes[open[0]].tent then [n] + open
    else
      assert open == [open[0]] + open[1..];
      [open[0]] + Insert(open[1..], nodes, n)
  }

  /** The list after an insertion holds the old entries and the new one, once more each. */
  lemma InsertMultiset(open: seq<string>, nodes: map<string, Node>, n: string)
    requires Tabled(open, nodes) && n in nodes
    ensures multiset(Insert(open, nodes, n)) == multiset(open) + multiset{n}
  {
    var r := Insert(open, nodes, n);
    var k := InsertPos(open, nodes, nodes[n].tent);
    var a, b := open[..k], open[k..];
    assert open == a + b;
    assert r == a + [n] + b;
    assert multiset(r) == multiset(a) + multiset{n} + multiset(b);
  }

  /** The entries of a sequence with `x` spliced in at `k`. */
  lemma Splice<T>(a: seq<T>, x: T, k: nat)
    requires k <= |a|
    ensures var r := a[..k] + [x] + a[k..];
      && |r| == |a| + 1 && r[k] == x
      && (forall i :: 0 <= i < k ==> r[i] == a[i])
      && (forall i :: k < i < |r| ==> r[i] == a[i - 1])
      && (forall m :: m in r <==> m in a || m == x)
  {
    var r := a[..k] + [x] + a[k..];
    forall m | m in a ensures m in r {
      var i :| 0 <= i < |a| && a[i] == m;
      if i < k { assert r[i] == m; } else { assert r[i + 1] == m; }
    }
  }

  /** An entry is in the list after an insertion exactly when it was before or is the new one. */
  lemma InsertContents(open: seq<string>, nodes: map<string, Node>, n: string)
    requires Tabled(open, nodes) && n in nodes
    ensures forall m :: m in Insert(open, nodes, n) <==> m in open || m == n
    ensures Tabled(Insert(open, nodes, n), nodes)
  {
    Splice(open, n, InsertPos(open, nodes, nodes[n].tent));
  }

  /** The entry at each position after inserting `n` at `k`. */
  lemma InsertAt(open: seq<string>, nodes: map<string, Node>, n: string)
    requires Tabled(open, nodes) && n in nodes
    ensures var r := Insert(open, nodes, n);
      var k := InsertPos(open, nodes, nodes[n].tent);
      && |r| == |open| + 1 && r[k] == n
      && (forall i :: 0 <= i < k ==> r[i] == open[i])
      && (forall i :: k < i < |r| ==> r[i] == open[i - 1])
  {
    Splice(open, n, InsertPos(open, nodes, nodes[n].tent));
  }

  /** Inserting a new name into a duplicate-free list leaves it duplicate-free. */
  lemma InsertDistinct(open: seq<string>, nodes: map<string, Node>, n: string)
    requires Tabled(open, nodes) && n in nodes && n !in open
    requires forall i, j :: 0 <= i < j < |open| ==> open[i] != open[j]
    ensures var r := Insert(open, nodes, n);
      forall i, j :: 0 <= i < j < |r| ==> r[i] != r[j]
  {
    InsertAt(open, nodes, n);
    var r := Insert(open, nodes, n);
    var k := InsertPos(open, nodes, nodes[n].tent);
    forall i, j | 0 <= i < j < |r| ensures r[i] != r[j] {
      var i' := if i < k then i else i - 1;
      var j' := if j < k then j else j - 1;
      if i == k {
        assert r[j] == open[j'];
      } else if j == k {
        assert r[i] == open[i'];
      } else {
        assert r[i] == open[i'] && r[j] == open[j'] && i' < j';
      }
    }
  }

  /** Insertion into a sorted list leaves it sorted. */
  lemma InsertKeepsSorted(open: seq<string>, nodes: map<string, Node>, n: string)
    requires Tabled(open, nodes) && n in nodes && SortedBy(open, nodes)
    ensures Tabled(Insert(open, nodes, n), nodes)
    ensures SortedBy(Insert(open, nodes, n), nodes)
  {
    InsertContents(open, nodes, n);
    InsertAt(open, nodes, n);
    var r := Insert(open, nodes, n);
    var k := InsertPos(open, nodes, nodes[n].tent);
    forall i, j | 0 <= i < j < |r|
      ensures nodes[r[i]].tent <= nodes[r[j]].tent
    {
      if i == k {
        assert nodes[open[k]].tent <= nodes[open[j - 1]].tent;
      } else if i > k {
        assert nodes[open[i - 1]].tent <= nodes[open[j - 1]].tent;
      } else if j > k {
        assert nodes[open[i]].tent <= nodes[open[j - 1]].tent;
      }
    }
  }

  /**
   * Ties keep insertion order: the new entry goes behind every entry whose
   * total is not larger than its own, and in front of all the others.
   */
  lemma InsertAfterTies(open: seq<string>, nodes: map<string, Node>, n: string)
    requires Tabled(open, nodes) && n in nodes && SortedBy(open, nodes)
    ensures var r := Insert(open, nodes, n);
      var k := InsertPos(open, nodes, nodes[n].tent);
      && r[k] == n
      && (forall i :: 0 <= i < k ==> nodes[r[i]].tent <= nodes[n].tent)
      && (forall i :: k < i < |r| ==> nodes[n].tent < nodes[r[i]].tent)
  {
    InsertAt(open, nodes, n);
    var r := Insert(open, nodes, n);
    var k := InsertPos(open, nodes, nodes[n].tent);
    forall i | k < i < |r|
      ensures nodes[n].tent < nodes[r[i]].tent
    {
      assert nodes[open[k]].tent <= nodes[open[i - 1]].tent;
    }
  }

  //-------------------------------------------------------------------------
  // Selection

  /**
   * Entry `k` is the first entry of least tentative total, and that total is
   * below the sentinel.
   */
  ghost predicate FirstMin(open: seq<string>, nodes: map<string, Node>, k: nat)
    requires Tabled(open, nodes)
  {
    && k < |open|
    && nodes[open[k]].tent < Sentinel
    && (forall i :: 0 <= i < |open| ==> nodes[open[k]].tent <= nodes[open[i]].tent)
    && (forall i :: 0 <= i < k ==> nodes[open[k]].tent < nodes[open[i]].tent)
  }

  /** Some entry has a tentative total below the sentinel. */
  ghost predicate SomeBelow(open: seq<string>, nodes: map<string, Node>)
    requires Tabled(open, nodes)
  {
    exists i :: 0 <= i < |open| && nodes[open[i]].tent < Sentinel
  }

  /** At most one entry is the first least one. */
  lemma FirstMinUnique(open: seq<string>, nodes: map<string, Node>, k: nat, k': nat)
    requires Tabled(open, nodes) && FirstMin(open, nodes, k) && FirstMin(open, nodes, k')
    ensures k == k'
  {
  }

  /**
   * The loop of the selection scan from entry `i` on. `best` is the index of
   * `minnode` so far (`None` while it is still the `"None"` string and
   * `mincost` is still the sentinel); an entry replaces it only when its total
   * is strictly below `mincost`.
   */
  function ScanMin(open: seq<string>, nodes: map<string, Node>, i: nat, best: Option<nat>): (r: Option<nat>)
    requires Tabled(open, nodes) && i <= |open|
    requires best.None? ==> forall j :: 0 <= j < i ==> nodes[open[j]].tent >= Sentinel
    requires best.Some? ==> FirstMin(open[..i], nodes, best.value)
    ensures r.None? <==> !SomeBelow(open, nodes)
    ensures r.Some? ==> FirstMin(open, nodes, r.value)
    decreases |open| - i
  {
    if i == |open| then
      assert open[..i] == open;
      best
    else
      var mincost := if best.None? then Sentinel else nodes[open[best.value]].tent;
      if nodes[open[i]].tent < mincost then
        assert forall j :: 0 <= j < i ==> open[..i + 1][j] == open[..i][j];
        ScanMin(open, nodes, i + 1, Some(i))
      else
        assert forall j :: 0 <= j < i ==> open[..i + 1][j] == open[..i][j];
        ScanMin(open, nodes, i + 1, best)
  }

  /** `getSeeminglyClosestNodeToTarget` */
  function Select(open: seq<string>, nodes: map<string, Node>): (r: string)
    requires Tabled(open, nodes)
    ensures |open| == 1 ==> r == open[0]
    ensures |open| != 1 && SomeBelow(open, nodes) ==> exists k: nat :: FirstMin(open, nodes, k) && r == open[k]
    ensures |open| != 1 && !SomeBelow(open, nodes) ==> r == NoneName
  {
    if |open| == 1 then open[0]
    else match ScanMin(open, nodes, 0, None)
      case None => NoneName
      case Some(k) => open[k]
  }

  /**
   * Which entry is selected depends only on the totals, not on the order of a
   * list left unsorted by a relaxation: on a sorted list whose head is below
   * the sentinel the head is selected.
   */
  lemma SelectSortedHead(open: seq<string>, nodes: map<string, Node>)
    requires Tabled(open, nodes) && SortedBy(open, nodes)
    requires |open| > 0 && nodes[open[0]].tent < Sentinel
    ensures Select(open, nodes) == open[0]
  {
    if |open| != 1 {
      assert FirstMin(open, nodes, 0);
      var k: nat :| FirstMin(open, nodes, k) && Select(open, nodes) == open[k];
      FirstMinUnique(open, nodes, 0, k);
    }
  }

  /**
   * The selected name is an entry of the list unless the list has two entries
   * or more, none of them below the sentinel, and none of them named `"None"`;
   * the removal that follows the selection then fails.
   */
  lemma SelectInOpen(open: seq<string>, nodes: map<string, Node>)
    requires Tabled(open, nodes) && |open| > 0
    ensures Select(open, nodes) !in open <==>
      |open| >= 2 && !SomeBelow(open, nodes) && NoneName !in open
  {
  }
}
