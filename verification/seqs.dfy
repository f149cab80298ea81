/** Sequence helpers mirroring the Python list operations the engine uses. */
module Seqs {

  /** No element occurs twice. */
  ghost predicate Distinct<T>(s: seq<T>) {
    forall i, j :: 0 <= i < j < |s| ==> s[i] != s[j]
  }

  /** `list.reverse()` */
  function Reverse<T>(s: seq<T>): (r: seq<T>)
    ensures |r| == |s|
    ensures forall i :: 0 <= i < |s| ==> r[i] == s[|s| - 1 - i]
  {
    if s == [] then [] else Reverse(s[1..]) + [s[0]]
  }

  /** Position of an element of a sequence. */
  function Idx<T(==)>(s: seq<T>, x: T): (k: nat)
    requires x in s
    ensures k < |s| && s[k] == x && x !in s[..k]
  {
    if s[0] == x then 0 else
      var k' := Idx(s[1..], x);
      assert s[1..][..k'] == s[1..k' + 1];
      1 + k'
  }

  /** The position of an element is no later than any place it occurs. */
  lemma IdxFirst<T>(s: seq<T>, x: T, i: nat)
    requires i < |s| && s[i] == x
    ensures Idx(s, x) <= i
  {
  }

  /** `list.remove(x)`: drops the first occurrence of `x`; the caller has checked `x in s`. */
  function RemoveFirst<T(==)>(s: seq<T>, x: T): (r: seq<T>)
    requires x in s
    ensures |r| == |s| - 1
    ensures r == s[..Idx(s, x)] + s[Idx(s, x) + 1..]
  {
    if s[0] == x then s[1..] else
      assert s[..Idx(s, x)] == [s[0]] + s[1..][..Idx(s[1..], x)];
      [s[0]] + RemoveFirst(s[1..], x)
  }

  /** Removing an element of a distinct sequence leaves exactly the other elements. */
  lemma RemoveFirstDistinct<T>(s: seq<T>, x: T)
    requires x in s && Distinct(s)
    ensures Distinct(RemoveFirst(s, x))
    ensures forall y :: y in RemoveFirst(s, x) <==> y in s && y != x
  {
    var r := RemoveFirst(s, x);
    var k := Idx(s, x);
    assert forall i :: 0 <= i < |r| ==> r[i] == (if i < k then s[i] else s[i + 1]);
    forall y | y in s && y != x
      ensures y in r
    {
      var i :| 0 <= i < |s| && s[i] == y;
      if i < k { assert r[i] == y; } else { assert r[i - 1] == y; }
    }
  }

  /** A distinct sequence drawn from a finite set is no longer than the set. */
  lemma {:induction false} DistinctCard<T>(s: seq<T>, k: set<T>)
    requires Distinct(s)
    requires forall x :: x in s ==> x in k
    ensures |s| <= |k|
    decreases |s|
  {
    if s != [] {
      var x := s[|s| - 1];
      var p := s[..|s| - 1];
      assert forall y :: y in p ==> y in s;
      assert x !in p by {
        forall i | 0 <= i < |p| ensures p[i] != x { assert s[i] != s[|s| - 1]; }
      }
      forall y | y in p ensures y in k - {x} {
        assert y in s;
        assert y != x;
      }
      assert Distinct(p) by {
        forall i, j | 0 <= i < j < |p| ensures p[i] != p[j] { assert p[i] == s[i] && p[j] == s[j]; }
      }
      DistinctCard(p, k - {x});
    }
  }
}
