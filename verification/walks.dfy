/**
 * Walks in a schema graph and the signed rows that record them. A walk is
 * a sequence of edge indices `p` together with the vertices `w` it passes:
 * edge `p[i]` joins `w[i]` and `w[i + 1]`. A row of the loop-incidence
 * matrix lists a walk's edges with +1 for an edge crossed from its source to
 * its target and -1 for one crossed the other way.
 */
module Walks {
  import opened Wrappers
  import SG = SchemaGraph
  import Csr

  /** Edge `e` joins `a` and `b`, in either direction, and is not a loop. */
  predicate Joins(e: SG.Edge, a: int, b: int) {
    e.src != e.tgt && ((e.src == a && e.tgt == b) || (e.src == b && e.tgt == a))
  }

  /** `oppositeVertex(v, e)`: the target when `v` is the source, the source otherwise. */
  function Opposite(e: SG.Edge, v: int): (u: int)
    ensures SG.Touches(e, v) && e.src != e.tgt ==> Joins(e, v, u)
    ensures Joins(e, v, u) ==> u == Opposite(e, v) && SG.Touches(e, u)
  {
    if v == e.src then e.tgt else e.src
  }

  /** `p` walks through the vertices `w`. */
  ghost predicate Walk(es: seq<SG.Edge>, p: seq<int>, w: seq<int>) {
    && |w| == |p| + 1
    && forall i :: 0 <= i < |p| ==> 0 <= p[i] < |es| && Joins(es[p[i]], w[i], w[i + 1])
  }

  /** No vertex appears twice. */
  ghost predicate Distinct(w: seq<int>) {
    forall i, j :: 0 <= i < j < |w| ==> w[i] != w[j]
  }

  function Reverse<T>(s: seq<T>): (r: seq<T>)
    ensures |r| == |s| && forall i :: 0 <= i < |s| ==> r[i] == s[|s| - 1 - i]
  {
    seq(|s|, i requires 0 <= i < |s| => s[|s| - 1 - i])
  }

  /** A walk read backwards is a walk back. */
  lemma WalkReverse(es: seq<SG.Edge>, p: seq<int>, w: seq<int>)
    requires Walk(es, p, w)
    ensures Walk(es, Reverse(p), Reverse(w))
  {
    var rp, rw := Reverse(p), Reverse(w);
    forall i | 0 <= i < |rp|
      ensures 0 <= rp[i] < |es| && Joins(es[rp[i]], rw[i], rw[i + 1])
    {
      var k := |p| - 1 - i;
      assert rp[i] == p[k] && rw[i] == w[k + 1] && rw[i + 1] == w[k];
    }
  }

  /** Two walks that meet end to start make one walk. */
  lemma WalkConcat(es: seq<SG.Edge>, p1: seq<int>, w1: seq<int>, p2: seq<int>, w2: seq<int>)
    requires Walk(es, p1, w1) && Walk(es, p2, w2) && w1[|p1|] == w2[0]
    ensures Walk(es, p1 + p2, w1 + w2[1..])
  {
    var p, w := p1 + p2, w1 + w2[1..];
    forall i | 0 <= i < |p|
      ensures 0 <= p[i] < |es| && Joins(es[p[i]], w[i], w[i + 1])
    {
      if i < |p1| {
        assert p[i] == p1[i] && w[i] == w1[i] && w[i + 1] == w1[i + 1];
      } else {
        var k := i - |p1|;
        assert p[i] == p2[k] && w[i] == w2[k] && w[i + 1] == w2[k + 1];
      }
    }
  }

  /** Every prefix of a walk is a walk. */
  lemma WalkPrefix(es: seq<SG.Edge>, p: seq<int>, w: seq<int>, k: nat)
    requires Walk(es, p, w) && k <= |p|
    ensures Walk(es, p[..k], w[..k + 1])
  {
  }

  /** A distinct walk's edge `p[i]` touches its vertex `w[j]` exactly when `j` is `i` or `i + 1`. */
  lemma TouchesOnDistinctWalk(es: seq<SG.Edge>, p: seq<int>, w: seq<int>, i: int, j: int)
    requires Walk(es, p, w) && Distinct(w) && 0 <= i < |p| && 0 <= j < |w|
    ensures SG.Touches(es[p[i]], w[j]) <==> (j == i || j == i + 1)
  {
    assert Joins(es[p[i]], w[i], w[i + 1]);
    if j != i && j != i + 1 {
      assert w[j] != w[i] && w[j] != w[i + 1];
    }
  }

  /** Reading one signed entry at vertex `cur`: +1 crosses the edge from source to target, -1 back. */
  function Step(es: seq<SG.Edge>, cur: int, x: Csr.Entry<int>): Option<int> {
    if !(0 <= x.col < |es|) then None
    else if x.val == 1 && es[x.col].src == cur then Some(es[x.col].tgt)
    else if x.val == -1 && es[x.col].tgt == cur then Some(es[x.col].src)
    else None
  }

  /** Reading a row from `start`: where its entries lead, or `None` once an entry does not fit. */
  function Follow(es: seq<SG.Edge>, start: int, row: seq<Csr.Entry<int>>): Option<int>
    decreases |row|
  {
    if row == [] then Some(start)
    else
      match Follow(es, start, row[..|row| - 1])
      case None => None
      case Some(c) => Step(es, c, row[|row| - 1])
  }

  /** The vertex a row starts at: its first edge's source under +1, its target under -1. */
  function StartOf(es: seq<SG.Edge>, row: seq<Csr.Entry<int>>): int
    requires |row| > 0 && 0 <= row[0].col < |es|
  {
    if row[0].val == 1 then es[row[0].col].src else es[row[0].col].tgt
  }

  /** A row that, read from where it starts, leads back there: a closed walk. */
  ghost predicate ClosedRow(es: seq<SG.Edge>, row: seq<Csr.Entry<int>>) {
    |row| > 0 && 0 <= row[0].col < |es| && Follow(es, StartOf(es, row), row) == Some(StartOf(es, row))
  }

  /** The entry for crossing edge `k` at vertex `v`: +1 if `v` is its source, -1 otherwise. */
  function SignedEntry(es: seq<SG.Edge>, k: int, v: int): Csr.Entry<int>
    requires 0 <= k < |es|
  {
    Csr.Entry(k, if es[k].src == v then 1 else -1)
  }

  /** The signed row of a walk. */
  function Signed(es: seq<SG.Edge>, p: seq<int>, w: seq<int>): (row: seq<Csr.Entry<int>>)
    requires Walk(es, p, w)
    ensures |row| == |p|
  {
    seq(|p|, i requires 0 <= i < |p| && Walk(es, p, w) => SignedEntry(es, p[i], w[i]))
  }

  /** Signing a walk and then cutting its last edge off is signing the shorter walk. */
  lemma SignedPrefix(es: seq<SG.Edge>, p: seq<int>, w: seq<int>, k: nat)
    requires Walk(es, p, w) && k <= |p|
    ensures Walk(es, p[..k], w[..k + 1]) && Signed(es, p, w)[..k] == Signed(es, p[..k], w[..k + 1])
  {
    WalkPrefix(es, p, w, k);
  }

  /** Reading a walk's signed row from its first vertex leads to its last vertex. */
  lemma {:induction false} SignedFollows(es: seq<SG.Edge>, p: seq<int>, w: seq<int>)
    requires Walk(es, p, w)
    ensures Follow(es, w[0], Signed(es, p, w)) == Some(w[|p|])
    ensures |p| > 0 ==> StartOf(es, Signed(es, p, w)) == w[0]
    decreases |p|
  {
    if |p| > 0 {
      var n := |p| - 1;
      var row := Signed(es, p, w);
      SignedPrefix(es, p, w, n);
      SignedFollows(es, p[..n], w[..n + 1]);
      assert row[..n] == Signed(es, p[..n], w[..n + 1]);
      assert Follow(es, w[0], row[..n]) == Some(w[n]);
      assert Joins(es[p[n]], w[n], w[n + 1]);
      assert Step(es, w[n], row[n]) == Some(w[n + 1]);
      assert Joins(es[p[0]], w[0], w[1]);
    }
  }

  /** The signed row of a closed walk with at least one edge is a closed row. */
  lemma ClosedWalkRow(es: seq<SG.Edge>, p: seq<int>, w: seq<int>)
    requires Walk(es, p, w) && |p| > 0 && w[0] == w[|p|]
    ensures ClosedRow(es, Signed(es, p, w))
  {
    SignedFollows(es, p, w);
  }

  /** Signing two walks that meet is signing the joined walk. */
  lemma SignedConcat(es: seq<SG.Edge>, p1: seq<int>, w1: seq<int>, p2: seq<int>, w2: seq<int>)
    requires Walk(es, p1, w1) && Walk(es, p2, w2) && w1[|p1|] == w2[0]
    ensures Walk(es, p1 + p2, w1 + w2[1..])
    ensures Signed(es, p1 + p2, w1 + w2[1..]) == Signed(es, p1, w1) + Signed(es, p2, w2)
  {
    WalkConcat(es, p1, w1, p2, w2);
    var w := w1 + w2[1..];
    forall i | 0 <= i < |p1| + |p2|
      ensures Signed(es, p1 + p2, w)[i] == (Signed(es, p1, w1) + Signed(es, p2, w2))[i]
    {
      if i >= |p1| {
        assert w[i] == w2[i - |p1|];
      }
    }
  }
}
