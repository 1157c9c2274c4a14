/** Consequences for readers of a k-nearest-neighbour edge list. */
module KnnLaws {
  import opened Ordering
  import opened RealVectors
  import opened KnnEdges
  import opened KnnGraph

  /** Every source has exactly min(k, n - 1) neighbours. */
  lemma OutDegree(ids: seq<NodeId>, vecs: seq<Vec>, sim: Similarity, k: nat, i: nat)
    requires |ids| == |vecs| && i < |ids| && Distinct(ids)
    ensures |set d | d in PointsOf(ids, vecs) && IsNeighbour(PointsOf(ids, vecs), sim, k, ids[i], d)|
         == Min(k, |ids| - 1)
  {
    var P, out := PointsOf(ids, vecs), OutEdges(ids, vecs, sim, k, i);
    var near := set d | d in P && IsNeighbour(P, sim, k, ids[i], d);
    RankedLength(ids, vecs, sim, i);
    forall d ensures d in near <==> exists t :: 0 <= t < |out| && out[t].dst == d {
      NeighbourIsListed(ids, vecs, sim, k, i, d);
    }
    forall a, b | 0 <= a < b < |out| ensures out[a].dst != out[b].dst {
      OutDstsDiffer(ids, vecs, sim, k, i, a, b);
    }
    DstCount(out, near);
  }

  lemma NeighbourIsListed(ids: seq<NodeId>, vecs: seq<Vec>, sim: Similarity, k: nat, i: nat, d: NodeId)
    requires |ids| == |vecs| && i < |ids| && Distinct(ids)
    ensures IsNeighbour(PointsOf(ids, vecs), sim, k, ids[i], d)
       <==> exists t :: 0 <= t < |OutEdges(ids, vecs, sim, k, i)| && OutEdges(ids, vecs, sim, k, i)[t].dst == d
  {
    var P, out := PointsOf(ids, vecs), OutEdges(ids, vecs, sim, k, i);
    if IsNeighbour(P, sim, k, ids[i], d) {
      var e := KnnEdge(ids[i], d, sim(P[ids[i]], P[d]));
      OutEdgeMeaning(ids, vecs, sim, k, i, e);
      var t :| 0 <= t < |out| && out[t] == e;
    }
    if t :| 0 <= t < |out| && out[t].dst == d {
      OutEdgeMeaning(ids, vecs, sim, k, i, out[t]);
    }
  }

  lemma OutDstsDiffer(ids: seq<NodeId>, vecs: seq<Vec>, sim: Similarity, k: nat, i: nat, a: nat, b: nat)
    requires |ids| == |vecs| && i < |ids| && Distinct(ids)
    requires a < b < |OutEdges(ids, vecs, sim, k, i)|
    ensures OutEdges(ids, vecs, sim, k, i)[a].dst != OutEdges(ids, vecs, sim, k, i)[b].dst
  {
    var out := OutEdges(ids, vecs, sim, k, i);
    OutEdgesDistinct(ids, vecs, sim, k, i);
    OutEdgeMeaning(ids, vecs, sim, k, i, out[a]);
    OutEdgeMeaning(ids, vecs, sim, k, i, out[b]);
  }

  lemma {:induction false} DstCount(out: seq<KnnEdge>, dsts: set<NodeId>)
    requires forall d :: d in dsts <==> exists t :: 0 <= t < |out| && out[t].dst == d
    requires forall a, b :: 0 <= a < b < |out| ==> out[a].dst != out[b].dst
    ensures |dsts| == |out|
  {
    if out == [] {
      assert dsts == {};
    } else {
      var rest, d0 := out[1..], out[0].dst;
      assert d0 in dsts;
      forall d ensures d in dsts - {d0} <==> exists t :: 0 <= t < |rest| && rest[t].dst == d {
        if d in dsts - {d0} {
          var t :| 0 <= t < |out| && out[t].dst == d;
          assert rest[t-1].dst == d;
        }
        if t :| 0 <= t < |rest| && rest[t].dst == d {
          assert out[t+1].dst == d;
        }
      }
      DstCount(rest, dsts - {d0});
    }
  }

  lemma RivalsGrow(P: Points, sim: Similarity, s: NodeId, d: NodeId, d': NodeId)
    requires s in P && d in P && d' in P && d != s
    requires CloserFirst(ScoreOf(P, sim, s, d), ScoreOf(P, sim, s, d'))
    ensures |Rivals(P, sim, s, d)| < |Rivals(P, sim, s, d')|
  {
    var a, b := Rivals(P, sim, s, d), Rivals(P, sim, s, d');
    assert d in b && d !in a && a <= b;
    SubsetSize(a, b - {d});
  }

  /** A chosen destination ranks before every destination that was not chosen. */
  lemma ChosenBeforeUnchosen(P: Points, sim: Similarity, k: nat, s: NodeId, d: NodeId, d': NodeId)
    requires IsNeighbour(P, sim, k, s, d)
    requires d' in P && d' != s && !IsNeighbour(P, sim, k, s, d')
    ensures sim(P[s], P[d]) > sim(P[s], P[d']) || (sim(P[s], P[d]) == sim(P[s], P[d']) && d < d')
  {
    CloserFirstIsTotal();
    if CloserFirst(ScoreOf(P, sim, s, d'), ScoreOf(P, sim, s, d)) {
      RivalsGrow(P, sim, s, d', d);
    }
  }

  /** Asking for more neighbours only adds edges. */
  lemma MoreNeighboursKeepEdges(ids: seq<NodeId>, vecs: seq<Vec>, sim: Similarity, k: nat, k': nat, e: KnnEdge)
    requires |ids| == |vecs| && Distinct(ids) && k <= k'
    requires e in Derived(ids, vecs, sim, k)
    ensures e in Derived(ids, vecs, sim, k')
  {
    DerivedIsKnnGraph(ids, vecs, sim, k);
    DerivedIsKnnGraph(ids, vecs, sim, k');
  }

  /** An edge between two members of a sub-collection survives restriction to it. */
  lemma RestrictionKeepsEdges(P: Points, Q: Points, sim: Similarity, k: nat, e: KnnEdge)
    requires forall x :: x in Q ==> x in P && P[x] == Q[x]
    requires IsEdge(P, sim, k, e) && e.src in Q && e.dst in Q
    ensures IsEdge(Q, sim, k, e)
  {
    var small, large := Rivals(Q, sim, e.src, e.dst), Rivals(P, sim, e.src, e.dst);
    assert small <= large;
    SubsetSize(small, large);
  }

  /** On unit vectors the cosine and the Euclidean metric rank every pair alike. */
  lemma MetricsRankAlike(a: Vec, b: Vec, c: Vec, sqrt: real -> real)
    requires IsSqrt(sqrt) && |a| == |b| == |c| && Unit(a) && Unit(b) && Unit(c)
    ensures Sim(Cosine, sqrt)(a, b) < Sim(Cosine, sqrt)(a, c) <==> Sim(L2, sqrt)(a, b) < Sim(L2, sqrt)(a, c)
    ensures Sim(Cosine, sqrt)(a, b) == Sim(Cosine, sqrt)(a, c) <==> Sim(L2, sqrt)(a, b) == Sim(L2, sqrt)(a, c)
  {
    UnitDistance(a, b);
    UnitDistance(a, c);
    SqDistNonNegative(a, b, |a|);
    SqDistNonNegative(a, c, |a|);
    ReciprocalOrder(sqrt, SqDist(a, b), SqDist(a, c));
    ReciprocalOrder(sqrt, SqDist(a, c), SqDist(a, b));
  }

  lemma ReciprocalOrder(sqrt: real -> real, x: real, y: real)
    requires IsSqrt(sqrt) && 0.0 <= x && 0.0 <= y
    ensures x < y ==> Reciprocal(sqrt(y)) < Reciprocal(sqrt(x))
  {
    if x < y {
      SqrtMonotone(sqrt, x, y);
      InverseOrder(1.0 + sqrt(x), 1.0 + sqrt(y));
    }
  }

  lemma InverseOrder(u: real, v: real)
    requires 0.0 < u < v
    ensures 1.0 / v < 1.0 / u
  {
    var p, q := 1.0 / u, 1.0 / v;
    assert p * u == 1.0 && q * v == 1.0 && 0.0 < q;
    assert q * u < q * v;
    Cancel(q, p, u);
  }

  lemma Cancel(x: real, y: real, u: real)
    requires 0.0 < u && x * u < y * u
    ensures x < y
  {
  }
}
