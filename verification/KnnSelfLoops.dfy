/** Exactly when a derived edge list is free of edges from an id to itself. */
module KnnSelfLoops {
  import opened Ordering
  import opened RealVectors
  import opened KnnEdges
  import opened KnnGraph
  import opened KnnCanonical

  /** Over all vectors for the given ids. */
  ghost predicate NeverLoops(ids: seq<NodeId>, k: nat, sim: Similarity) {
    forall vecs, e :: |vecs| == |ids| && e in Derived(ids, vecs, sim, k) ==> e.src != e.dst
  }

  /** Over unit vectors in the plane only. */
  ghost predicate NeverLoopsOnUnitVectors(ids: seq<NodeId>, k: nat, sim: Similarity) {
    forall vecs, e :: |vecs| == |ids| && AllUnit(vecs) && e in Derived(ids, vecs, sim, k) ==> e.src != e.dst
  }

  /** Two rows with one vector, all others opposite. */
  function TwoAlike(n: nat, p: nat, q: nat): seq<Vec> {
    seq(n, i => if i == p || i == q then PROBE.r else PROBE.o)
  }

  lemma AlikeIsCloser(metric: DistanceMetric, sqrt: real -> real)
    requires IsSqrt(sqrt)
    ensures Sim(metric, sqrt)(PROBE.r, PROBE.o) < Sim(metric, sqrt)(PROBE.r, PROBE.r)
  {
    var all := [PROBE.p, PROBE.q, PROBE.r, PROBE.o];
    ProbeIsUnit();
    assert all[2] in all && all[3] in all;
    PlaneDot(PROBE.r, PROBE.o);
    PlaneDot(PROBE.r, PROBE.r);
    SimByDot(metric, sqrt, PROBE.r, PROBE.o, PROBE.r, PROBE.r);
  }

  lemma AlikeIsBest(ids: seq<NodeId>, sim: Similarity, p: nat, q: nat)
    requires p < |ids| && q < |ids| && p != q && sim(PROBE.r, PROBE.o) < sim(PROBE.r, PROBE.r)
    ensures var ranked := Ranked(ids, TwoAlike(|ids|, p, q), sim, p);
            ranked != [] && ranked[0] == (sim(PROBE.r, PROBE.r), ids[q])
  {
    var vecs := TwoAlike(|ids|, p, q);
    var scored, best := ScoredTo(ids, vecs, sim, p, |ids|), (sim(PROBE.r, PROBE.r), ids[q]);
    assert vecs[p] == PROBE.r && vecs[q] == PROBE.r;
    ScoredFrom(ids, vecs, sim, p, |ids|, best);
    forall z | z in scored ensures z == best || CloserFirst(best, z) {
      ScoredFrom(ids, vecs, sim, p, |ids|, z);
      var j: nat :| j < |ids| && j != p && z == (sim(vecs[p], vecs[j]), ids[j]);
    }
    CloserFirstIsTotal();
    BestIsFirst(CloserFirst, scored, best);
  }

  lemma FirstEdgeIsDerived(ids: seq<NodeId>, vecs: seq<Vec>, sim: Similarity, k: nat, p: nat)
    requires |ids| == |vecs| && p < |ids| && k >= 1 && Ranked(ids, vecs, sim, p) != []
    ensures var best := Ranked(ids, vecs, sim, p)[0]; KnnEdge(ids[p], best.1, best.0) in Derived(ids, vecs, sim, k)
  {
    var best := Ranked(ids, vecs, sim, p)[0];
    var e := KnnEdge(ids[p], best.1, best.0);
    assert OutEdges(ids, vecs, sim, k, p)[0] == e;
    InRawEdges(ids, vecs, sim, k, |ids|, e);
    SortKeeps(EdgeBefore, RawEdges(ids, vecs, sim, k, |ids|));
    SameMembers(RawEdges(ids, vecs, sim, k, |ids|), Derived(ids, vecs, sim, k), e);
  }

  lemma TwoAlikeAreUnit(n: nat, p: nat, q: nat)
    ensures AllUnit(TwoAlike(n, p, q))
  {
    var all := [PROBE.p, PROBE.q, PROBE.r, PROBE.o];
    ProbeIsUnit();
    assert all[2] in all && all[3] in all;
  }

  /** A repeated id has an edge to itself, when its two rows have one vector and the others the
      opposite one. */
  lemma RepeatLoops(ids: seq<NodeId>, k: nat, sim: Similarity, p: nat, q: nat)
    requires p < q < |ids| && ids[p] == ids[q] && k >= 1 && sim(PROBE.r, PROBE.o) < sim(PROBE.r, PROBE.r)
    ensures AllUnit(TwoAlike(|ids|, p, q))
    ensures KnnEdge(ids[p], ids[p], sim(PROBE.r, PROBE.r)) in Derived(ids, TwoAlike(|ids|, p, q), sim, k)
  {
    TwoAlikeAreUnit(|ids|, p, q);
    AlikeIsBest(ids, sim, p, q);
    FirstEdgeIsDerived(ids, TwoAlike(|ids|, p, q), sim, k, p);
  }

  /** Under every metric, no vectors for the given ids give an edge from an id to itself exactly
      when ids are distinct or no edges are asked for. */
  lemma NeverLoopsIff(ids: seq<NodeId>, k: nat, metric: DistanceMetric, sqrt: real -> real)
    requires IsSqrt(sqrt)
    ensures NeverLoops(ids, k, Sim(metric, sqrt)) <==> Distinct(ids) || k == 0
    ensures NeverLoopsOnUnitVectors(ids, k, Sim(metric, sqrt)) <==> Distinct(ids) || k == 0
  {
    var sim := Sim(metric, sqrt);
    if Distinct(ids) || k == 0 {
      forall vecs, e | |vecs| == |ids| && e in Derived(ids, vecs, sim, k) ensures e.src != e.dst {
        if Distinct(ids) {
          DerivedMeaning(ids, vecs, sim, k, e);
        } else {
          NothingToDerive(ids, vecs, sim, k, |ids|);
        }
      }
    } else {
      var p, q :| 0 <= p < q < |ids| && ids[p] == ids[q];
      AlikeIsCloser(metric, sqrt);
      RepeatLoops(ids, k, sim, p, q);
    }
  }
}
