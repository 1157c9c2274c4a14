/** When ranking by the dot product, as the derivation does, and ranking by ascending distance,
    as its contract is worded (crates/mnem-ann/src/knn_edges.rs:23-33), choose the same pairs.
    A stored vector is a unit vector, or zero: normalising leaves a zero vector as it is. */
module KnnMetrics {
  import opened Ordering
  import opened RealVectors
  import opened KnnEdges
  import opened KnnGraph
  import opened KnnLaws
  import HnswIndex
  import HnswLaws

  ghost predicate Stored(v: Vec, dim: nat) {
    |v| == dim && (Unit(v) || IsZero(v))
  }

  ghost predicate StoredVectors(P: Points, dim: nat) {
    forall x :: x in P ==> Stored(P[x], dim)
  }

  /** Whatever was embedded, the points of a built index are of that kind. */
  lemma BuiltPointsAreStored(f: HnswIndex.Floats, sqrt: real -> real, entries: seq<HnswIndex.Entry>,
                             x: HnswIndex.VectorIndex, i: nat)
    requires IsSqrt(sqrt) && HnswIndex.BuiltFrom(f, sqrt, entries, HnswIndex.FirstDim(entries), x.ids, x.points)
    requires x.dim == if HnswIndex.FirstDim(entries).Some? then HnswIndex.FirstDim(entries).value else 0
    requires i < |x.points|
    ensures Stored(x.points[i], x.dim)
  {
    HnswLaws.BuiltIsAligned(f, sqrt, entries, x);
    var rows := HnswIndex.KeptRows(entries, x.dim);
    match HnswIndex.DecodeToF32(f, rows[i].embed)
    case None => assert x.points[i] == [];
    case Some(v) => HnswLaws.NormalisedIsUnitIff(v, sqrt);
  }

  // ---------- one pair against another ----------

  lemma DistanceOf(a: Vec, b: Vec, dim: nat)
    requires Stored(a, dim) && Stored(b, dim)
    ensures SqDist(a, b) == (if IsZero(a) then 0.0 else 1.0) + (if IsZero(b) then 0.0 else 1.0) - 2.0 * Dot(a, b)
    ensures IsZero(a) || IsZero(b) ==> Dot(a, b) == 0.0
    ensures 0.0 <= SqDist(a, b)
  {
    SqDistExpands(a, b, dim);
    SqDistNonNegative(a, b, dim);
    if IsZero(a) { ZeroDot(a, a, dim); ZeroDot(a, b, dim); }
    if IsZero(b) { ZeroDot(b, b, dim); ZeroDot(b, a, dim); }
  }

  lemma NearerIsMoreSimilar(sqrt: real -> real, a: Vec, b: Vec, c: Vec, d: Vec)
    requires IsSqrt(sqrt) && 0.0 <= SqDist(a, b) && 0.0 <= SqDist(c, d)
    ensures Sim(L2, sqrt)(a, b) > Sim(L2, sqrt)(c, d) <==> SqDist(a, b) < SqDist(c, d)
    ensures Sim(L2, sqrt)(a, b) == Sim(L2, sqrt)(c, d) <==> SqDist(a, b) == SqDist(c, d)
  {
    ReciprocalOrder(sqrt, SqDist(a, b), SqDist(c, d));
    ReciprocalOrder(sqrt, SqDist(c, d), SqDist(a, b));
  }

  /** Both metrics order b and c, seen from a, in the same way, ties included. */
  ghost predicate Alike(sqrt: real -> real, a: Vec, b: Vec, c: Vec) {
    && (Sim(Cosine, sqrt)(a, b) > Sim(Cosine, sqrt)(a, c) <==> Sim(L2, sqrt)(a, b) > Sim(L2, sqrt)(a, c))
    && (Sim(Cosine, sqrt)(a, b) == Sim(Cosine, sqrt)(a, c) <==> Sim(L2, sqrt)(a, b) == Sim(L2, sqrt)(a, c))
  }

  /** From a unit vector: both unit, both zero, or one zero and the other on the far side of
      it, or within sixty degrees. From the zero vector: both unit, or both zero. */
  ghost predicate MeetCondition(a: Vec, b: Vec, c: Vec) {
    || (IsZero(b) <==> IsZero(c))
    || (!IsZero(a) && (var d := if IsZero(b) then Dot(a, c) else Dot(a, b); d < 0.0 || 0.5 < d))
  }

  lemma RankAlikeIff(sqrt: real -> real, a: Vec, b: Vec, c: Vec, dim: nat)
    requires IsSqrt(sqrt) && Stored(a, dim) && Stored(b, dim) && Stored(c, dim)
    ensures Alike(sqrt, a, b, c) <==> MeetCondition(a, b, c)
  {
    DistanceOf(a, b, dim);
    DistanceOf(a, c, dim);
    NearerIsMoreSimilar(sqrt, a, b, a, c);
  }

  // ---------- whole graphs ----------

  ghost predicate SamePairs(P: Points, f: Similarity, g: Similarity) {
    forall k: nat, s, d :: IsNeighbour(P, f, k, s, d) <==> IsNeighbour(P, g, k, s, d)
  }

  ghost predicate SameOrder(P: Points, f: Similarity, g: Similarity, s: NodeId, b: NodeId, c: NodeId)
    requires s in P && b in P && c in P
  {
    CloserFirst(ScoreOf(P, f, s, b), ScoreOf(P, f, s, c)) <==> CloserFirst(ScoreOf(P, g, s, b), ScoreOf(P, g, s, c))
  }

  ghost predicate SameOrders(P: Points, f: Similarity, g: Similarity) {
    forall s, b, c :: s in P && b in P && c in P && b != s && c != s && b != c ==> SameOrder(P, f, g, s, b, c)
  }

  lemma OrderIsRivalCount(P: Points, f: Similarity, s: NodeId, b: NodeId, c: NodeId)
    requires s in P && b in P && c in P && b != s && c != s && b != c
    ensures CloserFirst(ScoreOf(P, f, s, b), ScoreOf(P, f, s, c)) <==> |Rivals(P, f, s, b)| < |Rivals(P, f, s, c)|
  {
    if CloserFirst(ScoreOf(P, f, s, b), ScoreOf(P, f, s, c)) {
      RivalsGrow(P, f, s, b, c);
    } else {
      RivalsGrow(P, f, s, c, b);
    }
  }

  lemma SameRivalCounts(P: Points, f: Similarity, g: Similarity, s: NodeId, d: NodeId)
    requires SamePairs(P, f, g) && s in P && d in P && s != d
    ensures |Rivals(P, f, s, d)| == |Rivals(P, g, s, d)|
  {
    var m, n := |Rivals(P, f, s, d)|, |Rivals(P, g, s, d)|;
    assert IsNeighbour(P, f, m + 1, s, d) && !IsNeighbour(P, f, m, s, d);
    assert IsNeighbour(P, g, n + 1, s, d) && !IsNeighbour(P, g, n, s, d);
    assert IsNeighbour(P, g, m + 1, s, d) && !IsNeighbour(P, g, m, s, d);
  }

  /** Two similarities choose the same pairs for every k exactly when every source orders
      every two others in the same way, ids breaking ties. */
  lemma SamePairsIff(P: Points, f: Similarity, g: Similarity)
    ensures SamePairs(P, f, g) <==> SameOrders(P, f, g)
  {
    if SamePairs(P, f, g) {
      forall s, b, c | s in P && b in P && c in P && b != s && c != s && b != c ensures SameOrder(P, f, g, s, b, c) {
        OrderIsRivalCount(P, f, s, b, c);
        OrderIsRivalCount(P, g, s, b, c);
        SameRivalCounts(P, f, g, s, b);
        SameRivalCounts(P, f, g, s, c);
      }
    }
    if SameOrders(P, f, g) {
      forall s, d | s in P && d in P && s != d ensures Rivals(P, f, s, d) == Rivals(P, g, s, d) {
        forall e | e in P ensures e in Rivals(P, f, s, d) <==> e in Rivals(P, g, s, d) {
          if e != s && e != d { assert SameOrder(P, f, g, s, e, d); }
        }
      }
    }
  }

  /** For stored vectors, ids breaking ties: u is a unit vector and z zero. */
  ghost predicate OrdersAgree(P: Points, s: NodeId, u: NodeId, z: NodeId)
    requires s in P && u in P
  {
    if IsZero(P[s]) then z < u
    else
      var d := Dot(P[s], P[u]);
      d < 0.0 || 0.5 < d || (d == 0.0 && z < u) || (d == 0.5 && u < z)
  }

  ghost predicate MetricCondition(P: Points) {
    forall s, u, z ::
      s in P && u in P && z in P && u != s && z != s && !IsZero(P[u]) && IsZero(P[z]) ==> OrdersAgree(P, s, u, z)
  }

  lemma SameOrderIff(P: Points, sqrt: real -> real, dim: nat, s: NodeId, b: NodeId, c: NodeId)
    requires IsSqrt(sqrt) && StoredVectors(P, dim) && s in P && b in P && c in P && b != c
    ensures SameOrder(P, Sim(Cosine, sqrt), Sim(L2, sqrt), s, b, c) <==>
              ((!IsZero(P[b]) && IsZero(P[c]) ==> OrdersAgree(P, s, b, c))
               && (IsZero(P[b]) && !IsZero(P[c]) ==> OrdersAgree(P, s, c, b)))
  {
    DistanceOf(P[s], P[b], dim);
    DistanceOf(P[s], P[c], dim);
    NearerIsMoreSimilar(sqrt, P[s], P[b], P[s], P[c]);
  }

  /** On stored vectors the dot product and the distance choose the same pairs for every k
      exactly when no zero vector stands where the two orders differ. */
  lemma MetricsAgreeIff(P: Points, sqrt: real -> real, dim: nat)
    requires IsSqrt(sqrt) && StoredVectors(P, dim)
    ensures SamePairs(P, Sim(Cosine, sqrt), Sim(L2, sqrt)) <==> MetricCondition(P)
  {
    var f, g := Sim(Cosine, sqrt), Sim(L2, sqrt);
    SamePairsIff(P, f, g);
    forall s, b, c | s in P && b in P && c in P && b != c
      ensures SameOrder(P, f, g, s, b, c) <==>
                ((!IsZero(P[b]) && IsZero(P[c]) ==> OrdersAgree(P, s, b, c))
                 && (IsZero(P[b]) && !IsZero(P[c]) ==> OrdersAgree(P, s, c, b)))
    {
      SameOrderIff(P, sqrt, dim, s, b, c);
    }
    if SameOrders(P, f, g) {
      forall s, u, z | s in P && u in P && z in P && u != s && z != s && !IsZero(P[u]) && IsZero(P[z])
        ensures OrdersAgree(P, s, u, z)
      {
        assert SameOrder(P, f, g, s, u, z);
      }
    }
  }

  // ---------- one input ----------

  ghost predicate Listed(ids: seq<NodeId>, vecs: seq<Vec>, sim: Similarity, k: nat, s: NodeId, d: NodeId)
    requires |ids| == |vecs|
  {
    exists w :: KnnEdge(s, d, w) in Derived(ids, vecs, sim, k)
  }

  lemma PairListed(ids: seq<NodeId>, vecs: seq<Vec>, sim: Similarity, k: nat, s: NodeId, d: NodeId)
    requires |ids| == |vecs| && Distinct(ids)
    ensures Listed(ids, vecs, sim, k, s, d) <==> IsNeighbour(PointsOf(ids, vecs), sim, k, s, d)
  {
    var P := PointsOf(ids, vecs);
    DerivedIsKnnGraph(ids, vecs, sim, k);
    if IsNeighbour(P, sim, k, s, d) { assert KnnEdge(s, d, sim(P[s], P[d])) in Derived(ids, vecs, sim, k); }
  }

  ghost predicate SameLists(ids: seq<NodeId>, vecs: seq<Vec>, f: Similarity, g: Similarity)
    requires |ids| == |vecs|
  {
    forall k: nat, s, d :: Listed(ids, vecs, f, k, s, d) <==> Listed(ids, vecs, g, k, s, d)
  }

  /** The derived lists of the two metrics hold the same (source, destination) pairs, for
      every k, exactly under that condition; unit vectors always meet it. */
  lemma MetricsAgree(ids: seq<NodeId>, vecs: seq<Vec>, sqrt: real -> real, dim: nat)
    requires |ids| == |vecs| && Distinct(ids) && IsSqrt(sqrt) && StoredVectors(PointsOf(ids, vecs), dim)
    ensures SameLists(ids, vecs, Sim(Cosine, sqrt), Sim(L2, sqrt)) <==> MetricCondition(PointsOf(ids, vecs))
    ensures (forall i :: 0 <= i < |vecs| ==> Unit(vecs[i])) ==> MetricCondition(PointsOf(ids, vecs))
  {
    var P, f, g := PointsOf(ids, vecs), Sim(Cosine, sqrt), Sim(L2, sqrt);
    MetricsAgreeIff(P, sqrt, dim);
    forall k: nat, s, d
      ensures Listed(ids, vecs, f, k, s, d) <==> IsNeighbour(P, f, k, s, d)
      ensures Listed(ids, vecs, g, k, s, d) <==> IsNeighbour(P, g, k, s, d)
    {
      PairListed(ids, vecs, f, k, s, d);
      PairListed(ids, vecs, g, k, s, d);
    }
    forall x | x in P && Unit(P[x]) ensures !IsZero(P[x]) { UnitIsNotZero(P[x]); }
    if forall i :: 0 <= i < |vecs| ==> Unit(vecs[i]) {
      forall x | x in P ensures Unit(P[x]) {
        var i :| 0 <= i < |ids| && ids[i] == x;
        assert P[ids[i]] == vecs[i];
      }
    }
  }

  lemma UnitIsNotZero(v: Vec)
    requires Unit(v)
    ensures !IsZero(v)
  {
    if IsZero(v) { ZeroDot(v, v, |v|); }
  }

  const SPLIT: seq<Vec> := [[1.0, 0.0], [0.28, 0.96], [0.0, 0.0]]

  lemma SplitDots()
    ensures Dot(SPLIT[0], SPLIT[1]) == 0.28 && Dot(SPLIT[0], SPLIT[2]) == 0.0
    ensures SqDist(SPLIT[0], SPLIT[1]) == 1.44 && SqDist(SPLIT[0], SPLIT[2]) == 1.0
  {
    var a, b, c := SPLIT[0], SPLIT[1], SPLIT[2];
    assert DotTo(a, b, 0) == 0.0 && DotTo(a, b, 1) == 0.28;
    assert DotTo(a, c, 0) == 0.0 && DotTo(a, c, 1) == 0.0;
    assert SqDistTo(a, b, 0) == 0.0 && SqDistTo(a, b, 1) == 0.72 * 0.72;
    assert SqDistTo(a, c, 0) == 0.0 && SqDistTo(a, c, 1) == 1.0;
  }

  lemma SplitNeighbours(P: Points, sqrt: real -> real)
    requires IsSqrt(sqrt) && P == map[1 := SPLIT[0], 2 := SPLIT[1], 3 := SPLIT[2]]
    ensures IsNeighbour(P, Sim(Cosine, sqrt), 1, 1, 2)
    ensures !IsNeighbour(P, Sim(L2, sqrt), 1, 1, 2) && IsNeighbour(P, Sim(L2, sqrt), 1, 1, 3)
  {
    SplitDots();
    NearerIsMoreSimilar(sqrt, P[1], P[3], P[1], P[2]);
    assert Rivals(P, Sim(Cosine, sqrt), 1, 2) == {} && Rivals(P, Sim(L2, sqrt), 1, 3) == {};
    assert 3 in Rivals(P, Sim(L2, sqrt), 1, 2);
  }

  lemma SplitPoints(ids: seq<NodeId>)
    requires ids == [1, 2, 3]
    ensures Distinct(ids) && PointsOf(ids, SPLIT) == map[1 := SPLIT[0], 2 := SPLIT[1], 3 := SPLIT[2]]
  {
    var P := PointsOf(ids, SPLIT);
    assert ids[0] == 1 && ids[1] == 2 && ids[2] == 3;
    assert P[1] == SPLIT[0] && P[2] == SPLIT[1] && P[3] == SPLIT[2];
  }

  /** Two unit vectors and a zero vector: for k = 1 the first one's neighbour is the second by
      the dot product, and the zero vector by the distance. */
  lemma ZeroVectorSplitsMetrics(sqrt: real -> real, ids: seq<NodeId>)
    requires IsSqrt(sqrt) && ids == [1, 2, 3]
    ensures Listed(ids, SPLIT, Sim(Cosine, sqrt), 1, 1, 2)
    ensures !Listed(ids, SPLIT, Sim(L2, sqrt), 1, 1, 2) && Listed(ids, SPLIT, Sim(L2, sqrt), 1, 1, 3)
  {
    SplitPoints(ids);
    SplitNeighbours(PointsOf(ids, SPLIT), sqrt);
    PairListed(ids, SPLIT, Sim(Cosine, sqrt), 1, 1, 2);
    PairListed(ids, SPLIT, Sim(L2, sqrt), 1, 1, 2);
    PairListed(ids, SPLIT, Sim(L2, sqrt), 1, 1, 3);
  }
}
