/** What a derived edge list means: the k-nearest-neighbour graph, defined by counting
    rivals and without any sort, and the properties the derivation inherits from it. */
module KnnGraph {
  import opened Ordering
  import opened RealVectors
  import opened KnnEdges

  type Points = map<NodeId, Vec>

  ghost function PointsOf(ids: seq<NodeId>, vecs: seq<Vec>): (P: Points)
    requires |ids| == |vecs| && Distinct(ids)
    ensures forall i :: 0 <= i < |ids| ==> ids[i] in P && P[ids[i]] == vecs[i]
    ensures forall d :: d in P ==> d in ids
  {
    if ids == [] then map[]
    else PointsOf(ids[..|ids|-1], vecs[..|ids|-1])[ids[|ids|-1] := vecs[|ids|-1]]
  }

  ghost function ScoreOf(P: Points, sim: Similarity, s: NodeId, d: NodeId): Scored
    requires s in P && d in P
  {
    (sim(P[s], P[d]), d)
  }

  /** Candidates that outrank d as a neighbour of s: closer, or as close with a smaller id. */
  ghost function Rivals(P: Points, sim: Similarity, s: NodeId, d: NodeId): set<NodeId>
    requires s in P && d in P
  {
    set e | e in P && e != s
            && (sim(P[s], P[e]) > sim(P[s], P[d]) || (sim(P[s], P[e]) == sim(P[s], P[d]) && e < d))
  }

  ghost predicate IsNeighbour(P: Points, sim: Similarity, k: nat, s: NodeId, d: NodeId) {
    s in P && d in P && s != d && |Rivals(P, sim, s, d)| < k
  }

  ghost predicate IsEdge(P: Points, sim: Similarity, k: nat, e: KnnEdge) {
    IsNeighbour(P, sim, k, e.src, e.dst) && e.weight == sim(P[e.src], P[e.dst])
  }

  // ---------- orders ----------

  lemma CloserFirstIsTotal()
    ensures StrictTotal(CloserFirst)
  {
  }

  lemma EdgeBeforeIsWeak()
    ensures WeakOrder(EdgeBefore)
  {
  }

  // ---------- one source ----------

  lemma {:induction false} ScoredMembers(ids: seq<NodeId>, vecs: seq<Vec>, sim: Similarity, i: nat, n: nat)
    requires |ids| == |vecs| && i < |ids| && n <= |ids| && Distinct(ids)
    ensures forall x :: x in ScoredTo(ids, vecs, sim, i, n) <==>
                        exists j: nat :: j < n && j != i && x == (sim(vecs[i], vecs[j]), ids[j])
    ensures Distinct(ScoredTo(ids, vecs, sim, i, n))
  {
    if n > 0 {
      ScoredMembers(ids, vecs, sim, i, n - 1);
      var prev, x := ScoredTo(ids, vecs, sim, i, n - 1), (sim(vecs[i], vecs[n-1]), ids[n-1]);
      assert x !in prev by {
        assert forall y :: y in prev ==> y.1 in ids[..n-1];
        assert x.1 !in ids[..n-1];
      }
    }
  }

  lemma ScoredById(ids: seq<NodeId>, vecs: seq<Vec>, sim: Similarity, i: nat, x: Scored)
    requires |ids| == |vecs| && i < |ids| && Distinct(ids)
    ensures x in Ranked(ids, vecs, sim, i) <==>
            x.1 in PointsOf(ids, vecs) && x.1 != ids[i] && x == ScoreOf(PointsOf(ids, vecs), sim, ids[i], x.1)
  {
    var P, scored := PointsOf(ids, vecs), ScoredTo(ids, vecs, sim, i, |ids|);
    ScoredMembers(ids, vecs, sim, i, |ids|);
    SortKeeps(CloserFirst, scored);
    SameMembers(scored, Ranked(ids, vecs, sim, i), x);
    assert P[ids[i]] == vecs[i];
    if x.1 in P {
      var j :| 0 <= j < |ids| && ids[j] == x.1;
      assert P[ids[j]] == vecs[j];
    }
  }

  lemma RankedIsStrict(ids: seq<NodeId>, vecs: seq<Vec>, sim: Similarity, i: nat)
    requires |ids| == |vecs| && i < |ids| && Distinct(ids)
    ensures StrictlySorted(CloserFirst, Ranked(ids, vecs, sim, i))
    ensures Distinct(Ranked(ids, vecs, sim, i))
  {
    var scored := ScoredTo(ids, vecs, sim, i, |ids|);
    CloserFirstIsTotal();
    TotalIsWeak(CloserFirst);
    SortSorts(CloserFirst, scored);
    SortKeeps(CloserFirst, scored);
    ScoredMembers(ids, vecs, sim, i, |ids|);
    DistinctByMultiset(scored, Ranked(ids, vecs, sim, i));
    SortedDistinctIsStrict(CloserFirst, Ranked(ids, vecs, sim, i));
  }

  lemma {:induction false} IdsSize(s: set<Scored>)
    requires forall x, y :: x in s && y in s && x.1 == y.1 ==> x == y
    ensures |set x | x in s :: x.1| == |s|
  {
    var image := set x | x in s :: x.1;
    if s == {} {
      assert image == {};
    } else {
      var x :| x in s;
      IdsSize(s - {x});
      var rest := set y | y in s - {x} :: y.1;
      assert x.1 !in rest;
      assert image == rest + {x.1};
    }
  }

  lemma PredecessorIsRival(ids: seq<NodeId>, vecs: seq<Vec>, sim: Similarity, i: nat, x: Scored, y: Scored)
    requires |ids| == |vecs| && i < |ids| && Distinct(ids)
    requires x in Ranked(ids, vecs, sim, i)
    ensures x.1 in PointsOf(ids, vecs)
    ensures y in Predecessors(CloserFirst, Ranked(ids, vecs, sim, i), x) <==>
            y.1 in Rivals(PointsOf(ids, vecs), sim, ids[i], x.1) && y == ScoreOf(PointsOf(ids, vecs), sim, ids[i], y.1)
  {
    ScoredById(ids, vecs, sim, i, x);
    ScoredById(ids, vecs, sim, i, y);
  }

  /** Rank in the sorted score list is the number of rivals. */
  lemma RankIsRivalCount(ids: seq<NodeId>, vecs: seq<Vec>, sim: Similarity, i: nat, x: Scored)
    requires |ids| == |vecs| && i < |ids| && Distinct(ids)
    requires x in Ranked(ids, vecs, sim, i)
    ensures x.1 in PointsOf(ids, vecs)
    ensures |Predecessors(CloserFirst, Ranked(ids, vecs, sim, i), x)|
         == |Rivals(PointsOf(ids, vecs), sim, ids[i], x.1)|
  {
    ScoredById(ids, vecs, sim, i, x);
    var P, ranked := PointsOf(ids, vecs), Ranked(ids, vecs, sim, i);
    var before, rivals := Predecessors(CloserFirst, ranked, x), Rivals(P, sim, ids[i], x.1);
    forall y: Scored ensures y in before <==> y.1 in rivals && y == ScoreOf(P, sim, ids[i], y.1) {
      PredecessorIsRival(ids, vecs, sim, i, x, y);
    }
    var image := set y | y in before :: y.1;
    forall e | e in rivals ensures e in image {
      assert ScoreOf(P, sim, ids[i], e) in before;
    }
    assert image == rivals;
    IdsSize(before);
  }

  lemma InEdgesOf(src: NodeId, ranked: seq<Scored>, e: KnnEdge)
    ensures e in EdgesOf(src, ranked) <==> e.src == src && (e.weight, e.dst) in ranked
  {
    var out := EdgesOf(src, ranked);
    if e.src == src && (e.weight, e.dst) in ranked {
      var t :| 0 <= t < |ranked| && ranked[t] == (e.weight, e.dst);
      assert out[t] == e;
    }
  }

  lemma OutEdgeMeaning(ids: seq<NodeId>, vecs: seq<Vec>, sim: Similarity, k: nat, i: nat, e: KnnEdge)
    requires |ids| == |vecs| && i < |ids| && Distinct(ids)
    ensures e in OutEdges(ids, vecs, sim, k, i) <==> e.src == ids[i] && IsEdge(PointsOf(ids, vecs), sim, k, e)
  {
    var ranked, x := Ranked(ids, vecs, sim, i), (e.weight, e.dst);
    var kk := Min(k, |ranked|);
    RankedIsStrict(ids, vecs, sim, i);
    CloserFirstIsTotal();
    InEdgesOf(ids[i], ranked[..kk], e);
    ScoredById(ids, vecs, sim, i, x);
    TakeIsLowRank(CloserFirst, ranked, kk, x);
    if x in ranked {
      RankIsRivalCount(ids, vecs, sim, i, x);
      var t :| 0 <= t < |ranked| && ranked[t] == x;
      PositionIsRank(CloserFirst, ranked, t);
    }
  }

  lemma OutEdgesDistinct(ids: seq<NodeId>, vecs: seq<Vec>, sim: Similarity, k: nat, i: nat)
    requires |ids| == |vecs| && i < |ids| && Distinct(ids)
    ensures Distinct(OutEdges(ids, vecs, sim, k, i))
  {
    RankedIsStrict(ids, vecs, sim, i);
  }

  // ---------- the whole list ----------

  lemma {:induction false} InRawEdges(ids: seq<NodeId>, vecs: seq<Vec>, sim: Similarity, k: nat, n: nat, e: KnnEdge)
    requires |ids| == |vecs| && n <= |ids|
    ensures e in RawEdges(ids, vecs, sim, k, n) <==> exists i: nat :: i < n && e in OutEdges(ids, vecs, sim, k, i)
    decreases n
  {
    if n > 0 { InRawEdges(ids, vecs, sim, k, n - 1, e); }
  }

  lemma RawEdgeMeaning(ids: seq<NodeId>, vecs: seq<Vec>, sim: Similarity, k: nat, n: nat, e: KnnEdge)
    requires |ids| == |vecs| && n <= |ids| && Distinct(ids)
    ensures e in RawEdges(ids, vecs, sim, k, n) <==> e.src in ids[..n] && IsEdge(PointsOf(ids, vecs), sim, k, e)
  {
    InRawEdges(ids, vecs, sim, k, n, e);
    if i: nat :| i < n && e in OutEdges(ids, vecs, sim, k, i) {
      OutEdgeMeaning(ids, vecs, sim, k, i, e);
      assert ids[..n][i] == e.src;
    }
    if e.src in ids[..n] {
      var i: nat :| i < n && ids[..n][i] == e.src;
      OutEdgeMeaning(ids, vecs, sim, k, i, e);
    }
  }

  lemma {:induction false} RawDistinct(ids: seq<NodeId>, vecs: seq<Vec>, sim: Similarity, k: nat, n: nat)
    requires |ids| == |vecs| && n <= |ids| && Distinct(ids)
    ensures Distinct(RawEdges(ids, vecs, sim, k, n))
  {
    if n > 0 {
      var prev, out := RawEdges(ids, vecs, sim, k, n - 1), OutEdges(ids, vecs, sim, k, n - 1);
      RawDistinct(ids, vecs, sim, k, n - 1);
      OutEdgesDistinct(ids, vecs, sim, k, n - 1);
      forall e | e in prev ensures e !in out {
        RawEdgeMeaning(ids, vecs, sim, k, n - 1, e);
        OutEdgeMeaning(ids, vecs, sim, k, n - 1, e);
      }
      DistinctConcat(prev, out);
    }
  }

  lemma DistinctConcat<T>(s: seq<T>, t: seq<T>)
    requires Distinct(s) && Distinct(t) && forall x :: x in s ==> x !in t
    ensures Distinct(s + t)
  {
    forall i, j | 0 <= i < j < |s + t| ensures (s + t)[i] != (s + t)[j] {
      if i < |s| <= j {
        assert s[i] in s && t[j-|s|] in t;
      }
    }
  }

  lemma OneMoreRow(n: int, m: int)
    ensures n * m == (n - 1) * m + m
  {
  }

  lemma {:induction false} RawLength(ids: seq<NodeId>, vecs: seq<Vec>, sim: Similarity, k: nat, n: nat, m: nat)
    requires |ids| == |vecs| && n <= |ids| && m == Min(k, if ids == [] then 0 else |ids| - 1)
    ensures |RawEdges(ids, vecs, sim, k, n)| == n * m
    decreases n
  {
    if n > 0 {
      RawLength(ids, vecs, sim, k, n - 1, m);
      RankedLength(ids, vecs, sim, n - 1);
      OneMoreRow(n, m);
    }
  }

  /** The number of edges, also when ids repeat. */
  lemma EdgeCount(ids: seq<NodeId>, vecs: seq<Vec>, sim: Similarity, k: nat)
    requires |ids| == |vecs|
    ensures |Derived(ids, vecs, sim, k)| == |ids| * Min(k, if ids == [] then 0 else |ids| - 1)
  {
    RawLength(ids, vecs, sim, k, |ids|, Min(k, if ids == [] then 0 else |ids| - 1));
    SortKeeps(EdgeBefore, RawEdges(ids, vecs, sim, k, |ids|));
  }

  /** By source, and by destination within a source. */
  ghost predicate InOrder(edges: seq<KnnEdge>) {
    forall i, j :: 0 <= i < j < |edges| ==>
      edges[i].src < edges[j].src || (edges[i].src == edges[j].src && edges[i].dst < edges[j].dst)
  }

  /** The derived list is strictly increasing in (src, dst), and holds exactly the edges
      of the rival-counting graph, n * min(k, n - 1) of them. */
  lemma DerivedIsKnnGraph(ids: seq<NodeId>, vecs: seq<Vec>, sim: Similarity, k: nat)
    requires |ids| == |vecs| && Distinct(ids)
    ensures StrictlySorted(EdgeBefore, Derived(ids, vecs, sim, k)) && InOrder(Derived(ids, vecs, sim, k))
    ensures forall e :: e in Derived(ids, vecs, sim, k) <==> IsEdge(PointsOf(ids, vecs), sim, k, e)
    ensures |Derived(ids, vecs, sim, k)| == |ids| * Min(k, if ids == [] then 0 else |ids| - 1)
  {
    var sorted := Derived(ids, vecs, sim, k);
    EdgeCount(ids, vecs, sim, k);
    forall e ensures e in sorted <==> IsEdge(PointsOf(ids, vecs), sim, k, e) { DerivedMeaning(ids, vecs, sim, k, e); }
    DerivedIsSorted(ids, vecs, sim, k);
    forall i, j | 0 <= i < j < |sorted| ensures EdgeBefore(sorted[i], sorted[j]) {
      assert sorted[i] in sorted && sorted[j] in sorted && sorted[i] != sorted[j];
    }
  }

  lemma DerivedMeaning(ids: seq<NodeId>, vecs: seq<Vec>, sim: Similarity, k: nat, e: KnnEdge)
    requires |ids| == |vecs| && Distinct(ids)
    ensures e in Derived(ids, vecs, sim, k) <==> IsEdge(PointsOf(ids, vecs), sim, k, e)
  {
    var raw := RawEdges(ids, vecs, sim, k, |ids|);
    RawEdgeMeaning(ids, vecs, sim, k, |ids|, e);
    assert ids[..|ids|] == ids;
    SortKeeps(EdgeBefore, raw);
    SameMembers(raw, Derived(ids, vecs, sim, k), e);
  }

  lemma DerivedIsSorted(ids: seq<NodeId>, vecs: seq<Vec>, sim: Similarity, k: nat)
    requires |ids| == |vecs| && Distinct(ids)
    ensures Sorted(EdgeBefore, Derived(ids, vecs, sim, k)) && Distinct(Derived(ids, vecs, sim, k))
  {
    var raw := RawEdges(ids, vecs, sim, k, |ids|);
    RawDistinct(ids, vecs, sim, k, |ids|);
    EdgeBeforeIsWeak();
    SortSorts(EdgeBefore, raw);
    SortKeeps(EdgeBefore, raw);
    DistinctByMultiset(raw, Derived(ids, vecs, sim, k));
  }

  /** Re-derivation in any order of the (id, vector) pairs gives the identical list. */
  lemma DerivationIsCanonical(ids: seq<NodeId>, vecs: seq<Vec>, ids': seq<NodeId>, vecs': seq<Vec>,
                              sim: Similarity, k: nat)
    requires |ids| == |vecs| && |ids'| == |vecs'| && Distinct(ids)
    requires multiset(Pairs(ids, vecs)) == multiset(Pairs(ids', vecs'))
    ensures Distinct(ids')
    ensures Derived(ids, vecs, sim, k) == Derived(ids', vecs', sim, k)
  {
    PermutedPoints(ids, vecs, ids', vecs');
    DerivedIsKnnGraph(ids, vecs, sim, k);
    DerivedIsKnnGraph(ids', vecs', sim, k);
    StrictlySortedIsUnique(EdgeBefore, Derived(ids, vecs, sim, k), Derived(ids', vecs', sim, k));
  }

  ghost function Pairs(ids: seq<NodeId>, vecs: seq<Vec>): (r: seq<(NodeId, Vec)>)
    requires |ids| == |vecs|
    ensures |r| == |ids|
  {
    seq(|ids|, i requires 0 <= i < |ids| => (ids[i], vecs[i]))
  }

  lemma PermutedPoints(ids: seq<NodeId>, vecs: seq<Vec>, ids': seq<NodeId>, vecs': seq<Vec>)
    requires |ids| == |vecs| && |ids'| == |vecs'| && Distinct(ids)
    requires multiset(Pairs(ids, vecs)) == multiset(Pairs(ids', vecs'))
    ensures Distinct(ids') && PointsOf(ids, vecs) == PointsOf(ids', vecs')
  {
    var p, p' := Pairs(ids, vecs), Pairs(ids', vecs');
    DistinctByMultiset(p, p');
    forall i, j | 0 <= i < j < |ids'| ensures ids'[i] != ids'[j] {
      SameMembers(p, p', p'[i]);
      SameMembers(p, p', p'[j]);
      assert p'[i] in p' && p'[j] in p';
      assert p'[i] != p'[j];
    }
    var P, P' := PointsOf(ids, vecs), PointsOf(ids', vecs');
    forall d ensures d in P <==> d in P' {
      Paired(ids, vecs, ids', vecs', d);
      Paired(ids', vecs', ids, vecs, d);
    }
    forall d | d in P ensures P[d] == P'[d] {
      Paired(ids, vecs, ids', vecs', d);
    }
  }

  lemma Paired(ids: seq<NodeId>, vecs: seq<Vec>, ids': seq<NodeId>, vecs': seq<Vec>, d: NodeId)
    requires |ids| == |vecs| && |ids'| == |vecs'| && Distinct(ids) && Distinct(ids')
    requires multiset(Pairs(ids, vecs)) == multiset(Pairs(ids', vecs'))
    ensures d in PointsOf(ids, vecs) ==> d in PointsOf(ids', vecs') && PointsOf(ids, vecs)[d] == PointsOf(ids', vecs')[d]
  {
    if d in PointsOf(ids, vecs) {
      var i :| 0 <= i < |ids| && ids[i] == d;
      var p, p' := Pairs(ids, vecs), Pairs(ids', vecs');
      assert p[i] in p;
      SameMembers(p, p', p[i]);
      var j :| 0 <= j < |p'| && p'[j] == p[i];
      assert PointsOf(ids', vecs')[ids'[j]] == vecs'[j];
      assert PointsOf(ids, vecs)[ids[i]] == vecs[i];
    }
  }
}
