/** What the order of the input can change, and what it cannot. */
module KnnOrder {
  import opened Ordering
  import opened RealVectors
  import opened KnnEdges
  import opened KnnGraph
  import HnswIndex

  // ---------- sums of bags over a list ----------

  ghost function Sum<A(!new), B>(f: A -> multiset<B>, s: seq<A>): multiset<B> {
    if s == [] then multiset{} else Sum(f, s[..|s|-1]) + f(s[|s|-1])
  }

  lemma {:induction false} SumConcat<A(!new), B>(f: A -> multiset<B>, s: seq<A>, t: seq<A>)
    ensures Sum(f, s + t) == Sum(f, s) + Sum(f, t)
  {
    if t == [] {
      assert s + t == s;
    } else {
      assert (s + t)[..|s+t|-1] == s + t[..|t|-1];
      SumConcat(f, s, t[..|t|-1]);
    }
  }

  lemma SumSnoc<A(!new), B>(f: A -> multiset<B>, s: seq<A>, x: A)
    ensures Sum(f, s + [x]) == Sum(f, s) + f(x)
  {
    assert (s + [x])[..|s|] == s;
  }

  lemma SumOfThree<A(!new), B>(f: A -> multiset<B>, a: seq<A>, x: A, b: seq<A>)
    ensures Sum(f, a + [x] + b) == Sum(f, a + b) + f(x)
  {
    SumConcat(f, a + [x], b);
    SumSnoc(f, a, x);
    SumConcat(f, a, b);
  }

  lemma {:induction false} SumIgnoresOrder<A(!new), B>(f: A -> multiset<B>, s: seq<A>, t: seq<A>)
    requires multiset(s) == multiset(t)
    ensures Sum(f, s) == Sum(f, t)
    decreases |s|
  {
    if s == [] {
      assert |multiset(t)| == 0;
    } else {
      var front, last := s[..|s|-1], s[|s|-1];
      var a, b := TakeOut(s, t);
      SumIgnoresOrder(f, front, a + b);
      SumOfThree(f, a, last, b);
    }
  }

  // ---------- one source ----------

  type Pair = (NodeId, Vec)

  ghost function ScoreBag(sim: Similarity, v: Vec): Pair -> multiset<Scored> {
    (p: Pair) => multiset{(sim(v, p.1), p.0)}
  }

  lemma PrefixOfPairs(ids: seq<NodeId>, vecs: seq<Vec>, j: nat)
    requires |ids| == |vecs| && 0 < j <= |ids|
    ensures Pairs(ids, vecs)[..j] == Pairs(ids, vecs)[..j-1] + [(ids[j-1], vecs[j-1])]
  {
  }

  ghost function Own(ids: seq<NodeId>, vecs: seq<Vec>, sim: Similarity, i: nat): Scored
    requires |ids| == |vecs| && i < |ids|
  {
    (sim(vecs[i], vecs[i]), ids[i])
  }

  ghost function IfPast(i: nat, j: nat, x: Scored): multiset<Scored> {
    if i < j then multiset{x} else multiset{}
  }

  lemma BagStep(a: multiset<Scored>, b: multiset<Scored>, own: Scored, next: Scored, i: nat, j: nat)
    requires j > 0 && a + IfPast(i, j - 1, own) == b && (i == j - 1 ==> next == own)
    ensures a + (if j - 1 == i then multiset{} else multiset{next}) + IfPast(i, j, own) == b + multiset{next}
  {
  }

  lemma ScoredStep(ids: seq<NodeId>, vecs: seq<Vec>, sim: Similarity, i: nat, j: nat)
    requires |ids| == |vecs| && i < |ids| && 0 < j <= |ids|
    ensures multiset(ScoredTo(ids, vecs, sim, i, j)) == multiset(ScoredTo(ids, vecs, sim, i, j - 1))
          + if j - 1 == i then multiset{} else multiset{(sim(vecs[i], vecs[j-1]), ids[j-1])}
  {
  }

  /** The scratch list holds the scores of all pairs but the source's own. */
  lemma {:induction false} ScoredIsSum(ids: seq<NodeId>, vecs: seq<Vec>, sim: Similarity, i: nat, j: nat)
    requires |ids| == |vecs| && i < |ids| && j <= |ids|
    ensures multiset(ScoredTo(ids, vecs, sim, i, j)) + IfPast(i, j, Own(ids, vecs, sim, i))
         == Sum(ScoreBag(sim, vecs[i]), Pairs(ids, vecs)[..j])
    decreases j
  {
    if j > 0 {
      var f, ps := ScoreBag(sim, vecs[i]), Pairs(ids, vecs);
      ScoredIsSum(ids, vecs, sim, i, j - 1);
      PrefixOfPairs(ids, vecs, j);
      SumSnoc(f, ps[..j-1], (ids[j-1], vecs[j-1]));
      ScoredStep(ids, vecs, sim, i, j);
      BagStep(multiset(ScoredTo(ids, vecs, sim, i, j - 1)), Sum(f, ps[..j-1]), Own(ids, vecs, sim, i),
              (sim(vecs[i], vecs[j-1]), ids[j-1]), i, j);
    }
  }

  /** The out-edges of a pair depend on the bag of all pairs only. */
  lemma SameOutEdges(ids: seq<NodeId>, vecs: seq<Vec>, ids': seq<NodeId>, vecs': seq<Vec>,
                     sim: Similarity, k: nat, i: nat, i': nat)
    requires |ids| == |vecs| && |ids'| == |vecs'| && i < |ids| && i' < |ids'|
    requires multiset(Pairs(ids, vecs)) == multiset(Pairs(ids', vecs'))
    requires ids[i] == ids'[i'] && vecs[i] == vecs'[i']
    ensures OutEdges(ids, vecs, sim, k, i) == OutEdges(ids', vecs', sim, k, i')
  {
    var n, n', f := |ids|, |ids'|, ScoreBag(sim, vecs[i]);
    ScoredIsSum(ids, vecs, sim, i, n);
    ScoredIsSum(ids', vecs', sim, i', n');
    assert Pairs(ids, vecs)[..n] == Pairs(ids, vecs) && Pairs(ids', vecs')[..n'] == Pairs(ids', vecs');
    SumIgnoresOrder(f, Pairs(ids, vecs), Pairs(ids', vecs'));
    SameRest(multiset(ScoredTo(ids, vecs, sim, i, n)), multiset(ScoredTo(ids', vecs', sim, i', n')),
             multiset{Own(ids, vecs, sim, i)});
    CloserFirstIsTotal();
    SortIsCanonical(CloserFirst, ScoredTo(ids, vecs, sim, i, n), ScoredTo(ids', vecs', sim, i', n'));
  }

  // ---------- all sources ----------

  ghost predicate IsRow(ids: seq<NodeId>, vecs: seq<Vec>, p: Pair, i: nat)
    requires |ids| == |vecs|
  {
    i < |ids| && p == (ids[i], vecs[i])
  }

  /** The out-edges of any row that holds the pair. */
  ghost function EdgeBag(ids: seq<NodeId>, vecs: seq<Vec>, sim: Similarity, k: nat): Pair -> multiset<KnnEdge>
    requires |ids| == |vecs|
  {
    (p: Pair) =>
      if exists i: nat :: IsRow(ids, vecs, p, i) then
        var i: nat :| IsRow(ids, vecs, p, i); multiset(OutEdges(ids, vecs, sim, k, i))
      else multiset{}
  }

  lemma EdgeBagIs(ids: seq<NodeId>, vecs: seq<Vec>, ids': seq<NodeId>, vecs': seq<Vec>,
                  sim: Similarity, k: nat, i': nat)
    requires |ids| == |vecs| && |ids'| == |vecs'| && i' < |ids'|
    requires multiset(Pairs(ids, vecs)) == multiset(Pairs(ids', vecs'))
    ensures EdgeBag(ids, vecs, sim, k)((ids'[i'], vecs'[i'])) == multiset(OutEdges(ids', vecs', sim, k, i'))
  {
    var p := (ids'[i'], vecs'[i']);
    assert Pairs(ids', vecs')[i'] == p;
    SameMembers(Pairs(ids, vecs), Pairs(ids', vecs'), p);
    var j: nat :| j < |ids| && Pairs(ids, vecs)[j] == p;
    assert IsRow(ids, vecs, p, j);
    forall i: nat | IsRow(ids, vecs, p, i)
      ensures OutEdges(ids, vecs, sim, k, i) == OutEdges(ids', vecs', sim, k, i')
    {
      SameOutEdges(ids, vecs, ids', vecs', sim, k, i, i');
    }
  }

  lemma {:induction false} RawIsSum(ids: seq<NodeId>, vecs: seq<Vec>, ids': seq<NodeId>, vecs': seq<Vec>,
                                    sim: Similarity, k: nat, n: nat)
    requires |ids| == |vecs| && |ids'| == |vecs'| && n <= |ids'|
    requires multiset(Pairs(ids, vecs)) == multiset(Pairs(ids', vecs'))
    ensures multiset(RawEdges(ids', vecs', sim, k, n)) == Sum(EdgeBag(ids, vecs, sim, k), Pairs(ids', vecs')[..n])
    decreases n
  {
    if n > 0 {
      RawIsSum(ids, vecs, ids', vecs', sim, k, n - 1);
      PrefixOfPairs(ids', vecs', n);
      SumSnoc(EdgeBag(ids, vecs, sim, k), Pairs(ids', vecs')[..n-1], (ids'[n-1], vecs'[n-1]));
      EdgeBagIs(ids, vecs, ids', vecs', sim, k, n - 1);
    }
  }

  /** Re-derivation in any order gives the same edges with the same weights, even when ids
      repeat. */
  lemma SameEdgesInAnyOrder(ids: seq<NodeId>, vecs: seq<Vec>, ids': seq<NodeId>, vecs': seq<Vec>,
                            sim: Similarity, k: nat)
    requires |ids| == |vecs| && |ids'| == |vecs'|
    requires multiset(Pairs(ids, vecs)) == multiset(Pairs(ids', vecs'))
    ensures multiset(Derived(ids, vecs, sim, k)) == multiset(Derived(ids', vecs', sim, k))
  {
    var f, n, n' := EdgeBag(ids, vecs, sim, k), |ids|, |ids'|;
    RawIsSum(ids, vecs, ids, vecs, sim, k, n);
    RawIsSum(ids, vecs, ids', vecs', sim, k, n');
    assert Pairs(ids, vecs)[..n] == Pairs(ids, vecs) && Pairs(ids', vecs')[..n'] == Pairs(ids', vecs');
    SumIgnoresOrder(f, Pairs(ids, vecs), Pairs(ids', vecs'));
    SortKeeps(EdgeBefore, RawEdges(ids, vecs, sim, k, n));
    SortKeeps(EdgeBefore, RawEdges(ids', vecs', sim, k, n'));
  }

  // ---------- edges of a built index ----------

  ghost function RowBag(dim: nat): HnswIndex.Entry -> multiset<HnswIndex.Row> {
    (e: HnswIndex.Entry) =>
      if HnswIndex.Kept(e, dim) then multiset{HnswIndex.Row(e.id, e.embed.value)} else multiset{}
  }

  lemma {:induction false} RowsAreSum(entries: seq<HnswIndex.Entry>, dim: nat)
    ensures multiset(HnswIndex.KeptRows(entries, dim)) == Sum(RowBag(dim), entries)
  {
    if entries != [] { RowsAreSum(entries[..|entries|-1], dim); }
  }

  ghost function PairBag(f: HnswIndex.Floats, sqrt: real -> real): HnswIndex.Row -> multiset<Pair> {
    (r: HnswIndex.Row) => multiset{(r.id, HnswIndex.PointOf(f, sqrt, r.embed))}
  }

  lemma {:induction false} PairsAreSum(f: HnswIndex.Floats, sqrt: real -> real, rows: seq<HnswIndex.Row>)
    ensures multiset(Pairs(HnswIndex.IdsOf(rows), HnswIndex.PointsOf(f, sqrt, rows))) == Sum(PairBag(f, sqrt), rows)
  {
    if rows != [] {
      var front, last := rows[..|rows|-1], rows[|rows|-1];
      PairsAreSum(f, sqrt, front);
      assert Pairs(HnswIndex.IdsOf(rows), HnswIndex.PointsOf(f, sqrt, rows))
          == Pairs(HnswIndex.IdsOf(front), HnswIndex.PointsOf(f, sqrt, front))
             + [(last.id, HnswIndex.PointOf(f, sqrt, last.embed))];
    }
  }

  function IndexEdges(x: HnswIndex.VectorIndex, k: nat, sqrt: real -> real): seq<KnnEdge>
    requires HnswIndex.Aligned(x)
  {
    Derived(x.ids, x.points, Sim(Cosine, sqrt), k)
  }

  /** One of the k nearest by dot product, the smaller id first among equals; the dot product is
      the weight. */
  ghost predicate IsNearest(P: Points, k: nat, e: KnnEdge) {
    && e.src in P && e.dst in P && e.src != e.dst && e.weight == Dot(P[e.src], P[e.dst])
    && |set r | r in P && r != e.src && (Dot(P[e.src], P[r]) > e.weight || (Dot(P[e.src], P[r]) == e.weight && r < e.dst))| < k
  }

  lemma NearestIsEdge(P: Points, k: nat, sqrt: real -> real, e: KnnEdge)
    ensures IsNearest(P, k, e) <==> IsEdge(P, Sim(Cosine, sqrt), k, e)
  {
    if e.src in P && e.dst in P {
      var sim := Sim(Cosine, sqrt);
      forall r | r in P ensures sim(P[e.src], P[r]) == Dot(P[e.src], P[r]) { SimMeans(Cosine, sqrt, P[e.src], P[r]); }
      if e.weight == Dot(P[e.src], P[e.dst]) {
        assert Rivals(P, sim, e.src, e.dst)
            == set r | r in P && r != e.src && (Dot(P[e.src], P[r]) > e.weight || (Dot(P[e.src], P[r]) == e.weight && r < e.dst));
      }
    }
  }

  /** The edges of an index over distinct ids, without reference to a sort or a metric. */
  lemma IndexEdgesAreNearest(x: HnswIndex.VectorIndex, k: nat, sqrt: real -> real)
    requires HnswIndex.Aligned(x) && Distinct(x.ids)
    ensures InOrder(IndexEdges(x, k, sqrt))
    ensures forall e :: e in IndexEdges(x, k, sqrt) <==> IsNearest(PointsOf(x.ids, x.points), k, e)
  {
    DerivedIsKnnGraph(x.ids, x.points, Sim(Cosine, sqrt), k);
    forall e ensures e in IndexEdges(x, k, sqrt) <==> IsNearest(PointsOf(x.ids, x.points), k, e) {
      NearestIsEdge(PointsOf(x.ids, x.points), k, sqrt, e);
    }
  }

  method DeriveKnnEdges(x: HnswIndex.VectorIndex, k: nat, sqrt: real -> real) returns (edges: seq<KnnEdge>)
    requires HnswIndex.Aligned(x)
    ensures edges == IndexEdges(x, k, sqrt)
    ensures Distinct(x.ids) ==> InOrder(edges) && forall e :: e in edges <==> IsNearest(PointsOf(x.ids, x.points), k, e)
  {
    if Distinct(x.ids) { IndexEdgesAreNearest(x, k, sqrt); }
    var ids: seq<NodeId>, vecs: seq<Vec> := [], [];
    for i := 0 to |x.ids|
      invariant ids == x.ids[..i] && vecs == x.points[..i]
    {
      ids, vecs := ids + [x.ids[i]], vecs + [x.points[i]];
    }
    assert ids == x.ids && vecs == x.points;
    edges := DeriveKnnEdgesFromVectors(ids, vecs, k, Cosine, sqrt);
  }

  /** Two builds over the same nodes in different orders, agreeing on the dimension the first
      embedding fixes, give the same edges, and the same list when ids are distinct. */
  lemma EdgesIgnoreCursorOrder(f: HnswIndex.Floats, sqrt: real -> real,
                               entries: seq<HnswIndex.Entry>, entries': seq<HnswIndex.Entry>,
                               x: HnswIndex.VectorIndex, y: HnswIndex.VectorIndex, k: nat)
    requires multiset(entries) == multiset(entries') && HnswIndex.FirstDim(entries) == HnswIndex.FirstDim(entries')
    requires HnswIndex.BuiltFrom(f, sqrt, entries, HnswIndex.FirstDim(entries), x.ids, x.points)
    requires HnswIndex.BuiltFrom(f, sqrt, entries', HnswIndex.FirstDim(entries'), y.ids, y.points)
    ensures HnswIndex.Aligned(x) && HnswIndex.Aligned(y)
    ensures multiset(IndexEdges(x, k, sqrt)) == multiset(IndexEdges(y, k, sqrt))
    ensures Distinct(x.ids) ==> IndexEdges(x, k, sqrt) == IndexEdges(y, k, sqrt)
  {
    var dim := HnswIndex.FirstDim(entries);
    if dim.Some? {
      var rows, rows' := HnswIndex.KeptRows(entries, dim.value), HnswIndex.KeptRows(entries', dim.value);
      RowsAreSum(entries, dim.value);
      RowsAreSum(entries', dim.value);
      SumIgnoresOrder(RowBag(dim.value), entries, entries');
      PairsAreSum(f, sqrt, rows);
      PairsAreSum(f, sqrt, rows');
      SumIgnoresOrder(PairBag(f, sqrt), rows, rows');
    }
    SameEdgesInAnyOrder(x.ids, x.points, y.ids, y.points, Sim(Cosine, sqrt), k);
    if Distinct(x.ids) { DerivationIsCanonical(x.ids, x.points, y.ids, y.points, Sim(Cosine, sqrt), k); }
  }
}
