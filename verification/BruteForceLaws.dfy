/** The approximate index against the brute-force index built from the same cursor. */
module BruteForceLaws {
  import opened Options
  import opened Ordering
  import opened RealVectors
  import opened HnswIndex
  import opened HnswLaws
  import opened HnswContents
  import opened BruteForceIndex
  import KnnEdges
  import KnnGraph

  ghost predicate NoFault(entries: seq<Entry>) {
    forall i :: 0 <= i < |entries| ==> !BruteFaulty(entries[i])
  }

  /** What the brute-force build filters less: it looks at neither flag, and decodes every type. */
  predicate Plain(e: Entry) {
    e.Entry? && !e.tombstoned && !e.system && e.embed.Some? && (e.embed.value.dtype == F32 || e.embed.value.dtype == F64)
  }

  ghost predicate AllPlain(entries: seq<Entry>, dim: nat) {
    forall i :: 0 <= i < |entries| && BruteHolds(entries[i], dim) ==> Plain(entries[i])
  }

  lemma PlainIsKept(e: Entry, dim: nat)
    ensures Kept(e, dim) <==> BruteHolds(e, dim) && Plain(e)
  {
  }

  /** The rows of one dimension: a part of those the brute-force build keeps, and as many
      exactly when all of these are plain. */
  lemma {:induction false} SameRowsIfPlain(entries: seq<Entry>, dim: nat)
    ensures |KeptRows(entries, dim)| <= |BruteRows(entries, dim)|
    ensures |KeptRows(entries, dim)| == |BruteRows(entries, dim)| <==> AllPlain(entries, dim)
    ensures AllPlain(entries, dim) ==> KeptRows(entries, dim) == BruteRows(entries, dim)
  {
    if entries != [] {
      var front, last := entries[..|entries|-1], entries[|entries|-1];
      SameRowsIfPlain(front, dim);
      PlainIsKept(last, dim);
      AllPlainSnoc(front, last, dim);
      assert entries == front + [last];
    }
  }

  lemma AllPlainSnoc(front: seq<Entry>, last: Entry, dim: nat)
    ensures AllPlain(front + [last], dim) <==> AllPlain(front, dim) && (BruteHolds(last, dim) ==> Plain(last))
  {
    var all := front + [last];
    assert all[|front|] == last && forall i :: 0 <= i < |front| ==> all[i] == front[i];
  }

  lemma {:induction false} FirstEmbedIsHeld(entries: seq<Entry>) returns (i: nat)
    requires FirstEmbedDim(entries).Some? && NoFault(entries)
    ensures i < |entries| && BruteHolds(entries[i], FirstEmbedDim(entries).value)
    ensures forall j :: 0 <= j < i ==> !Embedded(entries[j])
  {
    var front, last := entries[..|entries|-1], entries[|entries|-1];
    assert NoFault(front) && !BruteFaulty(last);
    if FirstEmbedDim(front).Some? {
      i := FirstEmbedIsHeld(front);
      assert forall j :: 0 <= j < |front| ==> entries[j] == front[j];
    } else {
      i := |front|;
      NoEmbedding(front);
    }
  }

  lemma {:induction false} NoEmbedding(entries: seq<Entry>)
    requires FirstEmbedDim(entries) == None
    ensures forall j :: 0 <= j < |entries| ==> !Embedded(entries[j])
    ensures FirstDim(entries) == None
  {
    if entries != [] {
      var front := entries[..|entries|-1];
      NoEmbedding(front);
      assert forall j :: 0 <= j < |front| ==> entries[j] == front[j];
    }
  }

  lemma {:induction false} BruteRowIff(entries: seq<Entry>, dim: nat, row: Row)
    ensures row in BruteRows(entries, dim)
       <==> exists i :: 0 <= i < |entries| && BruteHolds(entries[i], dim) && row == Row(entries[i].id, entries[i].embed.value)
  {
    if entries != [] {
      var front, last := entries[..|entries|-1], entries[|entries|-1];
      BruteRowIff(front, dim, row);
      if i :| 0 <= i < |entries| && BruteHolds(entries[i], dim) && row == Row(entries[i].id, entries[i].embed.value) {
        if i < |front| { assert front[i] == entries[i]; }
      }
      if i :| 0 <= i < |front| && BruteHolds(front[i], dim) && row == Row(front[i].id, front[i].embed.value) {
        assert entries[i] == front[i];
      }
    }
  }

  lemma {:induction false} BruteIdsAreDistinct(entries: seq<Entry>, dim: nat)
    requires DistinctNodes(entries)
    ensures Distinct(IdsOf(BruteRows(entries, dim)))
  {
    if entries != [] {
      var front, last := entries[..|entries|-1], entries[|entries|-1];
      var rows := BruteRows(front, dim);
      assert DistinctNodes(front) by { assert forall i :: 0 <= i < |front| ==> front[i] == entries[i]; }
      BruteIdsAreDistinct(front, dim);
      if BruteHolds(last, dim) {
        forall i | 0 <= i < |rows| ensures rows[i].id != last.id {
          assert rows[i] in rows;
          BruteRowIff(front, dim, rows[i]);
          var j :| 0 <= j < |front| && BruteHolds(front[j], dim) && rows[i] == Row(front[j].id, front[j].embed.value);
          assert entries[j] == front[j];
        }
        assert (rows + [Row(last.id, last.embed.value)])[..|rows|] == rows;
      }
    }
  }

  lemma SamePoint(a: AllFloats, sqrt: real -> real, e: Embedding)
    requires Decodable(e)
    ensures PointOf(a.f, sqrt, e) == BrutePoint(a, sqrt, e)
  {
  }

  // ---------- when the two builds hold the same ----------

  lemma SamePoints(a: AllFloats, sqrt: real -> real, entries: seq<Entry>, dim: nat)
    ensures PointsOf(a.f, sqrt, KeptRows(entries, dim)) == BrutePoints(a, sqrt, KeptRows(entries, dim))
  {
    var rows := KeptRows(entries, dim);
    forall i | 0 <= i < |rows| ensures PointOf(a.f, sqrt, rows[i].embed) == BrutePoint(a, sqrt, rows[i].embed) {
      assert rows[i] in rows;
      IndexedIff(entries, dim, rows[i]);
      SamePoint(a, sqrt, rows[i].embed);
    }
  }

  lemma PlainHasSameDim(entries: seq<Entry>)
    requires NoFault(entries) && FirstEmbedDim(entries).Some? && AllPlain(entries, FirstEmbedDim(entries).value)
    ensures FirstDim(entries) == FirstEmbedDim(entries)
  {
    var i := FirstEmbedIsHeld(entries);
    assert Plain(entries[i]);
    FirstEligible(entries, i);
  }

  /** From one cursor without a fault, the two builds hold the same dimension, ids and points
      exactly when all that the brute-force build keeps is neither tombstoned nor a system node,
      and stored in one of the two types the other one decodes. */
  lemma SameIndexIff(a: AllFloats, sqrt: real -> real, entries: seq<Entry>, x: VectorIndex, b: VectorIndex)
    requires NoFault(entries) && IsBuild(a.f, sqrt, entries, x) && IsBruteBuild(a, sqrt, entries, b)
    ensures x.dim == b.dim && x.ids == b.ids && x.points == b.points <==> AllPlain(entries, b.dim)
  {
    if FirstEmbedDim(entries) == None {
      NoEmbedding(entries);
    } else {
      SameRowsIfPlain(entries, b.dim);
      SamePoints(a, sqrt, entries, b.dim);
      if AllPlain(entries, b.dim) {
        PlainHasSameDim(entries);
      } else if FirstDim(entries) == None {
        var i := FirstEmbedIsHeld(entries);
        BruteRowIff(entries, b.dim, Row(entries[i].id, entries[i].embed.value));
        assert BruteRows(entries, b.dim) != [];
      }
    }
  }

  // ---------- when the two searches agree ----------

  lemma BruteIsAligned(a: AllFloats, sqrt: real -> real, entries: seq<Entry>, b: VectorIndex)
    requires IsBruteBuild(a, sqrt, entries, b)
    ensures Aligned(b)
  {
  }

  /** A row of the approximate index is a row of the brute-force index, with the same point;
      ids name rows in both. */
  lemma SameRow(a: AllFloats, sqrt: real -> real, entries: seq<Entry>, x: VectorIndex, b: VectorIndex, o: nat, j: nat)
    requires DistinctNodes(entries) && IsBuild(a.f, sqrt, entries, x) && IsBruteBuild(a, sqrt, entries, b)
    requires FirstDim(entries).Some? && FirstEmbedDim(entries).Some? && x.dim == b.dim
    requires Aligned(x) && Aligned(b) && o < |x.ids| && j < |b.ids| && x.ids[o] == b.ids[j]
    ensures x.points[o] == b.points[j]
  {
    var kept, rows := KeptRows(entries, x.dim), BruteRows(entries, x.dim);
    assert kept[o] in kept && rows[j] in rows;
    IndexedIff(entries, x.dim, kept[o]);
    BruteRowIff(entries, x.dim, rows[j]);
    var m :| 0 <= m < |entries| && Kept(entries[m], x.dim) && kept[o] == Row(entries[m].id, entries[m].embed.value);
    var n :| 0 <= n < |entries| && BruteHolds(entries[n], x.dim) && rows[j] == Row(entries[n].id, entries[n].embed.value);
    assert m == n;
    SamePoint(a, sqrt, kept[o].embed);
  }

  lemma RowIsBruteRow(a: AllFloats, sqrt: real -> real, entries: seq<Entry>, x: VectorIndex, b: VectorIndex, o: nat)
    returns (j: nat)
    requires IsBuild(a.f, sqrt, entries, x) && IsBruteBuild(a, sqrt, entries, b)
    requires FirstDim(entries).Some? && FirstEmbedDim(entries).Some? && x.dim == b.dim && o < |x.ids|
    ensures j < |b.ids| && b.ids[j] == x.ids[o]
  {
    var kept, rows := KeptRows(entries, x.dim), BruteRows(entries, x.dim);
    assert kept[o] in kept;
    IndexedIff(entries, x.dim, kept[o]);
    BruteRowIff(entries, x.dim, kept[o]);
    j :| 0 <= j < |rows| && rows[j] == kept[o];
  }

  /** The graph offers, among the candidates looked at, every point of the brute-force answer. */
  ghost predicate OffersAll(x: VectorIndex, fetched: seq<nat>, top: seq<Hit>)
    requires forall i :: 0 <= i < |fetched| ==> fetched[i] < |x.ids|
  {
    forall h :: h in top ==> Offers(x, fetched, h)
  }

  /** What the two searches are compared on. */
  ghost predicate SideBySide(a: AllFloats, sqrt: real -> real, entries: seq<Entry>, x: VectorIndex, b: VectorIndex, q: Vec) {
    && DistinctNodes(entries) && IsBuild(a.f, sqrt, entries, x) && IsBruteBuild(a, sqrt, entries, b)
    && FirstDim(entries).Some? && FirstEmbedDim(entries).Some? && x.dim == b.dim
    && Aligned(x) && Aligned(b) && UnitPoints(x) && |q| == x.dim && Unit(q)
  }

  lemma SameHit(a: AllFloats, sqrt: real -> real, entries: seq<Entry>, x: VectorIndex, b: VectorIndex, q: Vec, o: nat, j: nat)
    requires SideBySide(a, sqrt, entries, x, b, q) && o < |x.ids| && j < |b.ids| && x.ids[o] == b.ids[j]
    ensures HitAt(x, q, o) == BruteHits(b, q, |b.ids|)[j]
  {
    SameRow(a, sqrt, entries, x, b, o, j);
    ScoreIsDot(x, q, o);
  }

  lemma ScoreIsDot(x: VectorIndex, q: Vec, o: nat)
    requires Aligned(x) && UnitPoints(x) && |q| == x.dim && Unit(q) && o < |x.ids|
    ensures HitAt(x, q, o) == (Dot(q, x.points[o]), x.ids[o])
  {
    UnitDistance(q, x.points[o]);
  }

  lemma HitIsBruteHit(a: AllFloats, sqrt: real -> real, entries: seq<Entry>, x: VectorIndex, b: VectorIndex, q: Vec, o: nat)
    requires SideBySide(a, sqrt, entries, x, b, q) && o < |x.ids|
    ensures HitAt(x, q, o) in BruteHits(b, q, |b.ids|)
  {
    var j := RowIsBruteRow(a, sqrt, entries, x, b, o);
    SameHit(a, sqrt, entries, x, b, q, o, j);
  }

  lemma BruteHitIsHit(a: AllFloats, sqrt: real -> real, entries: seq<Entry>, x: VectorIndex, b: VectorIndex,
                      q: Vec, o: nat, h: Hit)
    requires SideBySide(a, sqrt, entries, x, b, q) && o < |x.ids|
    requires h in BruteHits(b, q, |b.ids|) && h.1 == x.ids[o]
    ensures HitAt(x, q, o) == h
  {
    var j :| 0 <= j < |b.ids| && BruteHits(b, q, |b.ids|)[j] == h;
    SameHit(a, sqrt, entries, x, b, q, o, j);
  }

  /** The rows of the approximate index with the id of a hit score the same. */
  ghost predicate ScoredAlike(x: VectorIndex, q: Vec, h: Hit)
    requires Aligned(x)
  {
    forall o :: 0 <= o < |x.ids| && x.ids[o] == h.1 ==> HitAt(x, q, o) == h
  }

  lemma BruteHitsScoreAlike(a: AllFloats, sqrt: real -> real, entries: seq<Entry>, x: VectorIndex, b: VectorIndex, q: Vec, h: Hit)
    requires SideBySide(a, sqrt, entries, x, b, q) && h in BruteHits(b, q, |b.ids|)
    ensures ScoredAlike(x, q, h)
  {
    forall o | 0 <= o < |x.ids| && x.ids[o] == h.1 ensures HitAt(x, q, o) == h {
      BruteHitIsHit(a, sqrt, entries, x, b, q, o, h);
    }
  }

  lemma OfferedHit(x: VectorIndex, q: Vec, fetched: seq<nat>, h: Hit)
    requires Aligned(x) && ScoredAlike(x, q, h)
    requires forall i :: 0 <= i < |fetched| ==> fetched[i] < |x.ids|
    ensures h in HitsAt(x, q, fetched) <==> Offers(x, fetched, h)
  {
    var part := HitsAt(x, q, fetched);
    if Offers(x, fetched, h) {
      var i :| 0 <= i < |fetched| && x.ids[fetched[i]] == h.1;
      assert part[i] == h;
    }
  }

  lemma BruteHitsAreDistinct(b: VectorIndex, q: Vec)
    requires Aligned(b) && Distinct(b.ids)
    ensures Distinct(BruteHits(b, q, |b.ids|))
  {
  }

  lemma HitsAreBruteHits(a: AllFloats, sqrt: real -> real, entries: seq<Entry>, x: VectorIndex, b: VectorIndex,
                         q: Vec, fetched: seq<nat>)
    requires SideBySide(a, sqrt, entries, x, b, q) && Distinct(fetched)
    requires forall i :: 0 <= i < |fetched| ==> fetched[i] < |x.ids|
    ensures Distinct(BruteHits(b, q, |b.ids|)) && Distinct(HitsAt(x, q, fetched))
    ensures forall h :: h in HitsAt(x, q, fetched) ==> h in BruteHits(b, q, |b.ids|)
  {
    var part := HitsAt(x, q, fetched);
    KeptIdsAreDistinct(entries, x.dim);
    BruteIdsAreDistinct(entries, b.dim);
    HitsAreDistinct(x, q, fetched);
    BruteHitsAreDistinct(b, q);
    forall h | h in part ensures h in BruteHits(b, q, |b.ids|) {
      var i :| 0 <= i < |part| && part[i] == h;
      HitIsBruteHit(a, sqrt, entries, x, b, q, fetched[i]);
    }
  }

  lemma SameTopIff(a: AllFloats, sqrt: real -> real, entries: seq<Entry>, x: VectorIndex, b: VectorIndex,
                   q: Vec, fetched: seq<nat>, k: nat)
    requires SideBySide(a, sqrt, entries, x, b, q) && Distinct(fetched)
    requires forall i :: 0 <= i < |fetched| ==> fetched[i] < |x.ids|
    ensures Top(KnnEdges.CloserFirst, HitsAt(x, q, fetched), k) == BruteTop(b, q, k)
       <==> OffersAll(x, fetched, BruteTop(b, q, k))
  {
    var whole, part := BruteHits(b, q, |b.ids|), HitsAt(x, q, fetched);
    HitsAreBruteHits(a, sqrt, entries, x, b, q, fetched);
    KnnGraph.CloserFirstIsTotal();
    TopOfPartIff(KnnEdges.CloserFirst, whole, part, k);
    forall h | h in BruteTop(b, q, k) ensures h in part <==> Offers(x, fetched, h) {
      InTopIff(KnnEdges.CloserFirst, whole, k, h);
      BruteHitsScoreAlike(a, sqrt, entries, x, b, q, h);
      OfferedHit(x, q, fetched, h);
    }
  }

  /** A node that is tombstoned, of the system, or stored in another type is never offered. */
  lemma OthersAreNeverOffered(f: Floats, sqrt: real -> real, entries: seq<Entry>, x: VectorIndex, fetched: seq<nat>,
                              i: nat, h: Hit)
    requires DistinctNodes(entries) && IsBuild(f, sqrt, entries, x)
    requires forall n :: 0 <= n < |fetched| ==> fetched[n] < |x.ids|
    requires i < |entries| && entries[i].Entry? && !Plain(entries[i]) && h.1 == entries[i].id
    ensures !Offers(x, fetched, h)
  {
    if FirstDim(entries).Some? {
      var kept := KeptRows(entries, x.dim);
      forall n | 0 <= n < |fetched| ensures x.ids[fetched[n]] != h.1 {
        assert kept[fetched[n]] in kept;
        IndexedIff(entries, x.dim, kept[fetched[n]]);
        var m :| 0 <= m < |entries| && Kept(entries[m], x.dim) && kept[fetched[n]] == Row(entries[m].id, entries[m].embed.value);
        assert m != i;
      }
    }
  }

  lemma DimsAreKnown(a: AllFloats, sqrt: real -> real, entries: seq<Entry>, x: VectorIndex, b: VectorIndex)
    requires NoFault(entries) && IsBuild(a.f, sqrt, entries, x) && IsBruteBuild(a, sqrt, entries, b) && x.dim > 0
    ensures FirstDim(entries).Some? && FirstEmbedDim(entries).Some? && b.ids != []
  {
    if FirstEmbedDim(entries) == None { NoEmbedding(entries); }
    var i := FirstEmbedIsHeld(entries);
    BruteRowIff(entries, b.dim, Row(entries[i].id, entries[i].embed.value));
    assert BruteRows(entries, b.dim) != [];
  }

  lemma BuiltSideBySide(a: AllFloats, sqrt: real -> real, entries: seq<Entry>, x: VectorIndex, b: VectorIndex, query: Vec)
    requires IsSqrt(sqrt) && DistinctNodes(entries) && IsBuild(a.f, sqrt, entries, x) && IsBruteBuild(a, sqrt, entries, b)
    requires FirstDim(entries).Some? && FirstEmbedDim(entries).Some? && x.dim == b.dim
    requires NoZeroEmbedding(a.f, KeptRows(entries, x.dim)) && |query| == x.dim && !IsZero(query)
    ensures SideBySide(a, sqrt, entries, x, b, Normalised(query, sqrt))
  {
    BuiltIsAligned(a.f, sqrt, entries, x);
    BruteIsAligned(a, sqrt, entries, b);
    BuiltPointsAreUnit(a.f, sqrt, entries, x);
    NormalisedIsUnitIff(query, sqrt);
  }

  lemma SameTopIffOffered(a: AllFloats, sqrt: real -> real, entries: seq<Entry>, x: VectorIndex, b: VectorIndex,
                          q: Vec, candidates: seq<nat>, k: nat)
    requires SideBySide(a, sqrt, entries, x, b, q) && Distinct(candidates)
    requires forall i :: 0 <= i < |candidates| ==> candidates[i] < |x.ids|
    ensures Top(KnnEdges.CloserFirst, HitsAt(x, q, Fetched(x, candidates, k)), k) == BruteTop(b, q, k)
       <==> AllOffered(x, candidates, k, BruteTop(b, q, k))
  {
    OffersAllIsAllOffered(x, candidates, k, BruteTop(b, q, k));
    SameTopIff(a, sqrt, entries, x, b, q, Fetched(x, candidates, k), k);
  }

  /** From one cursor without a fault, over distinct nodes and with no zero vector indexed: a
      search of the approximate index returns what the brute-force index returns exactly when
      the two have one dimension and all of that answer is among the first k candidates of the
      graph, or within the search width. A row that only the
      brute-force index holds is never offered. */
  lemma SearchesAgreeIff(a: AllFloats, sqrt: real -> real, entries: seq<Entry>, x: VectorIndex, b: VectorIndex,
                         candidates: seq<nat>, query: Vec, k: nat)
    requires IsSqrt(sqrt) && DistinctNodes(entries) && NoFault(entries)
    requires IsBuild(a.f, sqrt, entries, x) && IsBruteBuild(a, sqrt, entries, b)
    requires NoZeroEmbedding(a.f, KeptRows(entries, x.dim))
    requires Distinct(candidates) && forall i :: 0 <= i < |candidates| ==> candidates[i] < |x.ids|
    requires |query| == x.dim && !IsZero(query)
    ensures Aligned(x) && Aligned(b)
    ensures Searched(x, sqrt, candidates, query, k) == BruteSearched(b, sqrt, query, k)
       <==> x.dim == b.dim && AllOffered(x, candidates, k, BruteTop(b, Normalised(query, sqrt), k))
  {
    BuiltIsAligned(a.f, sqrt, entries, x);
    BruteIsAligned(a, sqrt, entries, b);
    DimsAreKnown(a, sqrt, entries, x, b);
    if x.dim == b.dim {
      BuiltSideBySide(a, sqrt, entries, x, b, query);
      SameTopIffOffered(a, sqrt, entries, x, b, Normalised(query, sqrt), candidates, k);
    }
  }
}
