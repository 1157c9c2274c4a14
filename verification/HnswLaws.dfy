/** What an index contains after a build, what its scores mean, and when a search returns
    what brute force over the same rows returns. */
module HnswLaws {
  import opened Options
  import opened Ordering
  import opened RealVectors
  import opened HnswIndex
  import opened BruteForceIndex
  import KnnEdges
  import KnnGraph

  // ---------- contents ----------

  /** What a fault-free build holds. */
  ghost predicate IsBuild(f: Floats, sqrt: real -> real, entries: seq<Entry>, x: VectorIndex) {
    && BuiltFrom(f, sqrt, entries, FirstDim(entries), x.ids, x.points)
    && x.dim == (if FirstDim(entries).Some? then FirstDim(entries).value else 0)
  }

  /** An id is indexed exactly when some entry of the cursor carries it past every filter. */
  lemma {:induction false} IndexedIff(entries: seq<Entry>, dim: nat, row: Row)
    ensures row in KeptRows(entries, dim)
       <==> exists i :: 0 <= i < |entries| && Kept(entries[i], dim) && row == Row(entries[i].id, entries[i].embed.value)
  {
    if entries != [] {
      var front, last := entries[..|entries|-1], entries[|entries|-1];
      IndexedIff(front, dim, row);
      if i :| 0 <= i < |entries| && Kept(entries[i], dim) && row == Row(entries[i].id, entries[i].embed.value) {
        if i < |front| { assert front[i] == entries[i]; }
      }
      if i :| 0 <= i < |front| && Kept(front[i], dim) && row == Row(front[i].id, front[i].embed.value) {
        assert entries[i] == front[i];
      }
    }
  }

  /** Ids and points stay aligned, and every point has the index's dimension. */
  lemma BuiltIsAligned(f: Floats, sqrt: real -> real, entries: seq<Entry>, x: VectorIndex)
    requires BuiltFrom(f, sqrt, entries, FirstDim(entries), x.ids, x.points)
    requires x.dim == if FirstDim(entries).Some? then FirstDim(entries).value else 0
    ensures |x.ids| == |x.points|
    ensures forall i :: 0 <= i < |x.points| ==> |x.points[i]| == x.dim
  {
    if FirstDim(entries).Some? {
      var rows := KeptRows(entries, x.dim);
      forall i | 0 <= i < |rows| ensures |x.points[i]| == x.dim {
        assert rows[i] in rows;
        IndexedIff(entries, x.dim, rows[i]);
        PointLength(f, sqrt, rows[i].embed);
      }
    }
  }

  lemma PointLength(f: Floats, sqrt: real -> real, e: Embedding)
    requires Decodable(e)
    ensures |PointOf(f, sqrt, e)| == e.dim
  {
    if e.dtype == F32 { ChunksLength(f.of32, 4, e.vector, e.dim); } else { ChunksLength(f.of64, 8, e.vector, e.dim); }
  }

  // ---------- scores ----------

  /** Normalising gives a unit vector exactly when the vector is not zero; a zero vector is
      left as it is. */
  lemma NormalisedIsUnitIff(v: Vec, sqrt: real -> real)
    requires IsSqrt(sqrt)
    ensures Unit(Normalised(v, sqrt)) <==> !IsZero(v)
    ensures IsZero(v) ==> Normalised(v, sqrt) == v
  {
    if IsZero(v) {
      ZeroDot(v, v, |v|);
    } else {
      var i :| 0 <= i < |v| && v[i] != 0.0;
      DotSelfPositive(v, |v|, i);
      ScalesToUnit(v, sqrt);
    }
  }

  lemma ScalesToUnit(v: Vec, sqrt: real -> real)
    requires IsSqrt(sqrt) && 0.0 < Dot(v, v)
    ensures sqrt(Dot(v, v)) > 0.0 && Unit(Normalised(v, sqrt))
  {
    var s := Dot(v, v);
    var norm := sqrt(s);
    assert norm * norm == s && norm > 0.0;
    var inverse := 1.0 / norm;
    var w := Scale(inverse, v);
    DotScales(inverse, v, v, |v|);
    DotScales(inverse, v, w, |v|);
    InverseSquare(s, norm, inverse);
  }

  lemma RootOfOne(sqrt: real -> real)
    requires IsSqrt(sqrt)
    ensures sqrt(1.0) == 1.0
  {
    SameSquare(sqrt(1.0), 1.0);
  }

  lemma NormaliseIsIdempotent(v: Vec, sqrt: real -> real)
    requires IsSqrt(sqrt)
    ensures Normalised(Normalised(v, sqrt), sqrt) == Normalised(v, sqrt)
  {
    NormalisedIsUnitIff(v, sqrt);
    RootOfOne(sqrt);
    var w := Normalised(v, sqrt);
    if !IsZero(v) {
      forall i | 0 <= i < |w| ensures Scale(1.0, w)[i] == w[i] {}
      assert Scale(1.0, w) == w;
    }
  }

  /** Positive scaling of the input does not matter. */
  lemma NormaliseIgnoresScale(v: Vec, c: real, sqrt: real -> real)
    requires IsSqrt(sqrt) && 0.0 < c && !IsZero(v)
    ensures Normalised(Scale(c, v), sqrt) == Normalised(v, sqrt)
  {
    var i :| 0 <= i < |v| && v[i] != 0.0;
    DotSelfPositive(v, |v|, i);
    var s := Dot(v, v);
    DotScales(c, v, v, |v|);
    DotScales(c, v, Scale(c, v), |v|);
    assert Dot(Scale(c, v), Scale(c, v)) == c * (c * s);
    ScalesToUnit(v, sqrt);
    RootScales(sqrt, c, s);
    var n := sqrt(s);
    assert sqrt(c * (c * s)) == c * n;
    PositiveProduct(c, c * s);
    PositiveProduct(c, s);
    PositiveProduct(c, n);
    RescaledTwice(v, c, n);
  }

  lemma RescaledTwice(v: Vec, c: real, n: real)
    requires 0.0 < c && 0.0 < n && 0.0 < c * n
    ensures Scale(1.0 / (c * n), Scale(c, v)) == Scale(1.0 / n, v)
  {
    var p, q := 1.0 / (c * n), 1.0 / n;
    var u := Scale(c, v);
    var w := Scale(p, u);
    forall j | 0 <= j < |v| ensures w[j] == v[j] * q {
      assert u[j] == v[j] * c && w[j] == u[j] * p;
      ScaledCoordinate(v[j], c, n);
    }
    IsScaled(q, v, w);
  }

  lemma PositiveProduct(x: real, y: real)
    ensures 0.0 < x && 0.0 < y ==> 0.0 < x * y
  {
  }

  lemma ScaledCoordinate(x: real, c: real, n: real)
    requires 0.0 < c && 0.0 < n && 0.0 < c * n
    ensures (x * c) * (1.0 / (c * n)) == x * (1.0 / n)
  {
    var p, q := 1.0 / (c * n), 1.0 / n;
    assert p * (c * n) == 1.0 && q * n == 1.0;
    assert (p * c) * n == 1.0;
    SameInverse(p * c, q, n);
    assert (x * c) * p == x * (p * c);
  }

  lemma SameInverse(a: real, b: real, n: real)
    requires 0.0 < n && a * n == 1.0 && b * n == 1.0
    ensures a == b
  {
    assert (a - b) * n == 0.0;
  }

  lemma RootScales(sqrt: real -> real, c: real, s: real)
    requires IsSqrt(sqrt) && 0.0 < c && 0.0 < s
    ensures sqrt(c * (c * s)) == c * sqrt(s)
  {
    var n := sqrt(s);
    var t := c * (c * s);
    PositiveProduct(c, s);
    PositiveProduct(c, c * s);
    var m := sqrt(t);
    assert (c * n) * (c * n) == c * (c * (n * n));
    assert m * m == (c * n) * (c * n);
    SameSquare(m, c * n);
  }

  lemma SameSquare(a: real, b: real)
    requires 0.0 <= a && 0.0 <= b && a * a == b * b
    ensures a == b
  {
    assert (a - b) * (a + b) == 0.0;
    if 0.0 < a + b { ZeroFactor(a - b, a + b); }
  }

  lemma ZeroFactor(x: real, y: real)
    requires 0.0 < y && x * y == 0.0
    ensures x == 0.0
  {
    assert x * y / y == x;
  }

  /** The reported score is the cosine exactly when neither vector is zero: a zero vector
      scores one half against every unit vector. */
  lemma ScoreIsCosineIff(a: Vec, b: Vec, sqrt: real -> real)
    requires IsSqrt(sqrt) && |a| == |b|
    ensures var u, v := Normalised(a, sqrt), Normalised(b, sqrt);
            ScoreFromDistance(SqDist(u, v)) == Dot(u, v) <==> !IsZero(a) && !IsZero(b)
    ensures IsZero(a) != IsZero(b) ==> ScoreFromDistance(SqDist(Normalised(a, sqrt), Normalised(b, sqrt))) == 0.5
  {
    var u, v := Normalised(a, sqrt), Normalised(b, sqrt);
    NormalisedIsUnitIff(a, sqrt);
    NormalisedIsUnitIff(b, sqrt);
    SqDistExpands(u, v, |u|);
    if IsZero(a) { ZeroDot(u, v, |u|); ZeroDot(u, u, |u|); }
    if IsZero(b) { ZeroDot(v, u, |u|); ZeroDot(v, v, |v|); }
  }

  lemma ScoreIsInRange(a: Vec, b: Vec, sqrt: real -> real)
    requires IsSqrt(sqrt) && |a| == |b|
    ensures -1.0 <= ScoreFromDistance(SqDist(Normalised(a, sqrt), Normalised(b, sqrt))) <= 1.0
  {
    var u, v := Normalised(a, sqrt), Normalised(b, sqrt);
    ScoreIsCosineIff(a, b, sqrt);
    NormalisedIsUnitIff(a, sqrt);
    NormalisedIsUnitIff(b, sqrt);
    if IsZero(a) && IsZero(b) {
      SqDistExpands(u, v, |u|);
      ZeroDot(u, v, |u|);
      ZeroDot(v, v, |v|);
      ZeroDot(u, u, |u|);
    } else if !IsZero(a) && !IsZero(b) {
      UnitDotBounds(u, v);
    }
  }

  // ---------- searching ----------

  lemma SortedStrictly<T(!new)>(before: (T, T) -> bool, s: seq<T>)
    requires StrictTotal(before) && Distinct(s)
    ensures StrictlySorted(before, SortBy(before, s)) && Distinct(SortBy(before, s)) && |SortBy(before, s)| == |s|
    ensures forall x :: x in SortBy(before, s) <==> x in s
  {
    TotalIsWeak(before);
    SortSorts(before, s);
    SortKeeps(before, s);
    DistinctByMultiset(s, SortBy(before, s));
    SortedDistinctIsStrict(before, SortBy(before, s));
    forall x ensures x in SortBy(before, s) <==> x in s { SameMembers(s, SortBy(before, s), x); }
  }

  lemma InTopIff<T(!new)>(before: (T, T) -> bool, s: seq<T>, k: nat, x: T)
    requires StrictTotal(before) && Distinct(s)
    ensures x in Top(before, s, k) <==> x in s && |Predecessors(before, s, x)| < k
    ensures StrictlySorted(before, Top(before, s, k))
    ensures |Top(before, s, k)| == if |s| <= k then |s| else k
  {
    var sorted := SortBy(before, s);
    SortedStrictly(before, s);
    assert Predecessors(before, s, x) == Predecessors(before, sorted, x);
    if |sorted| <= k {
      if x in sorted {
        var i :| 0 <= i < |sorted| && sorted[i] == x;
        PositionIsRank(before, sorted, i);
      }
    } else {
      TakeIsLowRank(before, sorted, k, x);
    }
  }

  /** The top k of a part are the top k of the whole exactly when none of these is left out. */
  lemma TopOfPartIff<T(!new)>(before: (T, T) -> bool, whole: seq<T>, part: seq<T>, k: nat)
    requires StrictTotal(before) && Distinct(whole) && Distinct(part) && forall x :: x in part ==> x in whole
    ensures Top(before, part, k) == Top(before, whole, k) <==> forall x :: x in Top(before, whole, k) ==> x in part
  {
    var p, w := Top(before, part, k), Top(before, whole, k);
    forall x ensures x in p <==> x in part && |Predecessors(before, part, x)| < k { InTopIff(before, part, k, x); }
    forall x ensures x in w <==> x in whole && |Predecessors(before, whole, x)| < k { InTopIff(before, whole, k, x); }
    if forall x :: x in w ==> x in part {
      forall x ensures x in p <==> x in w {
        if x in part && x !in w {
          BeatenByTop(before, whole, part, k, x);
        }
        if x in w { SubsetSize(Predecessors(before, part, x), Predecessors(before, whole, x)); }
      }
      TopsAreSorted(before, whole, part, k);
      StrictlySortedIsUnique(before, p, w);
    }
  }

  lemma TopsAreSorted<T(!new)>(before: (T, T) -> bool, whole: seq<T>, part: seq<T>, k: nat)
    requires StrictTotal(before) && Distinct(whole) && Distinct(part)
    ensures StrictlySorted(before, Top(before, part, k)) && StrictlySorted(before, Top(before, whole, k))
  {
    if whole != [] { InTopIff(before, whole, k, whole[0]); }
    if part != [] { InTopIff(before, part, k, part[0]); }
  }

  /** A member outside the top k has the whole top before it. */
  lemma BeatenByTop<T(!new)>(before: (T, T) -> bool, whole: seq<T>, part: seq<T>, k: nat, x: T)
    requires StrictTotal(before) && Distinct(whole) && Distinct(part)
    requires forall y :: y in Top(before, whole, k) ==> y in part
    requires x in whole && x !in Top(before, whole, k)
    ensures |Predecessors(before, part, x)| >= k
  {
    var sorted := SortBy(before, whole);
    SortedStrictly(before, whole);
    InTopIff(before, whole, k, x);
    var i :| 0 <= i < |sorted| && sorted[i] == x;
    PositionIsRank(before, sorted, i);
    assert Predecessors(before, whole, x) == Predecessors(before, sorted, x);
    var top := sorted[..k];
    assert top == Top(before, whole, k);
    DistinctSize(top);
    forall y | y in top ensures y in Predecessors(before, part, x) {
      var j :| 0 <= j < k && top[j] == y;
      assert sorted[j] == y && before(sorted[j], sorted[i]);
    }
    var members := set y | y in top;
    SubsetSize(members, Predecessors(before, part, x));
  }

  ghost predicate UnitPoints(x: VectorIndex) {
    forall i :: 0 <= i < |x.points| ==> |x.points[i]| == x.dim && Unit(x.points[i])
  }

  /** The graph offers every point of the brute-force answer among the candidates looked at. */
  ghost predicate OffersTop(x: VectorIndex, q: Vec, fetched: seq<nat>, k: nat)
    requires Aligned(x) && forall i :: 0 <= i < |fetched| ==> fetched[i] < |x.ids|
  {
    forall h :: h in BruteTop(x, q, k) ==> Offers(x, fetched, h)
  }

  ghost predicate Offers(x: VectorIndex, fetched: seq<nat>, h: Hit)
    requires forall i :: 0 <= i < |fetched| ==> fetched[i] < |x.ids|
  {
    exists i :: 0 <= i < |fetched| && x.ids[fetched[i]] == h.1
  }

  /** Over stored vectors that are not zero, a search returns the brute-force answer exactly
      when the graph offers all of it. */
  lemma SearchIsBruteForceIff(x: VectorIndex, sqrt: real -> real, fetched: seq<nat>, query: Vec, k: nat)
    requires IsSqrt(sqrt) && Aligned(x) && Distinct(x.ids) && Distinct(fetched) && UnitPoints(x)
    requires forall i :: 0 <= i < |fetched| ==> fetched[i] < |x.ids|
    requires |query| == x.dim && !IsZero(query)
    ensures Top(KnnEdges.CloserFirst, HitsAt(x, Normalised(query, sqrt), fetched), k)
         == BruteTop(x, Normalised(query, sqrt), k)
       <==> OffersTop(x, Normalised(query, sqrt), fetched, k)
  {
    var q := Normalised(query, sqrt);
    NormalisedIsUnitIff(query, sqrt);
    ScoresAgree(x, q);
    var whole, part := BruteHits(x, q, |x.ids|), HitsAt(x, q, fetched);
    HitsAreDistinct(x, q, fetched);
    KnnGraph.CloserFirstIsTotal();
    forall h | h in part ensures h in whole {
      var i :| 0 <= i < |part| && part[i] == h;
      assert whole[fetched[i]] == h;
    }
    TopOfPartIff(KnnEdges.CloserFirst, whole, part, k);
    forall h | h in BruteTop(x, q, k) ensures h in part <==> Offers(x, fetched, h) {
      InTopIff(KnnEdges.CloserFirst, whole, k, h);
      OfferedIff(x, q, fetched, h);
    }
  }

  lemma SameOrdinal(ids: seq<NodeId>, i: nat, j: nat)
    requires Distinct(ids) && i < |ids| && j < |ids| && ids[i] == ids[j]
    ensures i == j
  {
  }

  lemma OfferedIff(x: VectorIndex, q: Vec, fetched: seq<nat>, h: Hit)
    requires Aligned(x) && Distinct(x.ids) && forall i :: 0 <= i < |fetched| ==> fetched[i] < |x.ids|
    requires forall i :: 0 <= i < |x.ids| ==> HitAt(x, q, i) == (Dot(q, x.points[i]), x.ids[i])
    requires h in BruteHits(x, q, |x.ids|)
    ensures h in HitsAt(x, q, fetched) <==> Offers(x, fetched, h)
  {
    var part := HitsAt(x, q, fetched);
    if Offers(x, fetched, h) {
      var i :| 0 <= i < |fetched| && x.ids[fetched[i]] == h.1;
      var j :| 0 <= j < |x.ids| && BruteHits(x, q, |x.ids|)[j] == h;
      assert HitAt(x, q, j) == h;
      SameOrdinal(x.ids, j, fetched[i]);
      assert part[i] == HitAt(x, q, j);
    }
  }

  lemma ScoresAgree(x: VectorIndex, q: Vec)
    requires Aligned(x) && UnitPoints(x) && |q| == x.dim && Unit(q)
    ensures forall i :: 0 <= i < |x.ids| ==> HitAt(x, q, i) == (Dot(q, x.points[i]), x.ids[i])
  {
    forall i | 0 <= i < |x.ids| ensures HitAt(x, q, i) == (Dot(q, x.points[i]), x.ids[i]) {
      UnitDistance(q, x.points[i]);
    }
  }

  lemma HitsAreDistinct(x: VectorIndex, q: Vec, fetched: seq<nat>)
    requires Aligned(x) && Distinct(x.ids) && Distinct(fetched)
    requires forall i :: 0 <= i < |fetched| ==> fetched[i] < |x.ids|
    ensures Distinct(BruteHits(x, q, |x.ids|)) && Distinct(HitsAt(x, q, fetched))
  {
    var part := HitsAt(x, q, fetched);
    forall i, j | 0 <= i < j < |fetched| ensures part[i] != part[j] {
      assert fetched[i] != fetched[j];
      assert x.ids[fetched[i]] != x.ids[fetched[j]];
    }
  }

  // ---------- from the cursor to the answer ----------

  ghost predicate DistinctNodes(entries: seq<Entry>) {
    forall i, j :: 0 <= i < j < |entries| && entries[i].Entry? && entries[j].Entry? ==> entries[i].id != entries[j].id
  }

  ghost predicate NoZeroEmbedding(f: Floats, rows: seq<Row>) {
    forall row :: row in rows ==> match DecodeToF32(f, row.embed) case None => true case Some(v) => !IsZero(v)
  }

  lemma {:induction false} KeptIdsAreDistinct(entries: seq<Entry>, dim: nat)
    requires DistinctNodes(entries)
    ensures Distinct(IdsOf(KeptRows(entries, dim)))
  {
    if entries != [] {
      var front, last := entries[..|entries|-1], entries[|entries|-1];
      var rows := KeptRows(front, dim);
      assert DistinctNodes(front) by { assert forall i :: 0 <= i < |front| ==> front[i] == entries[i]; }
      KeptIdsAreDistinct(front, dim);
      if Kept(last, dim) {
        forall i | 0 <= i < |rows| ensures rows[i].id != last.id {
          assert rows[i] in rows;
          IndexedIff(front, dim, rows[i]);
          var j :| 0 <= j < |front| && Kept(front[j], dim) && rows[i] == Row(front[j].id, front[j].embed.value);
          assert entries[j] == front[j];
        }
        assert (rows + [Row(last.id, last.embed.value)])[..|rows|] == rows;
      }
    }
  }

  lemma BuiltPointsAreUnit(f: Floats, sqrt: real -> real, entries: seq<Entry>, x: VectorIndex)
    requires IsSqrt(sqrt) && IsBuild(f, sqrt, entries, x) && NoZeroEmbedding(f, KeptRows(entries, x.dim))
    ensures UnitPoints(x)
  {
    BuiltIsAligned(f, sqrt, entries, x);
    var rows := KeptRows(entries, x.dim);
    forall i | 0 <= i < |x.points| ensures Unit(x.points[i]) {
      assert rows[i] in rows;
      IndexedIff(entries, x.dim, rows[i]);
      NormalisedIsUnitIff(DecodeToF32(f, rows[i].embed).value, sqrt);
    }
  }

  /** Some candidate looked at carries the id of the hit. */
  ghost predicate OfferedAmong(x: VectorIndex, candidates: seq<nat>, k: nat, h: Hit)
    requires forall i :: 0 <= i < |candidates| ==> candidates[i] < |x.ids|
  {
    exists i :: LookedAt(x, candidates, k, i) && x.ids[candidates[i]] == h.1
  }

  lemma OffersIsAmong(x: VectorIndex, candidates: seq<nat>, k: nat, h: Hit)
    requires forall i :: 0 <= i < |candidates| ==> candidates[i] < |x.ids|
    ensures forall i :: 0 <= i < |Fetched(x, candidates, k)| ==> Fetched(x, candidates, k)[i] < |x.ids|
    ensures Offers(x, Fetched(x, candidates, k), h) <==> OfferedAmong(x, candidates, k, h)
  {
    var fetched := Fetched(x, candidates, k);
    if i :| 0 <= i < |fetched| && x.ids[fetched[i]] == h.1 { FetchedAreLookedAt(x, candidates, k, i); }
    if i :| LookedAt(x, candidates, k, i) && x.ids[candidates[i]] == h.1 { FetchedAreLookedAt(x, candidates, k, i); }
  }

  /** Every hit carries the id of a candidate looked at. */
  ghost predicate AllOffered(x: VectorIndex, candidates: seq<nat>, k: nat, top: seq<Hit>)
    requires forall i :: 0 <= i < |candidates| ==> candidates[i] < |x.ids|
  {
    forall h :: h in top ==> OfferedAmong(x, candidates, k, h)
  }

  lemma OffersAllIsAllOffered(x: VectorIndex, candidates: seq<nat>, k: nat, top: seq<Hit>)
    requires forall i :: 0 <= i < |candidates| ==> candidates[i] < |x.ids|
    ensures forall i :: 0 <= i < |Fetched(x, candidates, k)| ==> Fetched(x, candidates, k)[i] < |x.ids|
    ensures (forall h :: h in top ==> Offers(x, Fetched(x, candidates, k), h)) <==> AllOffered(x, candidates, k, top)
  {
    FetchedAreLookedAt(x, candidates, k, 0);
    forall h ensures Offers(x, Fetched(x, candidates, k), h) <==> OfferedAmong(x, candidates, k, h) {
      OffersIsAmong(x, candidates, k, h);
    }
  }

  /** An index built over distinct nodes without a zero embedding answers a query that is not
      zero as brute force over the indexed rows does, exactly when every point of that answer is
      among the first k candidates of the graph, or within the search width. */
  lemma BuiltSearchIsBruteForceIff(f: Floats, sqrt: real -> real, entries: seq<Entry>, x: VectorIndex,
                                   candidates: seq<nat>, query: Vec, k: nat)
    requires IsSqrt(sqrt) && DistinctNodes(entries) && IsBuild(f, sqrt, entries, x)
    requires NoZeroEmbedding(f, KeptRows(entries, x.dim))
    requires Distinct(candidates) && forall i :: 0 <= i < |candidates| ==> candidates[i] < |x.ids|
    requires |query| == x.dim && !IsZero(query)
    ensures Aligned(x)
    ensures Searched(x, sqrt, candidates, query, k) == Hits(BruteTop(x, Normalised(query, sqrt), k))
       <==> AllOffered(x, candidates, k, BruteTop(x, Normalised(query, sqrt), k))
  {
    BuiltIsAligned(f, sqrt, entries, x);
    BuiltPointsAreUnit(f, sqrt, entries, x);
    KeptIdsAreDistinct(entries, x.dim);
    SearchIsBruteForceIff(x, sqrt, Fetched(x, candidates, k), query, k);
    OffersAllIsAllOffered(x, candidates, k, BruteTop(x, Normalised(query, sqrt), k));
  }

  ghost predicate RowLookedAt(x: VectorIndex, candidates: seq<nat>, k: nat, o: nat) {
    exists i :: LookedAt(x, candidates, k, i) && candidates[i] == o
  }

  lemma BruteHitIsOffered(x: VectorIndex, q: Vec, candidates: seq<nat>, k: nat, h: Hit)
    requires Aligned(x) && forall i :: 0 <= i < |candidates| ==> candidates[i] < |x.ids|
    requires forall o: nat :: o < |x.ids| ==> RowLookedAt(x, candidates, k, o)
    requires h in BruteHits(x, q, |x.ids|)
    ensures OfferedAmong(x, candidates, k, h)
  {
    var o: nat :| o < |x.ids| && BruteHits(x, q, |x.ids|)[o] == h;
    assert RowLookedAt(x, candidates, k, o);
  }

  lemma TopIsFromWhole(s: seq<Hit>, k: nat, h: Hit)
    requires h in Top(KnnEdges.CloserFirst, s, k)
    ensures h in s
  {
    CloserFirstIsWeak();
    TakeOfSorted(KnnEdges.CloserFirst, s, if |s| <= k then |s| else k);
  }

  /** When every row is among the candidates looked at, a search is brute force. */
  lemma FullSearchIsBruteForce(f: Floats, sqrt: real -> real, entries: seq<Entry>, x: VectorIndex,
                               candidates: seq<nat>, query: Vec, k: nat)
    requires IsSqrt(sqrt) && DistinctNodes(entries) && IsBuild(f, sqrt, entries, x)
    requires NoZeroEmbedding(f, KeptRows(entries, x.dim))
    requires Distinct(candidates) && forall i :: 0 <= i < |candidates| ==> candidates[i] < |x.ids|
    requires forall o: nat :: o < |x.ids| ==> RowLookedAt(x, candidates, k, o)
    requires |query| == x.dim && !IsZero(query)
    ensures Aligned(x) && Searched(x, sqrt, candidates, query, k) == Hits(BruteTop(x, Normalised(query, sqrt), k))
  {
    var q := Normalised(query, sqrt);
    BuiltSearchIsBruteForceIff(f, sqrt, entries, x, candidates, query, k);
    forall h | h in BruteTop(x, q, k) ensures OfferedAmong(x, candidates, k, h) {
      TopIsFromWhole(BruteHits(x, q, |x.ids|), k, h);
      BruteHitIsOffered(x, q, candidates, k, h);
    }
  }
}
