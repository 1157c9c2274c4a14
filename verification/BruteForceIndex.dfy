/** The brute-force index (crates/mnem-core/src/index/vector.rs), the baseline the
    approximate one is measured against: every vector of one dimension in a flat buffer. */
module BruteForceIndex {
  import opened Options
  import opened Bytes
  import opened Ordering
  import opened RealVectors
  import opened HnswIndex
  import KnnEdges

  /** The values of stored components, for all four types. */
  datatype AllFloats = AllFloats(f: Floats, of16: seq<Byte> -> real, of8: seq<Byte> -> real)

  function DecodeAll(a: AllFloats, e: Embedding): Option<Vec> {
    if !ValidSize(e) then None
    else match e.dtype
      case F16 => Some(Chunks(a.of16, 2, e.vector, e.dim))
      case I8 => Some(Chunks(a.of8, 1, e.vector, e.dim))
      case _ => DecodeToF32(a.f, e)
  }

  function BrutePoint(a: AllFloats, sqrt: real -> real, e: Embedding): Vec {
    match DecodeAll(a, e) case None => [] case Some(v) => Normalised(v, sqrt)
  }

  lemma AllDecodedLength(a: AllFloats, e: Embedding)
    requires ValidSize(e)
    ensures DecodeAll(a, e).Some? && |DecodeAll(a, e).value| == e.dim
  {
    match e.dtype
    case F16 => ChunksLength(a.of16, 2, e.vector, e.dim);
    case F32 => ChunksLength(a.f.of32, 4, e.vector, e.dim);
    case F64 => ChunksLength(a.f.of64, 8, e.vector, e.dim);
    case I8 => ChunksLength(a.of8, 1, e.vector, e.dim);
  }

  lemma BrutePointLength(a: AllFloats, sqrt: real -> real, e: Embedding)
    requires ValidSize(e)
    ensures DecodeAll(a, e).Some? && |BrutePoint(a, sqrt, e)| == e.dim
  {
    AllDecodedLength(a, e);
  }

  // ---------- what the index holds ----------

  predicate BruteFaulty(e: Entry) {
    e.Broken? || (e.embed.Some? && !ValidSize(e.embed.value))
  }

  /** An error row, or an embedding whose bytes do not fit its dimension. */
  predicate BruteUnfit(e: Entry) {
    e.Broken? || (e.embed.Some? && !Fits(e.embed.value))
  }

  predicate Embedded(e: Entry) {
    e.Entry? && e.embed.Some?
  }

  /** The dimension of the first embedding. */
  function FirstEmbedDim(entries: seq<Entry>): Option<nat> {
    if entries == [] then None
    else
      var before, last := FirstEmbedDim(entries[..|entries|-1]), entries[|entries|-1];
      if before.Some? then before
      else if Embedded(last) then Some(last.embed.value.dim)
      else None
  }

  predicate BruteHolds(e: Entry, dim: nat) {
    Embedded(e) && e.embed.value.dim == dim && ValidSize(e.embed.value)
  }

  function BruteRows(entries: seq<Entry>, dim: nat): seq<Row> {
    if entries == [] then []
    else
      var front, last := BruteRows(entries[..|entries|-1], dim), entries[|entries|-1];
      if BruteHolds(last, dim) then front + [Row(last.id, last.embed.value)] else front
  }

  function BrutePoints(a: AllFloats, sqrt: real -> real, rows: seq<Row>): (r: seq<Vec>)
    ensures |r| == |rows| && forall i :: 0 <= i < |rows| ==> r[i] == BrutePoint(a, sqrt, rows[i].embed)
  {
    if rows == [] then [] else BrutePoints(a, sqrt, rows[..|rows|-1]) + [BrutePoint(a, sqrt, rows[|rows|-1].embed)]
  }

  /** The rows of a flat buffer, one behind the other. */
  function Flat(points: seq<Vec>): seq<real> {
    if points == [] then [] else Flat(points[..|points|-1]) + points[|points|-1]
  }

  lemma {:induction false} FlatLength(points: seq<Vec>, dim: nat)
    requires forall i :: 0 <= i < |points| ==> |points[i]| == dim
    ensures |Flat(points)| == |points| * dim
  {
    if points != [] {
      FlatLength(points[..|points|-1], dim);
      assert (|points| - 1) * dim == |points| * dim - dim;
    }
  }

  lemma RowFits(i: nat, n: nat, dim: nat)
    requires i < n
    ensures i * dim + dim <= n * dim && (i + 1) * dim == i * dim + dim
  {
    assert n * dim == i * dim + dim + (n - i - 1) * dim;
  }

  /** A row of the buffer is the point that was appended. */
  lemma {:induction false} RowOfFlat(points: seq<Vec>, dim: nat, i: nat)
    requires i < |points| && forall j :: 0 <= j < |points| ==> |points[j]| == dim
    ensures i * dim + dim <= |Flat(points)| && Flat(points)[i * dim..i * dim + dim] == points[i]
  {
    var front, last := points[..|points|-1], points[|points|-1];
    FlatLength(points, dim);
    FlatLength(front, dim);
    RowFits(i, |points|, dim);
    if i < |front| {
      RowFits(i, |front|, dim);
      RowOfFlat(front, dim, i);
    }
  }

  class BruteForceVectorIndex {
    const dim: nat
    var ids: seq<NodeId>
    var data: seq<real>
    ghost var points: seq<Vec>

    ghost predicate Valid()
      reads this
    {
      |points| == |ids| && data == Flat(points) && forall i :: 0 <= i < |points| ==> |points[i]| == dim
    }

    /** The index as a value; there is no search width. */
    ghost function Contents(): VectorIndex
      reads this
    {
      VectorIndex(dim, ids, points, 0)
    }

    constructor Empty(dim: nat)
      ensures Valid() && Contents() == VectorIndex(dim, [], [], 0)
    {
      this.dim, ids, data, points := dim, [], [], [];
    }

    method TryInsert(a: AllFloats, sqrt: real -> real, id: NodeId, e: Embedding) returns (ok: bool)
      requires Valid() && IsSqrt(sqrt)
      modifies this
      ensures Valid()
      ensures ok <==> e.dim == dim && ValidSize(e)
      ensures ids == if ok then old(ids) + [id] else old(ids)
      ensures points == if ok then old(points) + [BrutePoint(a, sqrt, e)] else old(points)
    {
      if e.dim != dim {
        return false;
      }
      var v := DecodeAll(a, e);
      if v == None {
        if ValidSize(e) { BrutePointLength(a, sqrt, e); }
        return false;
      }
      BrutePointLength(a, sqrt, e);
      var normalised := DividedByNorm(v.value, sqrt);
      ids := ids + [id];
      data := data + normalised;
      points := points + [normalised];
      assert points[..|points|-1] == old(points);
      return true;
    }

    /** Every row of the buffer is scored against the query. */
    method ScoreRows(q: Vec) returns (hits: seq<Hit>)
      requires Valid() && |q| == dim
      ensures hits == BruteHits(Contents(), q, |ids|)
    {
      ghost var x := Contents();
      hits := [];
      for i := 0 to |ids|
        invariant hits == BruteHits(x, q, i)
      {
        RowOfFlat(points, dim, i);
        var score := DotProduct(q, data[i * dim..i * dim + dim]);
        hits := hits + [(score, ids[i])];
      }
    }

    method Search(sqrt: real -> real, query: Vec, k: nat) returns (r: Search)
      requires Valid() && IsSqrt(sqrt)
      ensures r == BruteSearched(Contents(), sqrt, query, k)
      ensures dim == 0 && ids == [] ==> r == Hits([])
      ensures r.DimMismatch? <==> |query| != dim && !(dim == 0 && ids == [])
      ensures r.Hits? && |query| == dim ==> BruteAnswers(Contents(), Normalised(query, sqrt), k, r.hits)
    {
      if |query| == dim { BruteTopAnswers(Contents(), Normalised(query, sqrt), k); }
      if dim == 0 && |ids| == 0 {
        return Hits([]);
      }
      if |query| != dim {
        return DimMismatch;
      }
      if k == 0 || |ids| == 0 {
        return Hits([]);
      }
      var q := DividedByNorm(query, sqrt);
      var hits := ScoreRows(q);
      hits := SortBy(KnnEdges.CloserFirst, hits);
      if |hits| > k {
        hits := hits[..k];
      }
      return Hits(hits);
    }
  }

  method DotProduct(a: Vec, b: Vec) returns (acc: real)
    requires |a| == |b|
    ensures acc == Dot(a, b)
  {
    acc := 0.0;
    for i := 0 to |a|
      invariant acc == DotTo(a, b, i)
    {
      acc := acc + a[i] * b[i];
    }
  }

  /** This index divides by the norm where the other multiplies by its reciprocal. */
  method DividedByNorm(v: Vec, sqrt: real -> real) returns (r: Vec)
    requires IsSqrt(sqrt)
    ensures r == Normalised(v, sqrt)
  {
    var sq := DotProduct(v, v);
    DotSelfNonNegative(v, |v|);
    assert sqrt(sq) * sqrt(sq) == sq;
    if sqrt(sq) > 0.0 {
      var norm := sqrt(sq);
      r := [];
      for i := 0 to |v|
        invariant |r| == i && forall j :: 0 <= j < i ==> r[j] == v[j] / norm
      {
        r := r + [v[i] / norm];
      }
      forall i | 0 <= i < |v| ensures r[i] == v[i] * (1.0 / norm) { ByReciprocal(v[i], norm); }
      IsScaled(1.0 / norm, v, r);
      PositiveSquare(norm);
    } else {
      r := v;
    }
  }

  lemma ByReciprocal(x: real, norm: real)
    requires norm != 0.0
    ensures x / norm == x * (1.0 / norm)
  {
  }

  // ---------- searching ----------

  /** Every stored vector scored by its dot product with the query. */
  function BruteHits(x: VectorIndex, q: Vec, n: nat): (r: seq<Hit>)
    requires Aligned(x) && n <= |x.ids|
    ensures |r| == n && forall i :: 0 <= i < n ==> r[i] == (Dot(q, x.points[i]), x.ids[i])
  {
    if n == 0 then [] else BruteHits(x, q, n - 1) + [(Dot(q, x.points[n-1]), x.ids[n-1])]
  }

  function BruteTop(x: VectorIndex, q: Vec, k: nat): seq<Hit>
    requires Aligned(x)
  {
    Top(KnnEdges.CloserFirst, BruteHits(x, q, |x.ids|), k)
  }

  /** The k best of all rows, each scored by its dot product with the query. */
  ghost predicate BruteAnswers(x: VectorIndex, q: Vec, k: nat, hits: seq<Hit>)
    requires Aligned(x)
  {
    && |hits| == (if |x.ids| <= k then |x.ids| else k)
    && BestOf(iset i | 0 <= i < |x.ids| :: (Dot(q, x.points[i]), x.ids[i]), hits)
  }

  lemma BruteTopAnswers(x: VectorIndex, q: Vec, k: nat)
    requires Aligned(x)
    ensures BruteAnswers(x, q, k, BruteTop(x, q, k))
  {
    var s := BruteHits(x, q, |x.ids|);
    var offered := iset i | 0 <= i < |x.ids| :: (Dot(q, x.points[i]), x.ids[i]);
    forall h | h in offered ensures h in s {
      var i :| 0 <= i < |x.ids| && h == (Dot(q, x.points[i]), x.ids[i]);
      assert s[i] == h;
    }
    TopIsBest(s, k, offered);
  }

  function BruteSearched(x: VectorIndex, sqrt: real -> real, query: Vec, k: nat): Search
    requires Aligned(x)
  {
    if x.dim == 0 && x.ids == [] then Hits([])
    else if |query| != x.dim then DimMismatch
    else Hits(BruteTop(x, Normalised(query, sqrt), k))
  }

  // ---------- building ----------

  datatype BruteBuild = BruteError | BruteBuilt(index: BruteForceVectorIndex)

  /** What a build over entries without a fault holds. */
  ghost predicate IsBruteBuild(a: AllFloats, sqrt: real -> real, entries: seq<Entry>, x: VectorIndex) {
    var first := FirstEmbedDim(entries);
    && x.dim == (if first.Some? then first.value else 0)
    && var rows := if first.Some? then BruteRows(entries, x.dim) else [];
       x.ids == IdsOf(rows) && x.points == BrutePoints(a, sqrt, rows)
  }

  /** As long as there is no embedding, there is no row. */
  lemma {:induction false} NoRowBeforeDim(entries: seq<Entry>, dim: nat)
    requires FirstEmbedDim(entries) == None
    ensures BruteRows(entries, dim) == []
  {
    if entries != [] { NoRowBeforeDim(entries[..|entries|-1], dim); }
  }

  lemma BruteNext(a: AllFloats, sqrt: real -> real, entries: seq<Entry>, e: Entry, x: VectorIndex, y: VectorIndex)
    requires IsBruteBuild(a, sqrt, entries, x) && !BruteFaulty(e)
    requires Embedded(e) && FirstEmbedDim(entries) == None ==> y.dim == e.embed.value.dim
    requires !Embedded(e) || FirstEmbedDim(entries).Some? ==> y.dim == x.dim
    requires if BruteHolds(e, y.dim)
             then y.ids == x.ids + [e.id] && y.points == x.points + [BrutePoint(a, sqrt, e.embed.value)]
             else y.ids == x.ids && y.points == x.points
    ensures IsBruteBuild(a, sqrt, entries + [e], y)
  {
    assert (entries + [e])[..|entries|] == entries;
    if FirstEmbedDim(entries) == None { NoRowBeforeDim(entries, y.dim); }
    if BruteHolds(e, y.dim) {
      var rows, row := BruteRows(entries, y.dim), Row(e.id, e.embed.value);
      assert (rows + [row])[..|rows|] == rows;
    }
  }

  /** Inserts into the index, making it first if there is none. */
  method InsertOrStart(a: AllFloats, sqrt: real -> real, idx: BruteForceVectorIndex?, id: NodeId, e: Embedding)
    returns (next: BruteForceVectorIndex)
    requires IsSqrt(sqrt) && ValidSize(e) && (idx != null ==> idx.Valid())
    modifies idx
    ensures next.Valid() && (if idx == null then fresh(next) else next == idx)
    ensures next.dim == if idx == null then e.dim else idx.dim
    ensures var x := if idx == null then VectorIndex(0, [], [], 0) else old(idx.Contents());
            next.Contents() == if e.dim == next.dim
                               then VectorIndex(next.dim, x.ids + [id], x.points + [BrutePoint(a, sqrt, e)], 0)
                               else VectorIndex(next.dim, x.ids, x.points, 0)
  {
    if idx == null {
      next := new BruteForceVectorIndex.Empty(e.dim);
    } else {
      next := idx;
    }
    var ok := next.TryInsert(a, sqrt, id, e);
  }

  /** The state of the loop: no index before the first embedding. */
  ghost predicate BuiltSoFar(a: AllFloats, sqrt: real -> real, idx: BruteForceVectorIndex?, entries: seq<Entry>)
    reads idx
  {
    && (idx == null <==> FirstEmbedDim(entries) == None)
    && (idx != null ==> idx.Valid())
    && IsBruteBuild(a, sqrt, entries, if idx == null then VectorIndex(0, [], [], 0) else idx.Contents())
  }

  method TakeEntry(a: AllFloats, sqrt: real -> real, idx: BruteForceVectorIndex?, e: Entry, ghost before: seq<Entry>)
    returns (next: BruteForceVectorIndex?)
    requires IsSqrt(sqrt) && !BruteFaulty(e) && BuiltSoFar(a, sqrt, idx, before)
    modifies idx
    ensures next == idx || fresh(next)
    ensures BuiltSoFar(a, sqrt, next, before + [e])
  {
    ghost var was := if idx == null then VectorIndex(0, [], [], 0) else idx.Contents();
    FirstEmbedNext(before, e);
    next := idx;
    if e.embed.Some? {
      next := InsertOrStart(a, sqrt, idx, e.id, e.embed.value);
    }
    BruteNext(a, sqrt, before, e, was, if next == null then VectorIndex(0, [], [], 0) else next.Contents());
  }

  method BuildFromRepo(a: AllFloats, sqrt: real -> real, entries: seq<Entry>) returns (b: BruteBuild)
    requires IsSqrt(sqrt)
    ensures b.BruteError? <==> exists e :: e in entries && BruteFaulty(e)
    ensures b.BruteError? <==> exists i :: 0 <= i < |entries| && BruteUnfit(entries[i])
    ensures b.BruteBuilt? ==> fresh(b.index) && b.index.Valid() && IsBruteBuild(a, sqrt, entries, b.index.Contents())
  {
    var idx: BruteForceVectorIndex? := null;
    for i := 0 to |entries|
      invariant forall j :: 0 <= j < i ==> !BruteFaulty(entries[j])
      invariant idx != null ==> fresh(idx)
      invariant BuiltSoFar(a, sqrt, idx, entries[..i])
    {
      if BruteFaulty(entries[i]) {
        return BruteError;
      }
      assert entries[..i+1] == entries[..i] + [entries[i]];
      idx := TakeEntry(a, sqrt, idx, entries[i], entries[..i]);
    }
    assert entries[..|entries|] == entries;
    if idx == null {
      idx := new BruteForceVectorIndex.Empty(0);
    }
    return BruteBuilt(idx);
  }

  lemma FirstEmbedNext(entries: seq<Entry>, e: Entry)
    ensures FirstEmbedDim(entries + [e]) ==
            if FirstEmbedDim(entries).Some? then FirstEmbedDim(entries)
            else if Embedded(e) then Some(e.embed.value.dim) else None
  {
    assert (entries + [e])[..|entries|] == entries;
  }
}
