/** Building and searching the approximate vector index (crates/mnem-ann/src/hnsw.rs). The
    graph library is a parameter: a list of candidate ordinals. Floats are exact reals. */
module HnswIndex {
  import opened Options
  import opened Bytes
  import opened Ordering
  import opened RealVectors
  import KnnEdges

  type NodeId = KnnEdges.NodeId

  datatype Dtype = F16 | F32 | F64 | I8

  function ByteWidth(t: Dtype): nat {
    match t case F16 => 2 case F32 => 4 case F64 => 8 case I8 => 1
  }

  datatype Embedding = Embedding(dtype: Dtype, dim: nat, vector: seq<Byte>)

  /** One row of the node cursor: an error, or a node with its filters evaluated. */
  datatype Entry =
    | Broken
    | Entry(id: NodeId, tombstoned: bool, system: bool, embed: Option<Embedding>)

  /** The value of a stored component; a 64-bit one is rounded to 32. */
  datatype Floats = Floats(of32: seq<Byte> -> real, of64: seq<Byte> -> real)

  datatype VectorIndex = VectorIndex(dim: nat, ids: seq<NodeId>, points: seq<Vec>, efSearch: nat)

  datatype Build = BuildError | Built(index: VectorIndex)

  // ---------- decoding and normalising ----------

  predicate ValidSize(e: Embedding) {
    |e.vector| == e.dim * ByteWidth(e.dtype)
  }

  predicate Decodable(e: Embedding) {
    ValidSize(e) && (e.dtype == F32 || e.dtype == F64)
  }

  function Chunks(read: seq<Byte> -> real, width: nat, bytes: seq<Byte>, n: nat): Vec
    requires |bytes| == n * width
  {
    if n == 0 then [] else
      assert (n - 1) * width == n * width - width;
      Chunks(read, width, bytes[..(n-1) * width], n - 1) + [read(bytes[(n-1) * width..])]
  }

  function DecodeToF32(f: Floats, e: Embedding): Option<Vec> {
    if !ValidSize(e) then None
    else match e.dtype
      case F32 => Some(Chunks(f.of32, 4, e.vector, e.dim))
      case F64 => Some(Chunks(f.of64, 8, e.vector, e.dim))
      case _ => None
  }

  lemma {:induction false} ChunksLength(read: seq<Byte> -> real, width: nat, bytes: seq<Byte>, n: nat)
    requires |bytes| == n * width
    ensures |Chunks(read, width, bytes, n)| == n
  {
    if n > 0 {
      assert (n - 1) * width == n * width - width;
      ChunksLength(read, width, bytes[..(n-1) * width], n - 1);
    }
  }

  /** A component is read from its own bytes. */
  lemma {:induction false} ChunkAt(read: seq<Byte> -> real, width: nat, bytes: seq<Byte>, n: nat, i: nat)
    requires |bytes| == n * width && i < n
    ensures |Chunks(read, width, bytes, n)| == n && i * width + width <= |bytes|
    ensures Chunks(read, width, bytes, n)[i] == read(bytes[i * width..i * width + width])
  {
    assert (n - 1) * width == n * width - width;
    ChunksLength(read, width, bytes, n);
    var front := bytes[..(n-1) * width];
    ChunksLength(read, width, front, n - 1);
    if i < n - 1 {
      ChunkAt(read, width, front, n - 1, i);
      assert front[i * width..i * width + width] == bytes[i * width..i * width + width];
    } else {
      assert bytes[i * width..i * width + width] == bytes[(n-1) * width..];
    }
  }

  /** Little-endian 32-bit components lie four bytes apart, 64-bit ones eight. */
  lemma DecodedComponent(f: Floats, e: Embedding, i: nat)
    requires i < e.dim
    ensures e.dtype == F32 && |e.vector| == 4 * e.dim ==>
              DecodeToF32(f, e).Some? && |DecodeToF32(f, e).value| == e.dim
              && DecodeToF32(f, e).value[i] == f.of32(e.vector[4*i..4*i+4])
    ensures e.dtype == F64 && |e.vector| == 8 * e.dim ==>
              DecodeToF32(f, e).Some? && |DecodeToF32(f, e).value| == e.dim
              && DecodeToF32(f, e).value[i] == f.of64(e.vector[8*i..8*i+8])
    ensures e.dtype == F16 || e.dtype == I8 ==> DecodeToF32(f, e) == None
  {
    if e.dtype == F32 && |e.vector| == 4 * e.dim { ChunkAt(f.of32, 4, e.vector, e.dim, i); }
    if e.dtype == F64 && |e.vector| == 8 * e.dim { ChunkAt(f.of64, 8, e.vector, e.dim, i); }
  }

  function Normalised(v: Vec, sqrt: real -> real): Vec {
    if Dot(v, v) > 0.0 && sqrt(Dot(v, v)) != 0.0 then Scale(1.0 / sqrt(Dot(v, v)), v) else v
  }

  /** The reciprocal of a zero root does not arise from a correct root. */
  method Normalise(v: array<real>, sqrt: real -> real)
    modifies v
    ensures v[..] == Normalised(old(v[..]), sqrt)
  {
    ghost var before := v[..];
    var sq := 0.0;
    for i := 0 to v.Length
      invariant v[..] == before
      invariant sq == DotTo(before, before, i)
    {
      sq := sq + v[i] * v[i];
    }
    if sq > 0.0 && sqrt(sq) != 0.0 {
      var inv := 1.0 / sqrt(sq);
      for i := 0 to v.Length
        invariant forall j :: 0 <= j < i ==> v[j] == before[j] * inv
        invariant forall j :: i <= j < v.Length ==> v[j] == before[j]
      {
        v[i] := v[i] * inv;
      }
      IsScaled(inv, before, v[..]);
    }
    assert sq == Dot(before, before);
  }

  // ---------- building ----------

  /** Entries that reach the dimension filter. */
  predicate Eligible(e: Entry) {
    e.Entry? && !e.tombstoned && !e.system && e.embed.Some?
  }

  /** The dimension of the first eligible entry, decodable or not. */
  function FirstDim(entries: seq<Entry>): Option<nat> {
    if entries == [] then None
    else
      var before, last := FirstDim(entries[..|entries|-1]), entries[|entries|-1];
      if before.Some? then before
      else if Eligible(last) then Some(last.embed.value.dim)
      else None
  }

  predicate Kept(e: Entry, dim: nat) {
    Eligible(e) && e.embed.value.dim == dim && Decodable(e.embed.value)
  }

  predicate Faulty(e: Entry) {
    e.Broken? || (Eligible(e) && !ValidSize(e.embed.value))
  }

  /** As many bytes as the type and dimension ask for. */
  predicate Fits(e: Embedding) {
    match e.dtype
    case F16 => |e.vector| == 2 * e.dim
    case F32 => |e.vector| == 4 * e.dim
    case F64 => |e.vector| == 8 * e.dim
    case I8 => |e.vector| == e.dim
  }

  /** An error row, or an embedding of a living node whose bytes do not fit its dimension. */
  predicate Unfit(e: Entry) {
    e.Broken? || (!e.tombstoned && !e.system && e.embed.Some? && !Fits(e.embed.value))
  }

  datatype Row = Row(id: NodeId, embed: Embedding)

  /** What the loop keeps, in cursor order. */
  function KeptRows(entries: seq<Entry>, dim: nat): seq<Row> {
    if entries == [] then []
    else
      var front, last := KeptRows(entries[..|entries|-1], dim), entries[|entries|-1];
      if Kept(last, dim) then front + [Row(last.id, last.embed.value)] else front
  }

  function IdsOf(rows: seq<Row>): (r: seq<NodeId>)
    ensures |r| == |rows| && forall i :: 0 <= i < |rows| ==> r[i] == rows[i].id
  {
    if rows == [] then [] else IdsOf(rows[..|rows|-1]) + [rows[|rows|-1].id]
  }

  function PointOf(f: Floats, sqrt: real -> real, e: Embedding): Vec {
    match DecodeToF32(f, e) case None => [] case Some(v) => Normalised(v, sqrt)
  }

  function PointsOf(f: Floats, sqrt: real -> real, rows: seq<Row>): (r: seq<Vec>)
    ensures |r| == |rows| && forall i :: 0 <= i < |rows| ==> r[i] == PointOf(f, sqrt, rows[i].embed)
  {
    if rows == [] then [] else PointsOf(f, sqrt, rows[..|rows|-1]) + [PointOf(f, sqrt, rows[|rows|-1].embed)]
  }

  method NormalisedCopy(v: Vec, sqrt: real -> real) returns (r: Vec)
    ensures r == Normalised(v, sqrt)
  {
    var a := new real[|v|](i requires 0 <= i < |v| => v[i]);
    assert a[..] == v;
    Normalise(a, sqrt);
    r := a[..];
  }

  /** What the loop holds after some entries without a fault among them. */
  ghost predicate BuiltFrom(f: Floats, sqrt: real -> real, entries: seq<Entry>,
                            dim: Option<nat>, ids: seq<NodeId>, points: seq<Vec>)
  {
    dim == FirstDim(entries) &&
    var rows := if dim.Some? then KeptRows(entries, dim.value) else [];
    ids == IdsOf(rows) && points == PointsOf(f, sqrt, rows)
  }

  lemma Skipped(f: Floats, sqrt: real -> real, entries: seq<Entry>, e: Entry,
                dim: Option<nat>, ids: seq<NodeId>, points: seq<Vec>)
    requires BuiltFrom(f, sqrt, entries, dim, ids, points)
    requires Eligible(e) ==> dim.Some? && !Kept(e, dim.value)
    ensures BuiltFrom(f, sqrt, entries + [e], dim, ids, points)
  {
    assert (entries + [e])[..|entries|] == entries;
  }

  lemma Appended(f: Floats, sqrt: real -> real, entries: seq<Entry>, e: Entry,
                 dim: Option<nat>, ids: seq<NodeId>, points: seq<Vec>)
    requires BuiltFrom(f, sqrt, entries, dim, ids, points)
    requires Eligible(e) && (dim.Some? ==> Kept(e, dim.value)) && Decodable(e.embed.value)
    ensures BuiltFrom(f, sqrt, entries + [e], Some(e.embed.value.dim), ids + [e.id],
                      points + [PointOf(f, sqrt, e.embed.value)])
  {
    assert (entries + [e])[..|entries|] == entries;
    if dim == None { NothingKeptBeforeDim(entries, e.embed.value.dim); }
    var rows := KeptRows(entries, e.embed.value.dim);
    var row := Row(e.id, e.embed.value);
    assert (rows + [row])[..|rows|] == rows;
  }

  method BuildFromRepoWith(f: Floats, sqrt: real -> real, entries: seq<Entry>, efSearch: nat) returns (b: Build)
    ensures b.BuildError? <==> exists e :: e in entries && Faulty(e)
    ensures b.BuildError? <==> exists i :: 0 <= i < |entries| && Unfit(entries[i])
    ensures b.Built? ==>
      BuiltFrom(f, sqrt, entries, FirstDim(entries), b.index.ids, b.index.points)
      && b.index.dim == (if FirstDim(entries).Some? then FirstDim(entries).value else 0)
      && b.index.efSearch == efSearch
  {
    var ids: seq<NodeId> := [];
    var points: seq<Vec> := [];
    var dim: Option<nat> := None;
    for i := 0 to |entries|
      invariant forall j :: 0 <= j < i ==> !Faulty(entries[j])
      invariant BuiltFrom(f, sqrt, entries[..i], dim, ids, points)
    {
      var e := entries[i];
      assert entries[..i+1] == entries[..i] + [e];
      if e.Broken? {
        assert Faulty(entries[i]);
        return BuildError;
      }
      if e.tombstoned || e.system || e.embed == None {
        Skipped(f, sqrt, entries[..i], e, dim, ids, points);
        continue;
      }
      var embed := e.embed.value;
      if !ValidSize(embed) {
        assert Faulty(entries[i]);
        return BuildError;
      }
      if dim.Some? && embed.dim != dim.value {
        Skipped(f, sqrt, entries[..i], e, dim, ids, points);
        continue;
      }
      var v := DecodeToF32(f, embed);
      if v == None {
        Undecodable(f, sqrt, entries[..i], e, dim, ids, points);
        dim := Some(embed.dim);
        continue;
      }
      Appended(f, sqrt, entries[..i], e, dim, ids, points);
      dim := Some(embed.dim);
      var normalised := NormalisedCopy(v.value, sqrt);
      ids := ids + [e.id];
      points := points + [normalised];
    }
    assert entries[..|entries|] == entries;
    return Built(VectorIndex(if dim.Some? then dim.value else 0, ids, points, efSearch));
  }

  /** The first embedding fixes the dimension even when it cannot be decoded. */
  lemma Undecodable(f: Floats, sqrt: real -> real, entries: seq<Entry>, e: Entry,
                    dim: Option<nat>, ids: seq<NodeId>, points: seq<Vec>)
    requires BuiltFrom(f, sqrt, entries, dim, ids, points)
    requires Eligible(e) && !Decodable(e.embed.value) && (dim.Some? ==> e.embed.value.dim == dim.value)
    ensures BuiltFrom(f, sqrt, entries + [e], Some(e.embed.value.dim), ids, points)
  {
    assert (entries + [e])[..|entries|] == entries;
    if dim == None { NothingKeptBeforeDim(entries, e.embed.value.dim); }
  }

  /** As long as no dimension has been seen, nothing has been kept. */
  lemma {:induction false} NothingKeptBeforeDim(entries: seq<Entry>, dim: nat)
    requires FirstDim(entries) == None
    ensures KeptRows(entries, dim) == []
  {
    if entries != [] { NothingKeptBeforeDim(entries[..|entries|-1], dim); }
  }

  // ---------- searching ----------

  type Hit = KnnEdges.Scored

  datatype Search = DimMismatch | Hits(hits: seq<Hit>)

  method Distance(a: Vec, b: Vec) returns (acc: real)
    ensures acc == SqDist(a, b)
  {
    acc := 0.0;
    for i := 0 to Common(a, b)
      invariant acc == SqDistTo(a, b, i)
    {
      var d := a[i] - b[i];
      acc := acc + d * d;
    }
  }

  predicate Outranks(h: Hit, other: Hit) {
    h.0 > other.0 || (h.0 == other.0 && h.1 <= other.1)
  }

  /** Hits that were offered, the best first, and none outranked by one that is left out. */
  ghost predicate BestOf(offered: iset<Hit>, hits: seq<Hit>) {
    && (forall h :: h in hits ==> h in offered)
    && (forall i, j :: 0 <= i < j < |hits| ==> Outranks(hits[i], hits[j]))
    && (forall h, i :: h in offered && h !in hits && 0 <= i < |hits| ==> Outranks(hits[i], h))
  }

  lemma CloserFirstIsWeak()
    ensures WeakOrder(KnnEdges.CloserFirst)
  {
  }

  lemma TopIsBest(s: seq<Hit>, k: nat, offered: iset<Hit>)
    requires forall h :: h in offered <==> h in s
    ensures |Top(KnnEdges.CloserFirst, s, k)| == if |s| <= k then |s| else k
    ensures BestOf(offered, Top(KnnEdges.CloserFirst, s, k))
  {
    CloserFirstIsWeak();
    var n := if |s| <= k then |s| else k;
    TakeOfSorted(KnnEdges.CloserFirst, s, n);
    var top, sorted := Top(KnnEdges.CloserFirst, s, k), SortBy(KnnEdges.CloserFirst, s);
    assert top == sorted[..n];
    forall i, j | 0 <= i < j < |top| ensures Outranks(top[i], top[j]) { assert !KnnEdges.CloserFirst(top[j], top[i]); }
    forall h, i | h in offered && h !in top && 0 <= i < |top| ensures Outranks(top[i], h) {
      assert !KnnEdges.CloserFirst(h, sorted[i]);
    }
  }

  function Aligned(x: VectorIndex): bool {
    |x.points| == |x.ids|
  }

  function ScoreFromDistance(d: real): real {
    1.0 - d * 0.5
  }

  function HitAt(x: VectorIndex, q: Vec, o: nat): Hit
    requires Aligned(x) && o < |x.ids|
  {
    (ScoreFromDistance(SqDist(q, x.points[o])), x.ids[o])
  }

  /** The scored hits of some ordinals. */
  function HitsAt(x: VectorIndex, q: Vec, ordinals: seq<nat>): (r: seq<Hit>)
    requires Aligned(x) && forall i :: 0 <= i < |ordinals| ==> ordinals[i] < |x.ids|
    ensures |r| == |ordinals| && forall i :: 0 <= i < |ordinals| ==> r[i] == HitAt(x, q, ordinals[i])
  {
    if ordinals == [] then []
    else HitsAt(x, q, ordinals[..|ordinals|-1]) + [HitAt(x, q, ordinals[|ordinals|-1])]
  }

  function Top<T>(before: (T, T) -> bool, s: seq<T>, k: nat): seq<T> {
    var sorted := SortBy(before, s);
    if |sorted| <= k then sorted else sorted[..k]
  }

  function Fetched(x: VectorIndex, candidates: seq<nat>, k: nat): seq<nat> {
    var fetch := if k >= x.efSearch then k else x.efSearch;
    if |candidates| <= fetch then candidates else candidates[..fetch]
  }

  /** A candidate is looked at when it is among the first k, or within the search width. */
  ghost predicate LookedAt(x: VectorIndex, candidates: seq<nat>, k: nat, i: int) {
    0 <= i < |candidates| && (i < k || i < x.efSearch)
  }

  /** The k best of the candidates looked at, each scored one minus half its distance. */
  ghost predicate Answers(x: VectorIndex, q: Vec, candidates: seq<nat>, k: nat, hits: seq<Hit>)
    requires Aligned(x) && forall i :: 0 <= i < |candidates| ==> candidates[i] < |x.ids|
  {
    && |hits| == (if |candidates| <= k then |candidates| else k)
    && BestOf(iset i | LookedAt(x, candidates, k, i) :: (1.0 - SqDist(q, x.points[candidates[i]]) / 2.0, x.ids[candidates[i]]), hits)
  }

  lemma FetchedAreLookedAt(x: VectorIndex, candidates: seq<nat>, k: nat, i: int)
    ensures LookedAt(x, candidates, k, i) <==> 0 <= i < |Fetched(x, candidates, k)|
    ensures LookedAt(x, candidates, k, i) ==> Fetched(x, candidates, k)[i] == candidates[i]
    ensures |candidates| > k ==> |Fetched(x, candidates, k)| >= k
    ensures |candidates| <= k ==> Fetched(x, candidates, k) == candidates
  {
  }

  lemma FetchedAnswer(x: VectorIndex, q: Vec, candidates: seq<nat>, k: nat)
    requires Aligned(x) && forall i :: 0 <= i < |candidates| ==> candidates[i] < |x.ids|
    ensures forall i :: 0 <= i < |Fetched(x, candidates, k)| ==> Fetched(x, candidates, k)[i] < |x.ids|
    ensures Answers(x, q, candidates, k, Top(KnnEdges.CloserFirst, HitsAt(x, q, Fetched(x, candidates, k)), k))
  {
    var s := HitsAt(x, q, Fetched(x, candidates, k));
    var offered := iset i | LookedAt(x, candidates, k, i)
      :: (1.0 - SqDist(q, x.points[candidates[i]]) / 2.0, x.ids[candidates[i]]);
    FetchedAreLookedAt(x, candidates, k, 0);
    forall h ensures h in offered <==> h in s {
      if h in offered {
        var i :| LookedAt(x, candidates, k, i) && h == (1.0 - SqDist(q, x.points[candidates[i]]) / 2.0, x.ids[candidates[i]]);
        FetchedAreLookedAt(x, candidates, k, i);
        assert s[i] == h;
      }
      if h in s {
        var i :| 0 <= i < |s| && s[i] == h;
        FetchedAreLookedAt(x, candidates, k, i);
      }
    }
    TopIsBest(s, k, offered);
  }

  lemma SearchedAnswers(x: VectorIndex, sqrt: real -> real, candidates: seq<nat>, query: Vec, k: nat)
    requires Aligned(x) && |query| == x.dim && forall i :: 0 <= i < |candidates| ==> candidates[i] < |x.ids|
    ensures Searched(x, sqrt, candidates, query, k).Hits?
    ensures Answers(x, Normalised(query, sqrt), candidates, k, Searched(x, sqrt, candidates, query, k).hits)
  {
    FetchedAnswer(x, Normalised(query, sqrt), candidates, k);
  }

  /** The answer to a query, given the candidates of the graph. */
  function Searched(x: VectorIndex, sqrt: real -> real, candidates: seq<nat>, query: Vec, k: nat): Search
    requires Aligned(x) && forall i :: 0 <= i < |candidates| ==> candidates[i] < |x.ids|
  {
    if x.dim == 0 && x.ids == [] then Hits([])
    else if |query| != x.dim then DimMismatch
    else Hits(Top(KnnEdges.CloserFirst, HitsAt(x, Normalised(query, sqrt), Fetched(x, candidates, k)), k))
  }

  /** candidates is what the graph returns, each ordinal with its true distance. */
  method SearchIndex(x: VectorIndex, sqrt: real -> real, candidates: seq<nat>, query: Vec, k: nat) returns (r: Search)
    requires Aligned(x) && forall i :: 0 <= i < |candidates| ==> candidates[i] < |x.ids|
    ensures r == Searched(x, sqrt, candidates, query, k)
    ensures r.DimMismatch? <==> |query| != x.dim && !(x.dim == 0 && x.ids == [])
    ensures x.dim == 0 && x.ids == [] ==> r == Hits([])
    ensures r.Hits? && |query| == x.dim ==> Answers(x, Normalised(query, sqrt), candidates, k, r.hits)
  {
    if |query| == x.dim { SearchedAnswers(x, sqrt, candidates, query, k); }
    if x.dim == 0 && |x.ids| == 0 {
      return Hits([]);
    }
    if |query| != x.dim {
      return DimMismatch;
    }
    if k == 0 {
      return Hits([]);
    }
    var q := NormalisedCopy(query, sqrt);
    var hits := CollectHits(x, q, Fetched(x, candidates, k));
    hits := SortBy(KnnEdges.CloserFirst, hits);
    if |hits| > k {
      hits := hits[..k];
    }
    return Hits(hits);
  }

  method CollectHits(x: VectorIndex, q: Vec, fetched: seq<nat>) returns (hits: seq<Hit>)
    requires Aligned(x) && forall i :: 0 <= i < |fetched| ==> fetched[i] < |x.ids|
    ensures hits == HitsAt(x, q, fetched)
  {
    hits := [];
    for i := 0 to |fetched|
      invariant hits == HitsAt(x, q, fetched[..i])
    {
      var distance := Distance(q, x.points[fetched[i]]);
      assert fetched[..i+1][..i] == fetched[..i];
      hits := hits + [(1.0 - distance * 0.5, x.ids[fetched[i]])];
    }
    assert fetched[..|fetched|] == fetched;
  }
}
