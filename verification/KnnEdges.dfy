/** Exact k-nearest-neighbour edges over a set of vectors
    (crates/mnem-ann/src/knn_edges.rs). */
module KnnEdges {
  import opened Ordering
  import opened RealVectors

  /** A 16-byte id under its byte order, which is the order of the numbers it spells. */
  type NodeId = nat

  datatype DistanceMetric = Cosine | L2 | DotProduct

  datatype KnnEdge = KnnEdge(src: NodeId, dst: NodeId, weight: real)

  type Scored = (real, NodeId)
  type Similarity = (Vec, Vec) -> real

  /** Similarity under a metric, larger being closer. */
  function Sim(metric: DistanceMetric, sqrt: real -> real): Similarity {
    (a: Vec, b: Vec) =>
      if metric == L2 then Reciprocal(sqrt(SqDist(a, b))) else Dot(a, b)
  }

  function Reciprocal(d: real): real {
    if 1.0 + d == 0.0 then 0.0 else 1.0 / (1.0 + d)
  }

  predicate CloserFirst(a: Scored, b: Scored) {
    a.0 > b.0 || (a.0 == b.0 && a.1 < b.1)
  }

  predicate EdgeBefore(a: KnnEdge, b: KnnEdge) {
    a.src < b.src || (a.src == b.src && a.dst < b.dst)
  }

  function Min(a: nat, b: nat): nat {
    if a <= b then a else b
  }

  // ---------- what the loops compute ----------

  function ScoredTo(ids: seq<NodeId>, vecs: seq<Vec>, sim: Similarity, i: nat, j: nat): seq<Scored>
    requires |ids| == |vecs| && i < |ids| && j <= |ids|
  {
    if j == 0 then []
    else ScoredTo(ids, vecs, sim, i, j - 1)
         + if j - 1 == i then [] else [(sim(vecs[i], vecs[j-1]), ids[j-1])]
  }

  function Ranked(ids: seq<NodeId>, vecs: seq<Vec>, sim: Similarity, i: nat): seq<Scored>
    requires |ids| == |vecs| && i < |ids|
  {
    SortBy(CloserFirst, ScoredTo(ids, vecs, sim, i, |ids|))
  }

  function EdgesOf(src: NodeId, ranked: seq<Scored>): (r: seq<KnnEdge>)
    ensures |r| == |ranked|
  {
    seq(|ranked|, i requires 0 <= i < |ranked| => KnnEdge(src, ranked[i].1, ranked[i].0))
  }

  function OutEdges(ids: seq<NodeId>, vecs: seq<Vec>, sim: Similarity, k: nat, i: nat): seq<KnnEdge>
    requires |ids| == |vecs| && i < |ids|
  {
    var ranked := Ranked(ids, vecs, sim, i);
    EdgesOf(ids[i], ranked[..Min(k, |ranked|)])
  }

  function RawEdges(ids: seq<NodeId>, vecs: seq<Vec>, sim: Similarity, k: nat, n: nat): seq<KnnEdge>
    requires |ids| == |vecs| && n <= |ids|
  {
    if n == 0 then []
    else RawEdges(ids, vecs, sim, k, n - 1) + OutEdges(ids, vecs, sim, k, n - 1)
  }

  function Derived(ids: seq<NodeId>, vecs: seq<Vec>, sim: Similarity, k: nat): seq<KnnEdge>
    requires |ids| == |vecs|
  {
    SortBy(EdgeBefore, RawEdges(ids, vecs, sim, k, |ids|))
  }

  // ---------- the derivation itself ----------

  method ComputeSimilarity(a: Vec, b: Vec, metric: DistanceMetric, sqrt: real -> real) returns (s: real)
    ensures s == Sim(metric, sqrt)(a, b)
    ensures metric != L2 ==> s == Dot(a, b)
    ensures metric == L2 && IsSqrt(sqrt) ==> s * (1.0 + sqrt(SqDist(a, b))) == 1.0
  {
    SimMeans(metric, sqrt, a, b);
    var n := if |a| <= |b| then |a| else |b|;
    if metric == L2 {
      var acc := 0.0;
      for i := 0 to n
        invariant acc == SqDistTo(a, b, i)
      {
        var d := a[i] - b[i];
        acc := acc + d * d;
      }
      assert acc == SqDist(a, b);
      s := Reciprocal(sqrt(acc));
    } else {
      s := 0.0;
      for i := 0 to n
        invariant s == DotTo(a, b, i)
      {
        s := s + a[i] * b[i];
      }
      assert s == Dot(a, b);
    }
  }

  /** What a weight says: the dot product, or the reciprocal of one plus the distance. */
  lemma SimMeans(metric: DistanceMetric, sqrt: real -> real, a: Vec, b: Vec)
    ensures metric != L2 ==> Sim(metric, sqrt)(a, b) == Dot(a, b)
    ensures metric == L2 && IsSqrt(sqrt) ==> Sim(metric, sqrt)(a, b) * (1.0 + sqrt(SqDist(a, b))) == 1.0
  {
    SqDistNonNegative(a, b, Common(a, b));
    if IsSqrt(sqrt) { ReciprocalCancels(sqrt(SqDist(a, b))); }
  }

  lemma ReciprocalCancels(d: real)
    requires 0.0 <= d
    ensures Reciprocal(d) * (1.0 + d) == 1.0
  {
  }

  /** The scratch list of one source. */
  method ScoreOthers(ids: seq<NodeId>, vecs: seq<Vec>, i: nat, metric: DistanceMetric, sqrt: real -> real)
    returns (scored: seq<Scored>)
    requires |ids| == |vecs| && i < |ids|
    ensures scored == ScoredTo(ids, vecs, Sim(metric, sqrt), i, |ids|)
  {
    scored := [];
    for j := 0 to |ids|
      invariant scored == ScoredTo(ids, vecs, Sim(metric, sqrt), i, j)
    {
      if i == j {
        continue;
      }
      var s := ComputeSimilarity(vecs[i], vecs[j], metric, sqrt);
      scored := scored + [(s, ids[j])];
    }
  }

  /** The edges pushed for one source. */
  method TakeEdges(src: NodeId, scored: seq<Scored>, k: nat) returns (out: seq<KnnEdge>)
    requires k <= |scored|
    ensures out == EdgesOf(src, scored[..k])
  {
    out := [];
    for t := 0 to k
      invariant out == EdgesOf(src, scored[..t])
    {
      out := out + [KnnEdge(src, scored[t].1, scored[t].0)];
    }
  }

  /** One turn of the loop: score the others, sort, take the first. */
  method EdgesFrom(ids: seq<NodeId>, vecs: seq<Vec>, i: nat, k: nat, kk: nat, metric: DistanceMetric, sqrt: real -> real)
    returns (out: seq<KnnEdge>)
    requires |ids| == |vecs| && i < |ids| && kk == Min(k, |ids| - 1)
    ensures out == OutEdges(ids, vecs, Sim(metric, sqrt), k, i)
  {
    var scored := ScoreOthers(ids, vecs, i, metric, sqrt);
    RankedLength(ids, vecs, Sim(metric, sqrt), i);
    scored := SortBy(CloserFirst, scored);
    out := TakeEdges(ids[i], scored, kk);
  }

  method DeriveKnnEdgesFromVectors(ids: seq<NodeId>, vecs: seq<Vec>, k: nat,
                                   metric: DistanceMetric, sqrt: real -> real)
    returns (edges: seq<KnnEdge>)
    requires |ids| == |vecs|
    ensures edges == Derived(ids, vecs, Sim(metric, sqrt), k)
  {
    var n := |ids|;
    ghost var sim := Sim(metric, sqrt);
    if n == 0 || k == 0 {
      NothingToDerive(ids, vecs, sim, k, n);
      return [];
    }
    var kk := Min(k, n - 1);
    if kk == 0 {
      NothingToDerive(ids, vecs, sim, k, n);
      return [];
    }
    edges := [];
    for i := 0 to n
      invariant edges == RawEdges(ids, vecs, sim, k, i)
    {
      var out := EdgesFrom(ids, vecs, i, k, kk, metric, sqrt);
      edges := edges + out;
    }
    edges := SortBy(EdgeBefore, edges);
  }

  lemma {:induction false} ScoredLength(ids: seq<NodeId>, vecs: seq<Vec>, sim: Similarity, i: nat, j: nat)
    requires |ids| == |vecs| && i < |ids| && j <= |ids|
    ensures |ScoredTo(ids, vecs, sim, i, j)| == if i < j then j - 1 else j
  {
    if j > 0 { ScoredLength(ids, vecs, sim, i, j - 1); }
  }

  lemma RankedLength(ids: seq<NodeId>, vecs: seq<Vec>, sim: Similarity, i: nat)
    requires |ids| == |vecs| && i < |ids|
    ensures |Ranked(ids, vecs, sim, i)| == |ids| - 1
  {
    ScoredLength(ids, vecs, sim, i, |ids|);
    SortKeeps(CloserFirst, ScoredTo(ids, vecs, sim, i, |ids|));
  }

  lemma {:induction false} NothingToDerive(ids: seq<NodeId>, vecs: seq<Vec>, sim: Similarity, k: nat, n: nat)
    requires |ids| == |vecs| && n <= |ids|
    requires k == 0 || |ids| <= 1
    ensures RawEdges(ids, vecs, sim, k, n) == []
  {
    if n > 0 {
      NothingToDerive(ids, vecs, sim, k, n - 1);
      RankedLength(ids, vecs, sim, n - 1);
    }
  }
}
