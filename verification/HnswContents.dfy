/** What a built index holds, down to the bytes of each component. */
module HnswContents {
  import opened Options
  import opened RealVectors
  import opened HnswIndex
  import opened HnswLaws
  import opened BruteForceIndex

  /** What the filters let through, written out. */
  predicate Indexable(e: Entry, dim: nat) {
    && e.Entry? && !e.tombstoned && !e.system && e.embed.Some? && e.embed.value.dim == dim
    && ((e.embed.value.dtype == F32 && |e.embed.value.vector| == 4 * dim)
        || (e.embed.value.dtype == F64 && |e.embed.value.vector| == 8 * dim))
  }

  /** How many of the first entries are let through. */
  function IndexedBefore(entries: seq<Entry>, dim: nat, i: nat): nat
    requires i <= |entries|
  {
    if i == 0 then 0 else IndexedBefore(entries, dim, i - 1) + if Indexable(entries[i-1], dim) then 1 else 0
  }

  /** The rows are the entries let through, in cursor order. */
  lemma {:induction false} KeptInOrder(entries: seq<Entry>, dim: nat, n: nat)
    requires n <= |entries|
    ensures |KeptRows(entries[..n], dim)| == IndexedBefore(entries, dim, n)
    ensures forall i :: 0 <= i < n && Indexable(entries[i], dim) ==>
              IndexedBefore(entries, dim, i) < |KeptRows(entries[..n], dim)|
              && KeptRows(entries[..n], dim)[IndexedBefore(entries, dim, i)] == Row(entries[i].id, entries[i].embed.value)
    decreases n
  {
    if n > 0 {
      KeptInOrder(entries, dim, n - 1);
      assert entries[..n][..n-1] == entries[..n-1];
      assert Kept(entries[n-1], dim) <==> Indexable(entries[n-1], dim);
    }
  }

  lemma {:induction false} FirstEligible(entries: seq<Entry>, i: nat)
    requires i < |entries| && Eligible(entries[i]) && forall j :: 0 <= j < i ==> !Eligible(entries[j])
    ensures FirstDim(entries) == Some(entries[i].embed.value.dim)
  {
    var front := entries[..|entries|-1];
    assert forall j :: 0 <= j < |front| ==> entries[j] == front[j];
    if i < |front| {
      FirstEligible(front, i);
    } else {
      NoneEligible(front);
    }
  }

  lemma {:induction false} NoneEligible(entries: seq<Entry>)
    requires forall j :: 0 <= j < |entries| ==> !Eligible(entries[j])
    ensures FirstDim(entries) == None
  {
    if entries != [] {
      var front := entries[..|entries|-1];
      assert forall j :: 0 <= j < |front| ==> entries[j] == front[j];
      NoneEligible(front);
    }
  }

  /** The dimension is that of the first embedding that passes the filters. */
  lemma BuiltDim(f: Floats, sqrt: real -> real, entries: seq<Entry>, x: VectorIndex, i: nat)
    requires IsBuild(f, sqrt, entries, x) && i < |entries|
    requires entries[i].Entry? && !entries[i].tombstoned && !entries[i].system && entries[i].embed.Some?
    requires forall j :: 0 <= j < i && entries[j].Entry? && entries[j].embed.Some? ==> entries[j].tombstoned || entries[j].system
    ensures x.dim == entries[i].embed.value.dim
  {
    FirstEligible(entries, i);
  }

  // ---------- vectors ----------

  /** A component as it is stored: little-endian, four or eight bytes wide. */
  function Component(f: Floats, e: Embedding, i: nat): real
    requires i < e.dim && |e.vector| == (if e.dtype == F32 then 4 else 8) * e.dim
  {
    if e.dtype == F32 then f.of32(e.vector[4*i..4*i+4]) else f.of64(e.vector[8*i..8*i+8])
  }

  lemma DecodesTo(f: Floats, e: Embedding, v: Vec)
    requires Decodable(e) && |e.vector| == (if e.dtype == F32 then 4 else 8) * e.dim
    requires |v| == e.dim && forall i :: 0 <= i < e.dim ==> v[i] == Component(f, e, i)
    ensures DecodeToF32(f, e) == Some(v)
  {
    DecodedLength(f, e);
    forall i | 0 <= i < e.dim ensures DecodeToF32(f, e).value[i] == v[i] { DecodedComponent(f, e, i); }
    assert DecodeToF32(f, e).value == v;
  }

  lemma DecodedLength(f: Floats, e: Embedding)
    requires Decodable(e)
    ensures DecodeToF32(f, e).Some? && |DecodeToF32(f, e).value| == e.dim
  {
    if e.dtype == F32 { ChunksLength(f.of32, 4, e.vector, e.dim); } else { ChunksLength(f.of64, 8, e.vector, e.dim); }
  }

  /** Normalising, component by component. */
  lemma NormalisedMeans(v: Vec, sqrt: real -> real, i: nat)
    requires IsSqrt(sqrt) && i < |v|
    ensures |Normalised(v, sqrt)| == |v|
    ensures IsZero(v) ==> Normalised(v, sqrt)[i] == v[i]
    ensures !IsZero(v) ==> 0.0 < sqrt(Dot(v, v)) && Normalised(v, sqrt)[i] == v[i] / sqrt(Dot(v, v))
  {
    NormalisedIsUnitIff(v, sqrt);
    if !IsZero(v) {
      var c :| 0 <= c < |v| && v[c] != 0.0;
      DotSelfPositive(v, |v|, c);
      ScalesToUnit(v, sqrt);
      ByReciprocal(v[i], sqrt(Dot(v, v)));
    }
  }

  /** v over its norm, unless v is zero. */
  ghost predicate IsDirection(sqrt: real -> real, v: Vec, p: Vec) {
    && |p| == |v| && (IsZero(v) ==> p == v)
    && (!IsZero(v) ==> 0.0 < sqrt(Dot(v, v)) && forall i :: 0 <= i < |p| ==> p[i] == v[i] / sqrt(Dot(v, v)))
  }

  lemma NormalisedIsDirection(sqrt: real -> real, v: Vec)
    requires IsSqrt(sqrt)
    ensures IsDirection(sqrt, v, Normalised(v, sqrt))
  {
    var p := Normalised(v, sqrt);
    forall i | 0 <= i < |v| ensures |p| == |v| && (IsZero(v) ==> p[i] == v[i])
                                  && (!IsZero(v) ==> 0.0 < sqrt(Dot(v, v)) && p[i] == v[i] / sqrt(Dot(v, v)))
    {
      NormalisedMeans(v, sqrt, i);
    }
    NormalisedIsUnitIff(v, sqrt);
  }

  /** The vector is read component by component, and normalised. */
  ghost predicate Spells(f: Floats, sqrt: real -> real, e: Embedding, p: Vec)
    requires |e.vector| == (if e.dtype == F32 then 4 else 8) * e.dim
  {
    IsDirection(sqrt, seq(e.dim, i requires 0 <= i < e.dim => Component(f, e, i)), p)
  }

  lemma PointSpells(f: Floats, sqrt: real -> real, e: Embedding)
    requires IsSqrt(sqrt) && (e.dtype == F32 || e.dtype == F64) && |e.vector| == (if e.dtype == F32 then 4 else 8) * e.dim
    ensures Spells(f, sqrt, e, PointOf(f, sqrt, e))
  {
    var v := seq(e.dim, i requires 0 <= i < e.dim => Component(f, e, i));
    DecodesTo(f, e, v);
    NormalisedIsDirection(sqrt, v);
  }

  /** The rows of a built index are the entries the filters let through, in cursor order; each
      vector is what its bytes spell. */
  lemma BuiltRows(f: Floats, sqrt: real -> real, entries: seq<Entry>, x: VectorIndex)
    requires IsSqrt(sqrt) && IsBuild(f, sqrt, entries, x)
    ensures |x.ids| == |x.points| == IndexedBefore(entries, x.dim, |entries|)
    ensures forall i :: 0 <= i < |entries| && Indexable(entries[i], x.dim) ==>
              RowSpells(f, sqrt, entries[i], x, IndexedBefore(entries, x.dim, i))
  {
    var rows := KeptRows(entries, x.dim);
    KeptInOrder(entries, x.dim, |entries|);
    assert entries[..|entries|] == entries;
    if FirstDim(entries) == None { NothingKeptBeforeDim(entries, x.dim); }
    forall i | 0 <= i < |entries| && Indexable(entries[i], x.dim)
      ensures RowSpells(f, sqrt, entries[i], x, IndexedBefore(entries, x.dim, i))
    {
      PointSpells(f, sqrt, entries[i].embed.value);
    }
  }

  ghost predicate RowSpells(f: Floats, sqrt: real -> real, e: Entry, x: VectorIndex, n: nat)
    requires Indexable(e, x.dim)
  {
    n < |x.ids| && n < |x.points| && x.ids[n] == e.id && Spells(f, sqrt, e.embed.value, x.points[n])
  }

  // ---------- the brute-force index ----------

  function BruteBefore(entries: seq<Entry>, dim: nat, i: nat): nat
    requires i <= |entries|
  {
    if i == 0 then 0 else BruteBefore(entries, dim, i - 1) + if BruteIndexable(entries[i-1], dim) then 1 else 0
  }

  predicate BruteIndexable(e: Entry, dim: nat) {
    e.Entry? && e.embed.Some? && e.embed.value.dim == dim && Fits(e.embed.value)
  }

  lemma {:induction false} BruteInOrder(entries: seq<Entry>, dim: nat, n: nat)
    requires n <= |entries|
    ensures |BruteRows(entries[..n], dim)| == BruteBefore(entries, dim, n)
    ensures forall i :: 0 <= i < n && BruteIndexable(entries[i], dim) ==>
              BruteBefore(entries, dim, i) < |BruteRows(entries[..n], dim)|
              && BruteRows(entries[..n], dim)[BruteBefore(entries, dim, i)] == Row(entries[i].id, entries[i].embed.value)
    decreases n
  {
    if n > 0 {
      BruteInOrder(entries, dim, n - 1);
      assert entries[..n][..n-1] == entries[..n-1];
      assert BruteHolds(entries[n-1], dim) <==> BruteIndexable(entries[n-1], dim);
    }
  }

  function BruteComponent(a: AllFloats, e: Embedding, i: nat): real
    requires i < e.dim && Fits(e)
  {
    match e.dtype
    case F16 => a.of16(e.vector[2*i..2*i+2])
    case F32 => a.f.of32(e.vector[4*i..4*i+4])
    case F64 => a.f.of64(e.vector[8*i..8*i+8])
    case I8 => a.of8(e.vector[i..i+1])
  }

  lemma BruteDecodesAt(a: AllFloats, e: Embedding, i: nat)
    requires Fits(e) && i < e.dim
    ensures DecodeAll(a, e).Some? && |DecodeAll(a, e).value| == e.dim && DecodeAll(a, e).value[i] == BruteComponent(a, e, i)
  {
    match e.dtype
    case F16 => ChunkAt(a.of16, 2, e.vector, e.dim, i);
    case F32 => ChunkAt(a.f.of32, 4, e.vector, e.dim, i);
    case F64 => ChunkAt(a.f.of64, 8, e.vector, e.dim, i);
    case I8 => ChunkAt(a.of8, 1, e.vector, e.dim, i);
  }

  lemma BrutePointSpells(a: AllFloats, sqrt: real -> real, e: Embedding)
    requires IsSqrt(sqrt) && Fits(e)
    ensures IsDirection(sqrt, seq(e.dim, i requires 0 <= i < e.dim => BruteComponent(a, e, i)), BrutePoint(a, sqrt, e))
  {
    var v := seq(e.dim, i requires 0 <= i < e.dim => BruteComponent(a, e, i));
    AllDecodedLength(a, e);
    var w := DecodeAll(a, e).value;
    forall i | 0 <= i < e.dim ensures w[i] == v[i] { BruteDecodesAt(a, e, i); }
    assert w == v;
    NormalisedIsDirection(sqrt, v);
  }

  ghost predicate BruteRowSpells(a: AllFloats, sqrt: real -> real, e: Entry, b: VectorIndex, n: nat)
    requires BruteIndexable(e, b.dim)
  {
    && n < |b.ids| && n < |b.points| && b.ids[n] == e.id
    && IsDirection(sqrt, seq(b.dim, i requires 0 <= i < b.dim => BruteComponent(a, e.embed.value, i)), b.points[n])
  }

  /** The rows of a brute-force index, likewise: all embeddings of its dimension, of every type. */
  lemma BruteBuiltRows(a: AllFloats, sqrt: real -> real, entries: seq<Entry>, b: VectorIndex)
    requires IsSqrt(sqrt) && IsBruteBuild(a, sqrt, entries, b) && FirstEmbedDim(entries).Some?
    ensures |b.ids| == |b.points| == BruteBefore(entries, b.dim, |entries|)
    ensures forall i :: 0 <= i < |entries| && BruteIndexable(entries[i], b.dim) ==>
              BruteRowSpells(a, sqrt, entries[i], b, BruteBefore(entries, b.dim, i))
  {
    BruteInOrder(entries, b.dim, |entries|);
    assert entries[..|entries|] == entries;
    forall i | 0 <= i < |entries| && BruteIndexable(entries[i], b.dim)
      ensures BruteRowSpells(a, sqrt, entries[i], b, BruteBefore(entries, b.dim, i))
    {
      BrutePointSpells(a, sqrt, entries[i].embed.value);
    }
  }
}
