/** Exactly when a derived edge list does not depend on the order of its input. */
module KnnCanonical {
  import opened Options
  import opened Ordering
  import opened RealVectors
  import opened KnnEdges
  import opened KnnGraph
  import opened KnnLaws
  import opened KnnOrder

  ghost predicate Permuted(ids: seq<NodeId>, vecs: seq<Vec>, ids': seq<NodeId>, vecs': seq<Vec>) {
    |ids| == |vecs| && |ids'| == |vecs'| && multiset(Pairs(ids, vecs)) == multiset(Pairs(ids', vecs'))
  }

  /** Over all vectors for the given ids. */
  ghost predicate AlwaysCanonical(ids: seq<NodeId>, k: nat, sim: Similarity) {
    forall vecs, ids', vecs' ::
      Permuted(ids, vecs, ids', vecs') ==> Derived(ids, vecs, sim, k) == Derived(ids', vecs', sim, k)
  }

  ghost predicate AllUnit(vecs: seq<Vec>) {
    forall i :: 0 <= i < |vecs| ==> |vecs[i]| == 2 && Unit(vecs[i])
  }

  /** Over unit vectors in the plane only. */
  ghost predicate CanonicalOnUnitVectors(ids: seq<NodeId>, k: nat, sim: Similarity) {
    forall vecs, ids', vecs' ::
      Permuted(ids, vecs, ids', vecs') && AllUnit(vecs) ==> Derived(ids, vecs, sim, k) == Derived(ids', vecs', sim, k)
  }

  predicate Settles(ids: seq<NodeId>, k: nat) {
    |ids| <= 2 || k == 0
  }

  // ---------- two rows, or no edges ----------

  lemma {:induction false} SymmetricDot(a: Vec, b: Vec, n: nat)
    requires n <= Common(a, b)
    ensures DotTo(a, b, n) == DotTo(b, a, n) && SqDistTo(a, b, n) == SqDistTo(b, a, n)
    decreases n
  {
    if n > 0 {
      SymmetricDot(a, b, n - 1);
      SquareOfNegation(a[n-1] - b[n-1]);
    }
  }

  lemma SymmetricSim(metric: DistanceMetric, sqrt: real -> real, a: Vec, b: Vec)
    ensures Sim(metric, sqrt)(a, b) == Sim(metric, sqrt)(b, a)
  {
    SymmetricDot(a, b, Common(a, b));
    assert Dot(a, b) == Dot(b, a) && SqDist(a, b) == SqDist(b, a);
  }

  lemma SingleScore(ids: seq<NodeId>, vecs: seq<Vec>, sim: Similarity)
    requires |ids| == |vecs| == 2
    ensures Ranked(ids, vecs, sim, 0) == [(sim(vecs[0], vecs[1]), ids[1])]
    ensures Ranked(ids, vecs, sim, 1) == [(sim(vecs[1], vecs[0]), ids[0])]
  {
    assert ScoredTo(ids, vecs, sim, 0, 1) == [];
    assert ScoredTo(ids, vecs, sim, 1, 1) == [(sim(vecs[1], vecs[0]), ids[0])];
    var p: Scored, q: Scored := (sim(vecs[0], vecs[1]), ids[1]), (sim(vecs[1], vecs[0]), ids[0]);
    assert [p][1..] == [] && [q][1..] == [];
    assert SortBy(CloserFirst, [p]) == [p] && SortBy(CloserFirst, [q]) == [q];
    assert ScoredTo(ids, vecs, sim, 0, 2) == [p] && ScoredTo(ids, vecs, sim, 1, 2) == [q];
  }

  lemma TwoOfOneId(ids: seq<NodeId>, vecs: seq<Vec>, sim: Similarity, k: nat, e: KnnEdge)
    requires |ids| == |vecs| == 2 && ids[0] == ids[1] && e in Derived(ids, vecs, sim, k)
    requires sim(vecs[0], vecs[1]) == sim(vecs[1], vecs[0])
    ensures e == KnnEdge(ids[0], ids[0], sim(vecs[0], vecs[1]))
  {
    SingleScore(ids, vecs, sim);
    SortKeeps(EdgeBefore, RawEdges(ids, vecs, sim, k, 2));
    SameMembers(RawEdges(ids, vecs, sim, k, 2), Derived(ids, vecs, sim, k), e);
    InRawEdges(ids, vecs, sim, k, 2, e);
  }

  lemma {:induction false} AllEqual<T>(s: seq<T>, t: seq<T>, x: T)
    requires multiset(s) == multiset(t) && forall y :: y in s ==> y == x
    ensures s == t
  {
    forall y | y in t ensures y == x { SameMembers(s, t, y); }
    assert |multiset(s)| == |multiset(t)|;
    forall i | 0 <= i < |s| ensures s[i] == t[i] { assert s[i] in s && t[i] in t; }
  }

  lemma SettledIsCanonical(ids: seq<NodeId>, vecs: seq<Vec>, ids': seq<NodeId>, vecs': seq<Vec>,
                           k: nat, metric: DistanceMetric, sqrt: real -> real)
    requires Settles(ids, k) && Permuted(ids, vecs, ids', vecs')
    ensures Derived(ids, vecs, Sim(metric, sqrt), k) == Derived(ids', vecs', Sim(metric, sqrt), k)
  {
    var sim := Sim(metric, sqrt);
    assert |multiset(Pairs(ids, vecs))| == |multiset(Pairs(ids', vecs'))|;
    if k == 0 || |ids| <= 1 {
      NothingToDerive(ids, vecs, sim, k, |ids|);
      NothingToDerive(ids', vecs', sim, k, |ids'|);
    } else if ids[0] == ids[1] {
      SymmetricSim(metric, sqrt, vecs[0], vecs[1]);
      SameEdgesInAnyOrder(ids, vecs, ids', vecs', sim, k);
      forall e | e in Derived(ids, vecs, sim, k) ensures e == KnnEdge(ids[0], ids[0], sim(vecs[0], vecs[1])) {
        TwoOfOneId(ids, vecs, sim, k, e);
      }
      AllEqual(Derived(ids, vecs, sim, k), Derived(ids', vecs', sim, k), KnnEdge(ids[0], ids[0], sim(vecs[0], vecs[1])));
    } else {
      assert Distinct(ids);
      DerivationIsCanonical(ids, vecs, ids', vecs', sim, k);
    }
  }

  // ---------- the first edge of a kind, through a stable sort ----------

  function FirstSuch<T>(keep: T -> bool, s: seq<T>): Option<T> {
    if s == [] then None
    else if keep(s[0]) then Some(s[0])
    else FirstSuch(keep, s[1..])
  }

  lemma {:induction false} FirstOfConcat<T>(keep: T -> bool, a: seq<T>, b: seq<T>)
    ensures FirstSuch(keep, a + b) == if FirstSuch(keep, a).Some? then FirstSuch(keep, a) else FirstSuch(keep, b)
  {
    if a == [] {
      assert a + b == b;
    } else {
      assert (a + b)[1..] == a[1..] + b;
      FirstOfConcat(keep, a[1..], b);
    }
  }

  lemma {:induction false} NoneSuch<T>(keep: T -> bool, s: seq<T>)
    requires forall x :: x in s ==> !keep(x)
    ensures FirstSuch(keep, s) == None
  {
    if s != [] {
      assert s[0] in s;
      NoneSuch(keep, s[1..]);
    }
  }

  ghost predicate Ties<T(!new)>(before: (T, T) -> bool, keep: T -> bool) {
    forall x, y :: keep(x) && keep(y) ==> !before(x, y)
  }

  lemma {:induction false} InsertKeepsFirst<T(!new)>(before: (T, T) -> bool, keep: T -> bool, x: T, s: seq<T>)
    requires Ties(before, keep)
    ensures FirstSuch(keep, Insert(before, x, s)) == if keep(x) then Some(x) else FirstSuch(keep, s)
  {
    if s != [] && before(s[0], x) {
      InsertKeepsFirst(before, keep, x, s[1..]);
      assert ([s[0]] + Insert(before, x, s[1..]))[1..] == Insert(before, x, s[1..]);
    } else {
      assert ([x] + s)[1..] == s;
    }
  }

  /** A stable sort keeps the first of elements that tie. */
  lemma {:induction false} SortKeepsFirst<T(!new)>(before: (T, T) -> bool, keep: T -> bool, s: seq<T>)
    requires Ties(before, keep)
    ensures FirstSuch(keep, SortBy(before, s)) == FirstSuch(keep, s)
  {
    if s != [] {
      SortKeepsFirst(before, keep, s[1..]);
      InsertKeepsFirst(before, keep, s[0], SortBy(before, s[1..]));
    }
  }

  lemma BestIsFirst<T(!new)>(before: (T, T) -> bool, s: seq<T>, x: T)
    requires StrictTotal(before) && x in s && forall y :: y in s ==> y == x || before(x, y)
    ensures SortBy(before, s) != [] && SortBy(before, s)[0] == x
  {
    var t := SortBy(before, s);
    TotalIsWeak(before);
    SortSorts(before, s);
    SortKeeps(before, s);
    SameMembers(s, t, x);
    var i :| 0 <= i < |t| && t[i] == x;
    SameMembers(s, t, t[0]);
  }

  // ---------- four vectors that tell two rows of one id apart ----------

  datatype Probe = Probe(p: Vec, q: Vec, r: Vec, o: Vec)

  predicate Closest(sim: Similarity, x: Vec, r: Vec, y: Vec, o: Vec) {
    sim(x, y) < sim(x, r) && sim(x, o) < sim(x, r)
  }

  ghost predicate Separates(sim: Similarity, v: Probe) {
    && sim(v.p, v.r) != sim(v.q, v.r)
    && Closest(sim, v.p, v.r, v.q, v.o) && Closest(sim, v.q, v.r, v.p, v.o)
    && forall x :: x in [v.p, v.q, v.r, v.o] ==> sim(v.o, x) != sim(v.p, v.r) && sim(v.o, x) != sim(v.q, v.r)
  }

  function Placed(v: Probe, x: Vec, y: Vec, n: nat, p: nat, q: nat, r: nat): seq<Vec> {
    seq(n, i => if i == p then x else if i == q then y else if i == r then v.r else v.o)
  }

  lemma {:induction false} ScoredFrom(ids: seq<NodeId>, vecs: seq<Vec>, sim: Similarity, i: nat, n: nat, x: Scored)
    requires |ids| == |vecs| && i < |ids| && n <= |ids|
    ensures x in ScoredTo(ids, vecs, sim, i, n)
       <==> exists j: nat :: j < n && j != i && x == (sim(vecs[i], vecs[j]), ids[j])
    decreases n
  {
    if n > 0 { ScoredFrom(ids, vecs, sim, i, n - 1, x); }
  }

  lemma OutEdgeFrom(ids: seq<NodeId>, vecs: seq<Vec>, sim: Similarity, k: nat, i: nat, e: KnnEdge)
    requires |ids| == |vecs| && i < |ids| && e in OutEdges(ids, vecs, sim, k, i)
    ensures e.src == ids[i] && exists j: nat :: j < |ids| && e.weight == sim(vecs[i], vecs[j])
  {
    var scored, ranked := ScoredTo(ids, vecs, sim, i, |ids|), Ranked(ids, vecs, sim, i);
    var t :| 0 <= t < |OutEdges(ids, vecs, sim, k, i)| && OutEdges(ids, vecs, sim, k, i)[t] == e;
    SortKeeps(CloserFirst, scored);
    SameMembers(scored, ranked, ranked[t]);
    ScoredFrom(ids, vecs, sim, i, |ids|, ranked[t]);
  }

  lemma BestEdge(ids: seq<NodeId>, v: Probe, x: Vec, y: Vec, sim: Similarity, k: nat, p: nat, q: nat, r: nat)
    requires p < |ids| && q < |ids| && r < |ids| && p != q && q != r && p != r && k >= 1
    requires Closest(sim, x, v.r, y, v.o)
    ensures var out := OutEdges(ids, Placed(v, x, y, |ids|, p, q, r), sim, k, p);
            out != [] && out[0] == KnnEdge(ids[p], ids[r], sim(x, v.r))
  {
    var vecs := Placed(v, x, y, |ids|, p, q, r);
    var scored, best := ScoredTo(ids, vecs, sim, p, |ids|), (sim(x, v.r), ids[r]);
    assert vecs[r] == v.r && vecs[p] == x;
    ScoredFrom(ids, vecs, sim, p, |ids|, best);
    forall z | z in scored ensures z == best || CloserFirst(best, z) {
      ScoredFrom(ids, vecs, sim, p, |ids|, z);
      var j: nat :| j < |ids| && j != p && z == (sim(vecs[p], vecs[j]), ids[j]);
    }
    CloserFirstIsTotal();
    BestIsFirst(CloserFirst, scored, best);
  }

  ghost function Kind(v: Probe, sim: Similarity, a: NodeId, b: NodeId): KnnEdge -> bool {
    (e: KnnEdge) => e.src == a && e.dst == b && (e.weight == sim(v.p, v.r) || e.weight == sim(v.q, v.r))
  }

  lemma RowHasNone(ids: seq<NodeId>, v: Probe, x: Vec, y: Vec, sim: Similarity, k: nat, p: nat, q: nat, r: nat, i: nat)
    requires p < |ids| && q < |ids| && r < |ids| && i < |ids| && Separates(sim, v)
    requires x in [v.p, v.q] && y in [v.p, v.q]
    requires ids[i] != ids[p] || (i != p && i != q && i != r)
    ensures FirstSuch(Kind(v, sim, ids[p], ids[r]), OutEdges(ids, Placed(v, x, y, |ids|, p, q, r), sim, k, i)) == None
  {
    var vecs, kind := Placed(v, x, y, |ids|, p, q, r), Kind(v, sim, ids[p], ids[r]);
    forall e | e in OutEdges(ids, vecs, sim, k, i) ensures !kind(e) {
      OutEdgeFrom(ids, vecs, sim, k, i, e);
      var j: nat :| j < |ids| && e.weight == sim(vecs[i], vecs[j]);
      assert vecs[j] in [v.p, v.q, v.r, v.o];
    }
    NoneSuch(kind, OutEdges(ids, vecs, sim, k, i));
  }

  /** The earliest of the two rows decides. */
  ghost predicate IsEarliest(ids: seq<NodeId>, p: nat, q: nat, r: nat) {
    && p < q < |ids| && r < |ids| && r != p && r != q && ids[p] == ids[q]
    && (forall i :: 0 <= i < p ==> ids[i] != ids[p] || i != r)
  }

  lemma {:induction false} FirstAcross(ids: seq<NodeId>, vecs: seq<Vec>, sim: Similarity, k: nat,
                                       keep: KnnEdge -> bool, p: nat, n: nat, e: KnnEdge)
    requires |ids| == |vecs| && p < |ids| && n <= |ids|
    requires forall i :: 0 <= i < p ==> FirstSuch(keep, OutEdges(ids, vecs, sim, k, i)) == None
    requires FirstSuch(keep, OutEdges(ids, vecs, sim, k, p)) == Some(e)
    ensures FirstSuch(keep, RawEdges(ids, vecs, sim, k, n)) == if n <= p then None else Some(e)
    decreases n
  {
    if n > 0 {
      FirstAcross(ids, vecs, sim, k, keep, p, n - 1, e);
      FirstOfConcat(keep, RawEdges(ids, vecs, sim, k, n - 1), OutEdges(ids, vecs, sim, k, n - 1));
    }
  }

  lemma FirstDerived(ids: seq<NodeId>, v: Probe, x: Vec, y: Vec, sim: Similarity, k: nat, p: nat, q: nat, r: nat)
    requires IsEarliest(ids, p, q, r) && Separates(sim, v) && k >= 1
    requires (x, y) == (v.p, v.q) || (x, y) == (v.q, v.p)
    ensures FirstSuch(Kind(v, sim, ids[p], ids[r]), Derived(ids, Placed(v, x, y, |ids|, p, q, r), sim, k))
         == Some(KnnEdge(ids[p], ids[r], sim(x, v.r)))
  {
    var vecs, kind := Placed(v, x, y, |ids|, p, q, r), Kind(v, sim, ids[p], ids[r]);
    forall i | 0 <= i < p ensures FirstSuch(kind, OutEdges(ids, vecs, sim, k, i)) == None {
      RowHasNone(ids, v, x, y, sim, k, p, q, r, i);
    }
    BestEdge(ids, v, x, y, sim, k, p, q, r);
    FirstAcross(ids, vecs, sim, k, kind, p, |ids|, KnnEdge(ids[p], ids[r], sim(x, v.r)));
    SortKeepsFirst(EdgeBefore, kind, RawEdges(ids, vecs, sim, k, |ids|));
  }

  lemma SwappedRows(ids: seq<NodeId>, v: Probe, p: nat, q: nat, r: nat)
    requires IsEarliest(ids, p, q, r)
    ensures Permuted(ids, Placed(v, v.p, v.q, |ids|, p, q, r), ids, Placed(v, v.q, v.p, |ids|, p, q, r))
  {
    var s, t := Pairs(ids, Placed(v, v.p, v.q, |ids|, p, q, r)), Pairs(ids, Placed(v, v.q, v.p, |ids|, p, q, r));
    assert t == s[p := s[q]][q := s[p]];
  }

  lemma SeparatedRowsDiffer(ids: seq<NodeId>, v: Probe, sim: Similarity, k: nat, p: nat, q: nat, r: nat)
    requires IsEarliest(ids, p, q, r) && Separates(sim, v) && k >= 1
    ensures Derived(ids, Placed(v, v.p, v.q, |ids|, p, q, r), sim, k)
         != Derived(ids, Placed(v, v.q, v.p, |ids|, p, q, r), sim, k)
  {
    FirstDerived(ids, v, v.p, v.q, sim, k, p, q, r);
    FirstDerived(ids, v, v.q, v.p, sim, k, p, q, r);
  }

  lemma RepeatHasEarliest(ids: seq<NodeId>) returns (p: nat, q: nat, r: nat)
    requires !Distinct(ids) && |ids| >= 3
    ensures IsEarliest(ids, p, q, r)
  {
    p, q :| 0 <= p < q < |ids| && ids[p] == ids[q];
    if j: nat :| j < |ids| && ids[j] != ids[p] {
      r := j;
    } else {
      p, q, r := 0, 1, 2;
    }
  }

  // ---------- unit vectors that do it under every metric ----------

  const PROBE := Probe([0.6, 0.8], [0.8, -0.6], [1.0, 0.0], [-1.0, 0.0])

  lemma PlaneDot(a: Vec, b: Vec)
    requires |a| == |b| == 2
    ensures Dot(a, b) == a[0] * b[0] + a[1] * b[1]
  {
    assert DotTo(a, b, 0) == 0.0;
    assert DotTo(a, b, 1) == a[0] * b[0];
  }

  lemma ProbeIsUnit()
    ensures forall x :: x in [PROBE.p, PROBE.q, PROBE.r, PROBE.o] ==> |x| == 2 && Unit(x)
  {
    PlaneDot(PROBE.p, PROBE.p);
    PlaneDot(PROBE.q, PROBE.q);
    PlaneDot(PROBE.r, PROBE.r);
    PlaneDot(PROBE.o, PROBE.o);
  }

  /** On unit vectors every metric orders any two pairs by their dot products. */
  lemma SimByDot(metric: DistanceMetric, sqrt: real -> real, a: Vec, b: Vec, c: Vec, d: Vec)
    requires IsSqrt(sqrt) && |a| == |b| && |c| == |d| && Unit(a) && Unit(b) && Unit(c) && Unit(d)
    ensures Dot(a, b) < Dot(c, d) ==> Sim(metric, sqrt)(a, b) < Sim(metric, sqrt)(c, d)
  {
    if metric == L2 {
      UnitDistance(a, b);
      UnitDistance(c, d);
      SqDistNonNegative(a, b, |a|);
      SqDistNonNegative(c, d, |c|);
      ReciprocalOrder(sqrt, SqDist(c, d), SqDist(a, b));
    }
  }

  lemma ProbeDots()
    ensures Dot(PROBE.p, PROBE.q) == 0.0 && Dot(PROBE.p, PROBE.r) == 0.6 && Dot(PROBE.p, PROBE.o) == -0.6
    ensures Dot(PROBE.q, PROBE.p) == 0.0 && Dot(PROBE.q, PROBE.r) == 0.8 && Dot(PROBE.q, PROBE.o) == -0.8
    ensures Dot(PROBE.o, PROBE.p) == -0.6 && Dot(PROBE.o, PROBE.q) == -0.8
    ensures Dot(PROBE.o, PROBE.r) == -1.0 && Dot(PROBE.o, PROBE.o) == 1.0
  {
    PlaneDot(PROBE.p, PROBE.q); PlaneDot(PROBE.p, PROBE.r); PlaneDot(PROBE.p, PROBE.o);
    PlaneDot(PROBE.q, PROBE.p); PlaneDot(PROBE.q, PROBE.r); PlaneDot(PROBE.q, PROBE.o);
    PlaneDot(PROBE.o, PROBE.p); PlaneDot(PROBE.o, PROBE.q); PlaneDot(PROBE.o, PROBE.r); PlaneDot(PROBE.o, PROBE.o);
  }

  lemma ProbeDiffers(metric: DistanceMetric, sqrt: real -> real, x: Vec)
    requires IsSqrt(sqrt) && x in [PROBE.p, PROBE.q, PROBE.r, PROBE.o]
    ensures Sim(metric, sqrt)(PROBE.o, x) != Sim(metric, sqrt)(PROBE.p, PROBE.r)
    ensures Sim(metric, sqrt)(PROBE.o, x) != Sim(metric, sqrt)(PROBE.q, PROBE.r)
  {
    ProbeIsUnit();
    ProbeDots();
    assert PROBE.o in [PROBE.p, PROBE.q, PROBE.r, PROBE.o] && PROBE.r in [PROBE.p, PROBE.q, PROBE.r, PROBE.o];
    assert PROBE.p in [PROBE.p, PROBE.q, PROBE.r, PROBE.o] && PROBE.q in [PROBE.p, PROBE.q, PROBE.r, PROBE.o];
    SimByDot(metric, sqrt, PROBE.o, x, PROBE.p, PROBE.r);
    SimByDot(metric, sqrt, PROBE.p, PROBE.r, PROBE.o, x);
    SimByDot(metric, sqrt, PROBE.o, x, PROBE.q, PROBE.r);
    SimByDot(metric, sqrt, PROBE.q, PROBE.r, PROBE.o, x);
  }

  lemma ProbeSeparates(metric: DistanceMetric, sqrt: real -> real)
    requires IsSqrt(sqrt)
    ensures Separates(Sim(metric, sqrt), PROBE)
  {
    ProbeIsUnit();
    ProbeDots();
    assert PROBE.o in [PROBE.p, PROBE.q, PROBE.r, PROBE.o] && PROBE.r in [PROBE.p, PROBE.q, PROBE.r, PROBE.o];
    assert PROBE.p in [PROBE.p, PROBE.q, PROBE.r, PROBE.o] && PROBE.q in [PROBE.p, PROBE.q, PROBE.r, PROBE.o];
    SimByDot(metric, sqrt, PROBE.p, PROBE.r, PROBE.q, PROBE.r);
    SimByDot(metric, sqrt, PROBE.p, PROBE.q, PROBE.p, PROBE.r);
    SimByDot(metric, sqrt, PROBE.p, PROBE.o, PROBE.p, PROBE.r);
    SimByDot(metric, sqrt, PROBE.q, PROBE.p, PROBE.q, PROBE.r);
    SimByDot(metric, sqrt, PROBE.q, PROBE.o, PROBE.q, PROBE.r);
    forall x | x in [PROBE.p, PROBE.q, PROBE.r, PROBE.o]
      ensures Sim(metric, sqrt)(PROBE.o, x) != Sim(metric, sqrt)(PROBE.p, PROBE.r)
      ensures Sim(metric, sqrt)(PROBE.o, x) != Sim(metric, sqrt)(PROBE.q, PROBE.r)
    {
      ProbeDiffers(metric, sqrt, x);
    }
  }

  // ---------- the condition ----------

  lemma PlacedIsUnit(n: nat, p: nat, q: nat, r: nat)
    ensures AllUnit(Placed(PROBE, PROBE.p, PROBE.q, n, p, q, r))
  {
    var vecs, all := Placed(PROBE, PROBE.p, PROBE.q, n, p, q, r), [PROBE.p, PROBE.q, PROBE.r, PROBE.o];
    ProbeIsUnit();
    assert all[0] in all && all[1] in all && all[2] in all && all[3] in all;
  }

  lemma RepeatsAreNotCanonical(ids: seq<NodeId>, k: nat, metric: DistanceMetric, sqrt: real -> real)
    requires IsSqrt(sqrt) && !Distinct(ids) && !Settles(ids, k)
    ensures !CanonicalOnUnitVectors(ids, k, Sim(metric, sqrt))
  {
    var p, q, r := RepeatHasEarliest(ids);
    var vecs, vecs' := Placed(PROBE, PROBE.p, PROBE.q, |ids|, p, q, r), Placed(PROBE, PROBE.q, PROBE.p, |ids|, p, q, r);
    ProbeSeparates(metric, sqrt);
    SeparatedRowsDiffer(ids, PROBE, Sim(metric, sqrt), k, p, q, r);
    SwappedRows(ids, PROBE, p, q, r);
    PlacedIsUnit(|ids|, p, q, r);
    assert Permuted(ids, vecs, ids, vecs') && AllUnit(vecs);
  }

  /** Under every metric, the list is the same for every vectors and every order of the pairs
      exactly when ids are distinct, or there are at most two rows, or no edges are asked for.
      Restricting the vectors to unit vectors changes nothing. */
  lemma CanonicalIff(ids: seq<NodeId>, k: nat, metric: DistanceMetric, sqrt: real -> real)
    requires IsSqrt(sqrt)
    ensures AlwaysCanonical(ids, k, Sim(metric, sqrt)) <==> Distinct(ids) || Settles(ids, k)
    ensures CanonicalOnUnitVectors(ids, k, Sim(metric, sqrt)) <==> Distinct(ids) || Settles(ids, k)
  {
    var sim := Sim(metric, sqrt);
    if Distinct(ids) || Settles(ids, k) {
      forall vecs, ids', vecs' | Permuted(ids, vecs, ids', vecs')
        ensures Derived(ids, vecs, sim, k) == Derived(ids', vecs', sim, k)
      {
        if Distinct(ids) {
          DerivationIsCanonical(ids, vecs, ids', vecs', sim, k);
        } else {
          SettledIsCanonical(ids, vecs, ids', vecs', k, metric, sqrt);
        }
      }
    } else {
      RepeatsAreNotCanonical(ids, k, metric, sqrt);
    }
  }

  /** With a repeated id the list follows the order of the input: one input, under every metric. */
  lemma RepeatedIdsFollowTheOrder(metric: DistanceMetric, sqrt: real -> real)
    requires IsSqrt(sqrt)
    ensures Permuted([1, 1, 2], [[0.6, 0.8], [0.8, -0.6], [1.0, 0.0]], [1, 1, 2], [[0.8, -0.6], [0.6, 0.8], [1.0, 0.0]])
    ensures Derived([1, 1, 2], [[0.6, 0.8], [0.8, -0.6], [1.0, 0.0]], Sim(metric, sqrt), 1)
         != Derived([1, 1, 2], [[0.8, -0.6], [0.6, 0.8], [1.0, 0.0]], Sim(metric, sqrt), 1)
  {
    var ids: seq<NodeId> := [1, 1, 2];
    ProbeSeparates(metric, sqrt);
    SeparatedRowsDiffer(ids, PROBE, Sim(metric, sqrt), 1, 0, 1, 2);
    SwappedRows(ids, PROBE, 0, 1, 2);
    assert Placed(PROBE, PROBE.p, PROBE.q, 3, 0, 1, 2) == [PROBE.p, PROBE.q, PROBE.r];
    assert Placed(PROBE, PROBE.q, PROBE.p, 3, 0, 1, 2) == [PROBE.q, PROBE.p, PROBE.r];
  }
}
