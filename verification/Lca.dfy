/** Lowest common ancestors on the operation history (crates/mnem-core/src/repo/lca.rs),
    which opening a repository with several heads depends on. */
module Lca {
  import opened Ordering
  import opened OpHeads
  import opened OpHeadRaces
  import opened Options

  type Ops = map<Cid, seq<Cid>>

  datatype Result<T> = Ok(value: T) | NotFound(cid: Cid) | Panic

  ghost predicate IsRank(ops: Ops, rank: map<Cid, nat>) {
    forall o, p :: o in ops && p in ops[o] ==> o in rank && p in rank && rank[p] < rank[o]
  }

  ghost predicate Acyclic(ops: Ops) {
    exists rank :: IsRank(ops, rank)
  }

  ghost predicate Stored(ops: Ops, from: Cid) {
    forall a :: Reaches(ops, from, a) ==> a in ops
  }

  ghost predicate Common(ops: Ops, heads: set<Cid>, c: Cid) {
    forall h :: h in heads ==> Reaches(ops, h, c)
  }

  /** A common ancestor that no other common ancestor descends from. */
  ghost predicate LowestCommon(ops: Ops, heads: set<Cid>, c: Cid) {
    Common(ops, heads, c) && forall d :: Common(ops, heads, d) && Reaches(ops, d, c) ==> d == c
  }

  /** What a caller may rely on: it mentions the heads only as a set. */
  ghost predicate IsLca(ops: Ops, heads: set<Cid>, r: Option<Cid>) {
    match r
    case None => heads == {} || forall c :: !Common(ops, heads, c)
    case Some(c) => heads != {} && LowestCommon(ops, heads, c)
                    && forall d :: LowestCommon(ops, heads, d) ==> c <= d
  }

  // ---------- reachability ----------

  lemma ReachesItself(ops: Ops, o: Cid)
    ensures Reaches(ops, o, o)
  {
    assert IsPath(ops, [o]) && [o][0] == o;
  }

  lemma {:induction false} ClosedUnderParents(ops: Ops, seen: set<Cid>, path: seq<Cid>)
    requires IsPath(ops, path) && path[0] in seen
    requires forall a, p :: a in seen && a in ops && p in ops[a] ==> p in seen
    ensures path[|path|-1] in seen
  {
    if |path| > 1 {
      assert path[1] in ops[path[0]];
      ClosedUnderParents(ops, seen, path[1..]);
    }
  }

  lemma {:induction false} RankDrops(ops: Ops, rank: map<Cid, nat>, path: seq<Cid>)
    requires IsRank(ops, rank) && IsPath(ops, path) && |path| > 1
    ensures path[0] in rank && path[|path|-1] in rank && rank[path[|path|-1]] < rank[path[0]]
  {
    var o, p := path[0], path[1];
    assert o in ops && p in ops[o] && o in rank && p in rank && rank[p] < rank[o];
    if |path| > 2 { RankDrops(ops, rank, path[1..]); }
  }

  lemma StrictAncestorRanksLower(ops: Ops, rank: map<Cid, nat>, d: Cid, c: Cid)
    requires IsRank(ops, rank) && Reaches(ops, d, c) && d != c
    ensures d in rank && c in rank && rank[c] < rank[d]
  {
    var path :| IsPath(ops, path) && path[0] == d && path[|path|-1] == c;
    RankDrops(ops, rank, path);
  }

  /** All ancestors of cid, itself included; the first missing operation is an error. */
  method AncestorsInclusive(ops: Ops, cid: Cid) returns (r: Result<set<Cid>>)
    ensures r.Ok? || r.NotFound?
    ensures r.Ok? ==> forall a :: a in r.value <==> Reaches(ops, cid, a)
    ensures r.Ok? ==> r.value <= ops.Keys
    ensures r.NotFound? ==> Reaches(ops, cid, r.cid) && r.cid !in ops
    ensures r.Ok? <==> Stored(ops, cid)
  {
    var seen: set<Cid> := {};
    var stack := [cid];
    ReachesItself(ops, cid);
    while stack != []
      invariant seen <= ops.Keys
      invariant forall a :: a in seen || a in stack ==> Reaches(ops, cid, a)
      invariant forall a, p :: a in seen && p in ops[a] ==> p in seen || p in stack
      invariant cid in seen || cid in stack
      decreases ops.Keys - seen, |stack|
    {
      var c := stack[|stack|-1];
      ghost var was := stack;
      stack := stack[..|stack|-1];
      assert was == stack + [c];
      if c in seen {
        continue;
      }
      if c !in ops {
        assert Reaches(ops, cid, c);
        return NotFound(c);
      }
      seen := seen + {c};
      ghost var popped := stack;
      for i := 0 to |ops[c]|
        invariant forall a :: a in popped ==> a in stack
        invariant forall a :: a in stack ==> a in popped || a in ops[c]
        invariant forall j :: 0 <= j < i ==> ops[c][j] in seen || ops[c][j] in stack
      {
        if ops[c][i] !in seen {
          stack := stack + [ops[c][i]];
        }
      }
      forall a | a in stack ensures Reaches(ops, cid, a) {
        if a in ops[c] { StepDown(ops, cid, c, a); }
      }
    }
    forall a | Reaches(ops, cid, a) ensures a in seen {
      var path :| IsPath(ops, path) && path[0] == cid && path[|path|-1] == a;
      ClosedUnderParents(ops, seen, path);
    }
    return Ok(seen);
  }

  method AncestorSets(ops: Ops, heads: seq<Cid>) returns (r: Result<seq<set<Cid>>>)
    ensures r.Ok? || r.NotFound?
    ensures r.Ok? ==> |r.value| == |heads|
    ensures r.Ok? ==> forall j, a :: 0 <= j < |heads| ==> (a in r.value[j] <==> Reaches(ops, heads[j], a))
    ensures r.Ok? <==> forall h :: h in heads ==> Stored(ops, h)
    ensures r.NotFound? ==> r.cid !in ops && exists h :: h in heads && Reaches(ops, h, r.cid)
  {
    var perHead: seq<set<Cid>> := [];
    for i := 0 to |heads|
      invariant |perHead| == i
      invariant forall j, a :: 0 <= j < i ==> (a in perHead[j] <==> Reaches(ops, heads[j], a))
      invariant forall j :: 0 <= j < i ==> Stored(ops, heads[j])
    {
      var anc := AncestorsInclusive(ops, heads[i]);
      if anc.NotFound? {
        assert heads[i] in heads;
        return NotFound(anc.cid);
      }
      perHead := perHead + [anc.value];
    }
    return Ok(perHead);
  }

  method Intersection(sets: seq<set<Cid>>) returns (common: set<Cid>)
    requires |sets| > 0
    ensures forall a :: a in common <==> forall j :: 0 <= j < |sets| ==> a in sets[j]
  {
    common := sets[0];
    for i := 1 to |sets|
      invariant forall a :: a in common <==> forall j :: 0 <= j < i ==> a in sets[j]
    {
      common := set c | c in common && c in sets[i];
    }
  }

  /** The members of common that are strict ancestors of another member. */
  method StrictAncestors(ops: Ops, common: set<Cid>) returns (covered: set<Cid>)
    requires forall c :: c in common ==> Stored(ops, c)
    ensures forall a :: a in covered <==> a in common && exists c :: c in common && c != a && Reaches(ops, c, a)
  {
    covered := {};
    var todo := common;
    while todo != {}
      invariant todo <= common
      invariant forall a :: a in covered <==>
                  a in common && exists c :: c in common && c !in todo && c != a && Reaches(ops, c, a)
      decreases todo
    {
      var c :| c in todo;
      var anc := AncestorsInclusive(ops, c);  // everything below a head has been read already
      covered := covered + set a | a in anc.value && a != c && a in common;
      todo := todo - {c};
    }
  }

  /** The lowest common ancestor of the heads, the smallest id among several. */
  method FindLcaMany(ops: Ops, heads: seq<Cid>) returns (r: Result<Option<Cid>>)
    ensures r.Ok? && Acyclic(ops) ==> IsLca(ops, Members(heads), r.value)
    ensures Acyclic(ops) ==> !r.Panic?
    ensures r.NotFound? ==> |heads| > 1 && r.cid !in ops && exists h :: h in heads && Reaches(ops, h, r.cid)
    ensures (forall h :: h in heads ==> Stored(ops, h)) ==> !r.NotFound?
  {
    if |heads| == 0 {
      return Ok(None);
    }
    if |heads| == 1 {
      if Acyclic(ops) { SingleHead(ops, heads); }
      return Ok(Some(heads[0]));
    }
    var perHead := AncestorSets(ops, heads);
    if perHead.NotFound? {
      return NotFound(perHead.cid);
    }
    var common := Intersection(perHead.value);
    forall a ensures a in common <==> Common(ops, Members(heads), a) {
      CommonByIndex(ops, heads, perHead.value, a);
    }
    if common == {} {
      assert heads[0] in Members(heads);
      return Ok(None);
    }
    forall c | c in common ensures Stored(ops, c) {
      assert heads[0] in heads && heads[0] in Members(heads);
      StoredBelow(ops, heads[0], c);
    }
    var covered := StrictAncestors(ops, common);
    var lcas := common - covered;
    forall a ensures a in lcas <==> LowestCommon(ops, Members(heads), a) {
      if a in common && a in covered {
        var c :| c in common && c != a && Reaches(ops, c, a);
        assert Common(ops, Members(heads), c);
      }
    }
    if lcas == {} {
      NoneIsLowest(ops, Members(heads), common);
      return Panic;
    }
    var best := Smallest(lcas);
    assert heads[0] in Members(heads);
    return Ok(Some(best));
  }

  method Smallest(s: set<Cid>) returns (m: Cid)
    requires s != {}
    ensures m in s && forall x :: x in s ==> m <= x
  {
    m :| m in s;
    var rest := s - {m};
    while rest != {}
      invariant rest <= s && m in s
      invariant forall y :: y in s ==> y in rest || m <= y
      decreases rest
    {
      var x :| x in rest;
      rest := rest - {x};
      m := if x < m then x else m;
    }
  }

  lemma CommonByIndex(ops: Ops, heads: seq<Cid>, perHead: seq<set<Cid>>, a: Cid)
    requires |perHead| == |heads| > 0
    requires forall j, c :: 0 <= j < |heads| ==> (c in perHead[j] <==> Reaches(ops, heads[j], c))
    ensures (forall j :: 0 <= j < |heads| ==> a in perHead[j]) <==> Common(ops, Members(heads), a)
  {
    if Common(ops, Members(heads), a) {
      forall j | 0 <= j < |heads| ensures a in perHead[j] {
        assert heads[j] in Members(heads);
      }
    }
  }

  lemma ReachesTransitive(ops: Ops, a: Cid, b: Cid, c: Cid)
    requires Reaches(ops, a, b) && Reaches(ops, b, c)
    ensures Reaches(ops, a, c)
  {
    var p :| IsPath(ops, p) && p[0] == a && p[|p|-1] == b;
    var q :| IsPath(ops, q) && q[0] == b && q[|q|-1] == c;
    var r := p + q[1..];
    forall i | 0 <= i < |r| - 1 ensures r[i] in ops && r[i+1] in ops[r[i]] {
      if i >= |p| - 1 {
        var k := i - (|p| - 1);
        assert r[i] == q[k] && r[i+1] == q[k+1];
      }
    }
    assert IsPath(ops, r) && r[|r|-1] == c;
  }

  lemma StoredBelow(ops: Ops, h: Cid, c: Cid)
    requires Stored(ops, h) && Reaches(ops, h, c)
    ensures Stored(ops, c)
  {
    forall a | Reaches(ops, c, a) ensures a in ops { ReachesTransitive(ops, h, c, a); }
  }

  lemma SingleHead(ops: Ops, heads: seq<Cid>)
    requires |heads| == 1 && Acyclic(ops)
    ensures IsLca(ops, Members(heads), Some(heads[0]))
  {
    var h := heads[0];
    assert h in Members(heads);
    ReachesItself(ops, h);
    forall d | Common(ops, Members(heads), d) && Reaches(ops, d, h) ensures d == h {
      NoCycle(ops, h, d);
    }
    assert Common(ops, Members(heads), h);
    forall d | LowestCommon(ops, Members(heads), d) ensures h <= d {
      assert Reaches(ops, h, d);
    }
  }

  lemma NoCycle(ops: Ops, a: Cid, b: Cid)
    requires Acyclic(ops) && Reaches(ops, a, b) && Reaches(ops, b, a)
    ensures a == b
  {
    var rank :| IsRank(ops, rank);
    if a != b {
      StrictAncestorRanksLower(ops, rank, a, b);
      StrictAncestorRanksLower(ops, rank, b, a);
    }
  }

  /** Without cycles a non-empty set of common ancestors has a lowest member. */
  lemma SomeCommonIsLowest(ops: Ops, heads: set<Cid>, common: set<Cid>)
    requires Acyclic(ops) && common != {} && forall a :: a in common <==> Common(ops, heads, a)
    ensures exists c :: LowestCommon(ops, heads, c)
  {
    var rank :| IsRank(ops, rank);
    var c := HighestRanked(rank, common);
    forall d | Common(ops, heads, d) && Reaches(ops, d, c) ensures d == c {
      if d != c { StrictAncestorRanksLower(ops, rank, d, c); }
    }
    assert LowestCommon(ops, heads, c);
  }

  lemma NoneIsLowest(ops: Ops, heads: set<Cid>, common: set<Cid>)
    requires common != {} && forall a :: a in common <==> Common(ops, heads, a)
    requires forall c :: !LowestCommon(ops, heads, c)
    ensures !Acyclic(ops)
  {
    if Acyclic(ops) { SomeCommonIsLowest(ops, heads, common); }
  }

  ghost function RankOf(rank: map<Cid, nat>, c: Cid): nat {
    if c in rank then rank[c] else 0
  }

  lemma {:induction false} HighestRanked(rank: map<Cid, nat>, s: set<Cid>) returns (top: Cid)
    requires s != {}
    ensures top in s && forall x :: x in s ==> RankOf(rank, x) <= RankOf(rank, top)
  {
    top :| top in s;
    if s != {top} {
      var other := HighestRanked(rank, s - {top});
      if RankOf(rank, top) < RankOf(rank, other) { top := other; }
    }
  }

  /** The answer depends on the set of heads alone: not on their order, nor on repetitions. */
  lemma LcaIsUnique(ops: Ops, heads: seq<Cid>, heads': seq<Cid>, r: Option<Cid>, r': Option<Cid>)
    requires Acyclic(ops) && Members(heads) == Members(heads')
    requires IsLca(ops, Members(heads), r) && IsLca(ops, Members(heads'), r')
    ensures r == r'
  {
  }

  // ---------- histories written through the op-heads table ----------

  /** Every history the writers can produce is acyclic and complete. */
  lemma RunHistory(steps: seq<Step>, from: Cid)
    requires Valid(steps)
    ensures Acyclic(Run(steps).parents)
    ensures from in Run(steps).parents ==> Stored(Run(steps).parents, from)
  {
    var r := Run(steps);
    RunKeepsInv(steps);
    var rank := LogRank(r.log);
    assert IsRank(r.parents, rank) by {
      forall o, p | o in r.parents && p in r.parents[o] ensures o in rank && p in rank && rank[p] < rank[o] {
        var i :| 0 <= i < |r.log| && r.log[i] == o;
        assert p in r.log[..i];
        var j :| 0 <= j < i && r.log[..i][j] == p;
        assert rank[r.log[i]] == i && rank[r.log[j]] == j;
      }
    }
    if from in r.parents {
      forall a | Reaches(r.parents, from, a) ensures a in r.parents {
        var path :| IsPath(r.parents, path) && path[0] == from && path[|path|-1] == a;
        forall o, p | o in r.parents.Keys && o in r.parents && p in r.parents[o] ensures p in r.parents.Keys {
          ParentsArePublished(r, o, p);
        }
        ClosedUnderParents(r.parents, r.parents.Keys, path);
      }
    }
  }

  ghost function LogRank(log: seq<Cid>): (rank: map<Cid, nat>)
    requires Distinct(log)
    ensures forall i :: 0 <= i < |log| ==> log[i] in rank && rank[log[i]] == i
  {
    if log == [] then map[] else LogRank(log[..|log|-1])[log[|log|-1] := |log| - 1]
  }

  ghost predicate InitialisedOnce(r: Repo) {
    forall a, b :: IsRoot(r, a) && IsRoot(r, b) ==> a == b
  }

  /** In a repository initialised once, opening it never fails for want of a common ancestor,
      whatever published heads the reader finds. */
  lemma OpeningFindsAncestor(steps: seq<Step>, heads: set<Cid>, r: Option<Cid>)
    requires Valid(steps) && InitialisedOnce(Run(steps))
    requires heads != {} && heads <= Run(steps).parents.Keys
    requires IsLca(Run(steps).parents, heads, r)
    ensures r.Some? && LowestCommon(Run(steps).parents, heads, r.value)
  {
    var repo := Run(steps);
    RunKeepsInv(steps);
    var h0 :| h0 in heads;
    var root := RootBelow(repo, h0);
    forall h | h in heads ensures Reaches(repo.parents, h, root) {
      var other := RootBelow(repo, h);
      assert other == root;
    }
    assert Common(repo.parents, heads, root);
  }

  lemma RootBelow(r: Repo, o: Cid) returns (root: Cid)
    requires Inv(r) && o in r.parents
    ensures IsRoot(r, root) && Reaches(r.parents, o, root)
  {
    var i :| 0 <= i < |r.log| && r.log[i] == o;
    SomeRootIsReached(r, i);
    root :| IsRoot(r, root) && Reaches(r.parents, o, root);
  }
}
