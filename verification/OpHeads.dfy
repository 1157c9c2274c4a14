/** The op-heads table (crates/mnem-backend-redb/src/op_heads.rs) and the protocol its
    writers run: read the heads, then atomically insert one operation and delete the
    operations it supersedes (crates/mnem-core/src/repo/). */
module OpHeads {
  import opened Ordering

  /** A content id under its byte order. */
  type Cid = nat

  predicate CidBefore(a: Cid, b: Cid) {
    a < b
  }

  function Members<T>(s: seq<T>): set<T> {
    set x | x in s
  }

  /** One write transaction, as a function of the table before it. */
  function Updated(table: set<Cid>, op: Cid, supersedes: seq<Cid>): set<Cid> {
    (table + {op}) - Members(supersedes)
  }

  class RedbOpHeadsStore {
    var table: set<Cid>

    constructor ()
      ensures table == {}
    {
      table := {};
    }

    method Current() returns (out: seq<Cid>)
      ensures StrictlySorted(CidBefore, out)
      ensures forall c :: c in out <==> c in table
    {
      out := [];
      var rows := table;
      while rows != {}
        invariant rows <= table
        invariant Distinct(out)
        invariant forall c :: c in out <==> c in table && c !in rows
        decreases rows
      {
        var c :| c in rows;
        rows := rows - {c};
        out := out + [c];
      }
      ghost var unsorted := out;
      out := SortBy(CidBefore, out);
      TotalIsWeak(CidBefore);
      SortKeeps(CidBefore, unsorted);
      SortSorts(CidBefore, unsorted);
      DistinctByMultiset(unsorted, out);
      SortedDistinctIsStrict(CidBefore, out);
      forall c ensures c in out <==> c in table {
        assert c in out <==> c in multiset(out);
        assert c in unsorted <==> c in multiset(unsorted);
      }
    }

    method Update(op: Cid, supersedes: seq<Cid>)
      modifies this
      ensures table == Updated(old(table), op, supersedes)
    {
      table := table + {op};
      for i := 0 to |supersedes|
        invariant table == (old(table) + {op}) - Members(supersedes[..i])
      {
        assert supersedes[..i+1] == supersedes[..i] + [supersedes[i]];
        table := table - {supersedes[i]};
      }
      assert supersedes[..|supersedes|] == supersedes;
    }
  }

  // ---------- writers ----------

  /** parents: every operation published so far, with the parents its content names.
      log: the order of first publication. known: what each writer has read or written. */
  datatype Repo = Repo(heads: set<Cid>, parents: map<Cid, seq<Cid>>, log: seq<Cid>, known: map<nat, set<Cid>>)

  datatype Step =
    | Read(writer: nat)
    | Check(writer: nat, base: Cid)
    | Publish(writer: nat, op: Cid, ps: seq<Cid>)

  const Start := Repo({}, map[], [], map[])

  function Known(r: Repo, w: nat): set<Cid> {
    if w in r.known then r.known[w] else {}
  }

  /** A writer supersedes only operations it has seen. An operation's id is the hash of
      its content, parents included: it is new, or it is published again unchanged. */
  predicate Enabled(r: Repo, s: Step) {
    match s
    case Read(w) => true
    case Check(w, base) => r.heads == {base}
    case Publish(w, op, ps) =>
      Members(ps) <= Known(r, w) && (op in r.parents ==> r.parents[op] == ps)
  }

  function Next(r: Repo, s: Step): Repo {
    match s
    case Read(w) => r.(known := r.known[w := Known(r, w) + r.heads])
    case Check(w, base) => r
    case Publish(w, op, ps) =>
      Repo(Updated(r.heads, op, ps),
           r.parents[op := ps],
           if op in r.parents then r.log else r.log + [op],
           r.known[w := Known(r, w) + {op}])
  }

  function Run(steps: seq<Step>): Repo {
    if steps == [] then Start else Next(Run(steps[..|steps|-1]), steps[|steps|-1])
  }

  predicate Valid(steps: seq<Step>) {
    steps == [] || (Valid(steps[..|steps|-1]) && Enabled(Run(steps[..|steps|-1]), steps[|steps|-1]))
  }

  predicate Fresh(r: Repo, s: Step) {
    s.Publish? ==> s.op !in r.parents
  }

  predicate AllFresh(steps: seq<Step>) {
    steps == [] || (AllFresh(steps[..|steps|-1]) && Fresh(Run(steps[..|steps|-1]), steps[|steps|-1]))
  }

  // ---------- history ----------

  ghost predicate HasChild(r: Repo, o: Cid) {
    exists c :: c in r.parents && o in r.parents[c]
  }

  ghost function Childless(r: Repo): set<Cid> {
    set o | o in r.parents && !HasChild(r, o)
  }

  ghost predicate IsPath(parents: map<Cid, seq<Cid>>, path: seq<Cid>) {
    |path| > 0 &&
    forall i :: 0 <= i < |path| - 1 ==> path[i] in parents && path[i+1] in parents[path[i]]
  }

  /** to is from, or an ancestor of it. */
  ghost predicate Reaches(parents: map<Cid, seq<Cid>>, from: Cid, to: Cid) {
    exists path :: IsPath(parents, path) && path[0] == from && path[|path|-1] == to
  }

  /** Parents were published before their children. */
  ghost predicate Ordered(parents: map<Cid, seq<Cid>>, log: seq<Cid>) {
    && Distinct(log)
    && (forall o :: o in log <==> o in parents)
    && (forall i, p :: 0 <= i < |log| && p in parents[log[i]] ==> p in log[..i])
  }

  ghost predicate Inv(r: Repo) {
    && Ordered(r.parents, r.log)
    && r.heads <= r.parents.Keys
    && (forall w :: w in r.known ==> r.known[w] <= r.parents.Keys)
    && Childless(r) <= r.heads
  }

  lemma ParentsArePublished(r: Repo, o: Cid, p: Cid)
    requires Inv(r) && o in r.parents && p in r.parents[o]
    ensures p in r.parents && p != o
  {
    var i :| 0 <= i < |r.log| && r.log[i] == o;
    assert p in r.log[..i];
    var j :| 0 <= j < i && r.log[..i][j] == p;
    assert r.log[j] == p;
  }

  lemma PublishKeepsOrder(r: Repo, w: nat, op: Cid, ps: seq<Cid>)
    requires Inv(r) && Enabled(r, Publish(w, op, ps))
    ensures Ordered(Next(r, Publish(w, op, ps)).parents, Next(r, Publish(w, op, ps)).log)
  {
    var r' := Next(r, Publish(w, op, ps));
    if op in r.parents {
      assert r'.parents == r.parents;
    } else {
      forall i, p | 0 <= i < |r'.log| && p in r'.parents[r'.log[i]] ensures p in r'.log[..i] {
        if i < |r.log| {
          assert r'.log[..i] == r.log[..i];
        } else {
          assert r'.log[..i] == r.log;
          assert p in Members(ps);
        }
      }
    }
  }

  lemma NewOpIsNotItsParent(r: Repo, w: nat, op: Cid, ps: seq<Cid>)
    requires Inv(r) && Enabled(r, Publish(w, op, ps))
    ensures op !in ps
  {
    if op in r.parents && op in ps { ParentsArePublished(r, op, op); }
    assert op in ps ==> op in Members(ps);
  }

  /** Every step keeps the invariant; in particular no childless operation leaves the heads. */
  lemma StepKeepsInv(r: Repo, s: Step)
    requires Inv(r) && Enabled(r, s)
    ensures Inv(Next(r, s))
  {
    if s.Publish? {
      var r' := Next(r, s);
      PublishKeepsOrder(r, s.writer, s.op, s.ps);
      NewOpIsNotItsParent(r, s.writer, s.op, s.ps);
      ChildrenAfterPublish(r, s.writer, s.op, s.ps);
      forall o | o in Childless(r') ensures o in r'.heads {
        assert o !in s.ps;
      }
    }
  }

  /** Publishing gives a child to each operation it names as parent, and to no other. */
  lemma ChildrenAfterPublish(r: Repo, w: nat, op: Cid, ps: seq<Cid>)
    requires Inv(r) && Enabled(r, Publish(w, op, ps))
    ensures forall o :: HasChild(Next(r, Publish(w, op, ps)), o) <==> HasChild(r, o) || o in ps
  {
    var r' := Next(r, Publish(w, op, ps));
    forall o ensures HasChild(r', o) <==> HasChild(r, o) || o in ps {
      if o in ps { assert op in r'.parents && o in r'.parents[op]; }
      if c :| c in r.parents && o in r.parents[c] { assert c in r'.parents && o in r'.parents[c]; }
    }
  }

  lemma {:induction false} RunKeepsInv(steps: seq<Step>)
    requires Valid(steps)
    ensures Inv(Run(steps))
  {
    if steps != [] {
      RunKeepsInv(steps[..|steps|-1]);
      StepKeepsInv(Run(steps[..|steps|-1]), steps[|steps|-1]);
    }
  }

  lemma {:induction false} PathDescends(r: Repo, path: seq<Cid>, i: nat)
    requires Inv(r) && IsPath(r.parents, path) && i < |r.log| && path[0] == r.log[i]
    ensures |path| > 1 ==> path[|path|-1] in r.log[..i]
  {
    if |path| > 1 {
      assert path[1] in r.log[..i];
      var j :| 0 <= j < i && r.log[..i][j] == path[1];
      assert r.log[j] == path[1];
      PathDescends(r, path[1..], j);
      if |path| > 2 {
        assert path[1..][|path|-2] in r.log[..j];
        assert r.log[..j] == r.log[..i][..j];
      }
    }
  }

  /** History is acyclic in every run. */
  lemma HistoryIsAcyclic(steps: seq<Step>, path: seq<Cid>)
    requires Valid(steps) && IsPath(Run(steps).parents, path) && |path| > 1
    ensures path[0] != path[|path|-1]
  {
    var r := Run(steps);
    RunKeepsInv(steps);
    assert path[0] in r.parents;
    var i :| 0 <= i < |r.log| && r.log[i] == path[0];
    PathDescends(r, path, i);
    assert r.log[i] !in r.log[..i];
  }

  lemma {:induction false} SomeHeadReaches(r: Repo, i: nat)
    requires Inv(r) && i < |r.log|
    ensures exists h :: h in r.heads && Reaches(r.parents, h, r.log[i])
    decreases |r.log| - i
  {
    var o := r.log[i];
    if HasChild(r, o) {
      var c :| c in r.parents && o in r.parents[c];
      var j :| 0 <= j < |r.log| && r.log[j] == c;
      assert o in r.log[..j];
      var i' :| 0 <= i' < j && r.log[..j][i'] == o;
      assert r.log[i'] == o;
      SomeHeadReaches(r, j);
      var h :| h in r.heads && Reaches(r.parents, h, c);
      StepDown(r.parents, h, c, o);
    } else {
      assert o in Childless(r);
      assert IsPath(r.parents, [o]) && [o][0] == o;
      assert Reaches(r.parents, o, o);
    }
  }

  lemma StepDown(parents: map<Cid, seq<Cid>>, from: Cid, mid: Cid, to: Cid)
    requires Reaches(parents, from, mid) && mid in parents && to in parents[mid]
    ensures Reaches(parents, from, to)
  {
    var path :| IsPath(parents, path) && path[0] == from && path[|path|-1] == mid;
    assert IsPath(parents, path + [to]);
  }

  /** The repository layer loses no operation: each one ever published is a current head or an ancestor of one. */
  lemma NoOperationIsLost(steps: seq<Step>, before: nat, op: Cid)
    requires Valid(steps) && before <= |steps| && op in Run(steps[..before]).parents
    ensures exists h :: h in Run(steps).heads && Reaches(Run(steps).parents, h, op)
  {
    var r := Run(steps);
    RunKeepsInv(steps);
    PublishedStays(steps, before, op);
    var i :| 0 <= i < |r.log| && r.log[i] == op;
    SomeHeadReaches(r, i);
  }

  lemma {:induction false} PublishedStays(steps: seq<Step>, before: nat, op: Cid)
    requires before <= |steps| && op in Run(steps[..before]).parents
    ensures op in Run(steps).parents
  {
    if before == |steps| {
      assert steps[..before] == steps;
    } else {
      assert steps[..|steps|-1][..before] == steps[..before];
      PublishedStays(steps[..|steps|-1], before, op);
    }
  }

  // ---------- heads are exactly the childless operations: when ----------

  /** Publishing keeps "heads are the childless operations" exactly when the published
      operation does not already have a child. */
  lemma HeadsStayExactIff(r: Repo, w: nat, op: Cid, ps: seq<Cid>)
    requires Inv(r) && Enabled(r, Publish(w, op, ps)) && r.heads == Childless(r)
    ensures Next(r, Publish(w, op, ps)).heads == Childless(Next(r, Publish(w, op, ps))) <==> !HasChild(r, op)
  {
    var r' := Next(r, Publish(w, op, ps));
    NewOpIsNotItsParent(r, w, op, ps);
    StepKeepsInv(r, Publish(w, op, ps));
    ChildrenAfterPublish(r, w, op, ps);
    assert op in r'.heads && op in r'.parents;
    forall h | h in r'.heads && h != op ensures h in Childless(r') {
      assert h in r.heads && h !in Members(ps);
    }
  }

  lemma FreshHasNoChild(r: Repo, op: Cid)
    requires Inv(r) && op !in r.parents
    ensures !HasChild(r, op)
  {
    forall c | c in r.parents ensures op !in r.parents[c] {
      forall p | p in r.parents[c] ensures p in r.parents {
        ParentsArePublished(r, c, p);
      }
    }
  }

  /** With fresh operation ids the heads are exactly the childless operations throughout. */
  lemma {:induction false} HeadsAreChildless(steps: seq<Step>)
    requires Valid(steps) && AllFresh(steps)
    ensures Run(steps).heads == Childless(Run(steps))
  {
    if steps != [] {
      var r, s := Run(steps[..|steps|-1]), steps[|steps|-1];
      HeadsAreChildless(steps[..|steps|-1]);
      RunKeepsInv(steps[..|steps|-1]);
      if s.Publish? {
        FreshHasNoChild(r, s.op);
        HeadsStayExactIff(r, s.writer, s.op, s.ps);
      } else {
        assert forall o :: HasChild(Next(r, s), o) <==> HasChild(r, o);
      }
    }
  }

  /** An update adds at most one head, and leaves exactly the new one when it supersedes
      all the others (and not itself). */
  lemma HeadCount(heads: set<Cid>, op: Cid, ps: seq<Cid>)
    ensures |Updated(heads, op, ps)| <= |heads| + 1
    ensures Updated(heads, op, ps) == {op} <==> op !in ps && heads <= Members(ps) + {op}
  {
    var heads' := Updated(heads, op, ps);
    SubsetSize(heads', heads + {op});
    assert op in heads' <==> op !in ps;
    forall h | h in heads && h != op ensures h in heads' || h in ps {
      assert h in Members(ps) <==> h in ps;
    }
    if op !in ps && heads <= Members(ps) + {op} {
      assert heads' == {op};
    }
  }

}
