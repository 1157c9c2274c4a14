/** Interleavings of the writers that the repository layer runs against the op-heads
    table (crates/mnem-core/src/repo/): what they can and cannot rely on. */
module OpHeadRaces {
  import opened OpHeads

  /** In every state where two writers have read the same heads, one may publish their
      merge m and a commit x on top of it, and the other may still publish the same m
      afterwards: m is then a head although it has a child. */
  lemma StaleMergeReturns(r: Repo, w: nat, w': nat, heads: seq<Cid>, m: Cid, x: Cid)
    requires Inv(r) && w != w' && Members(heads) <= Known(r, w) && Members(heads) <= Known(r, w')
    requires m !in r.parents && x !in r.parents && x != m
    ensures Enabled(r, Publish(w, m, heads))
    ensures Enabled(Next(r, Publish(w, m, heads)), Publish(w, x, [m]))
    ensures Enabled(Next(Next(r, Publish(w, m, heads)), Publish(w, x, [m])), Publish(w', m, heads))
    ensures var late := Next(Next(Next(r, Publish(w, m, heads)), Publish(w, x, [m])), Publish(w', m, heads));
            m in late.heads && HasChild(late, m)
  {
    var r1 := Next(r, Publish(w, m, heads));
    var r2 := Next(r1, Publish(w, x, [m]));
    var late := Next(r2, Publish(w', m, heads));
    assert Known(r1, w') == Known(r, w') && Known(r2, w') == Known(r, w');
    assert r2.parents[m] == heads;
    NewOpIsNotItsParent(r, w, m, heads);
    assert x in late.parents && m in late.parents[x];
  }

  /** The linearize option re-reads the heads, but not in the transaction that advances
      them: in every single-headed state two writers can both pass the check, both publish,
      and leave two heads. */
  lemma LinearizeDoesNotSerialise(r: Repo, base: Cid, w: nat, w': nat, a: Cid, b: Cid)
    requires Inv(r) && r.heads == {base} && w != w' && base in Known(r, w) && base in Known(r, w')
    requires a !in r.parents && b !in r.parents && a != b
    ensures Enabled(r, Check(w, base)) && Next(r, Check(w, base)) == r
    ensures Enabled(r, Check(w', base)) && Next(r, Check(w', base)) == r
    ensures Enabled(r, Publish(w, a, [base]))
    ensures Enabled(Next(r, Publish(w, a, [base])), Publish(w', b, [base]))
    ensures Next(Next(r, Publish(w, a, [base])), Publish(w', b, [base])).heads == {a, b}
  {
    var r1 := Next(r, Publish(w, a, [base]));
    assert Known(r1, w') == Known(r, w');
    assert Members([base]) == {base};
    assert base in r.parents;
  }

  /** What the check is worth: a writer based on b that publishes a fresh operation leaves a
      single head exactly when no other head appeared by the time it publishes. */
  lemma SingleHeadIff(r: Repo, w: nat, op: Cid, base: Cid)
    requires Inv(r) && Enabled(r, Publish(w, op, [base])) && op !in r.parents
    ensures |Next(r, Publish(w, op, [base])).heads| == 1 <==> r.heads <= {base}
  {
    var heads' := Next(r, Publish(w, op, [base])).heads;
    NewOpIsNotItsParent(r, w, op, [base]);
    HeadCount(r.heads, op, [base]);
    assert Members([base]) == {base};
    assert op in heads';
    if |heads'| == 1 {
      OnlyMember(heads', op);
    }
  }

  lemma OnlyMember<T>(s: set<T>, x: T)
    requires |s| == 1 && x in s
    ensures s == {x}
  {
    assert |s - {x}| == 0;
  }

  // ---------- shared history ----------

  ghost predicate IsRoot(r: Repo, o: Cid) {
    o in r.parents && r.parents[o] == []
  }

  ghost predicate ShareAncestor(r: Repo, a: Cid, b: Cid) {
    exists c :: Reaches(r.parents, a, c) && Reaches(r.parents, b, c)
  }

  lemma {:induction false} SomeRootIsReached(r: Repo, i: nat)
    requires Inv(r) && i < |r.log|
    ensures exists root :: IsRoot(r, root) && Reaches(r.parents, r.log[i], root)
    decreases i
  {
    var o := r.log[i];
    if r.parents[o] == [] {
      assert IsPath(r.parents, [o]) && [o][0] == o;
      assert Reaches(r.parents, o, o);
    } else {
      var p := r.parents[o][0];
      assert p in r.log[..i];
      var j :| 0 <= j < i && r.log[..i][j] == p;
      SomeRootIsReached(r, j);
      var root :| IsRoot(r, root) && Reaches(r.parents, r.log[j], root);
      StepUp(r.parents, o, p, root);
    }
  }

  lemma StepUp(parents: map<Cid, seq<Cid>>, from: Cid, mid: Cid, to: Cid)
    requires from in parents && mid in parents[from] && Reaches(parents, mid, to)
    ensures Reaches(parents, from, to)
  {
    var path :| IsPath(parents, path) && path[0] == mid && path[|path|-1] == to;
    assert IsPath(parents, [from] + path);
  }

  lemma RootReachesOnlyItself(r: Repo, root: Cid, c: Cid)
    requires IsRoot(r, root) && Reaches(r.parents, root, c)
    ensures c == root
  {
    var path :| IsPath(r.parents, path) && path[0] == root && path[|path|-1] == c;
    FirstStep(r.parents, path);
  }

  lemma FirstStep(parents: map<Cid, seq<Cid>>, path: seq<Cid>)
    requires IsPath(parents, path)
    ensures |path| > 1 ==> path[0] in parents && parents[path[0]] != []
  {
    if |path| > 1 { assert path[1] in parents[path[0]]; }
  }

  /** Opening a repository with several heads needs a common ancestor for them. All
      operations of a run pairwise share one exactly when the repository was initialised
      once: there is a single parentless operation. */
  lemma SharedHistoryIff(steps: seq<Step>)
    requires Valid(steps)
    ensures (forall a, b :: a in Run(steps).parents && b in Run(steps).parents ==> ShareAncestor(Run(steps), a, b))
       <==> (forall a, b :: IsRoot(Run(steps), a) && IsRoot(Run(steps), b) ==> a == b)
  {
    var r := Run(steps);
    RunKeepsInv(steps);
    if forall a, b :: IsRoot(r, a) && IsRoot(r, b) ==> a == b {
      forall a, b | a in r.parents && b in r.parents ensures ShareAncestor(r, a, b) {
        var i :| 0 <= i < |r.log| && r.log[i] == a;
        var j :| 0 <= j < |r.log| && r.log[j] == b;
        SomeRootIsReached(r, i);
        SomeRootIsReached(r, j);
      }
    }
    if forall a, b :: a in r.parents && b in r.parents ==> ShareAncestor(r, a, b) {
      forall a, b | IsRoot(r, a) && IsRoot(r, b) ensures a == b {
        assert ShareAncestor(r, a, b);
        var c :| Reaches(r.parents, a, c) && Reaches(r.parents, b, c);
        RootReachesOnlyItself(r, a, c);
        RootReachesOnlyItself(r, b, c);
      }
    }
  }
}
