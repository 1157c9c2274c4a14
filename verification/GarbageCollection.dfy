/** Deleting the blocks no root reaches (crates/mnem-cli/src/commands/gc.rs:32-150). */
module GarbageCollection {
  import opened Blockstore
  import opened Options
  import opened BlockWalk
  import opened BlockWalkLaws

  type Links = Content -> Option<seq<Cid>>

  datatype Report =
    | Aborted(at: Item)
    | Counted(reachable: nat, total: nat, unreachable: nat)

  ghost predicate Live(v: View, roots: seq<Cid>, c: Cid) {
    exists r :: r in roots && Reaches(v, r, c)
  }

  /** Every block that some root reaches can be read. */
  ghost predicate Sound(v: View, roots: seq<Cid>) {
    forall c :: Live(v, roots, c) ==> Fetch(v, c).Visited?
  }

  ghost predicate IsLiveSet(v: View, roots: seq<Cid>, live: set<Cid>) {
    live <= v.table.Keys && forall c :: c in live <==> Live(v, roots, c)
  }

  /** The table without what no root reaches. */
  ghost predicate IsCollected(v: View, roots: seq<Cid>, t: Table) {
    && (forall c :: c in t <==> Live(v, roots, c))
    && (forall c :: c in t ==> c in v.table && t[c] == v.table[c])
  }

  // ---------- marking ----------

  ghost predicate NamesExactly(items: seq<Item>, cids: set<Cid>) {
    Clean(items) && forall c :: c in cids <==> Names(items, c)
  }

  lemma NamesSnoc(items: seq<Item>, cids: set<Cid>, last: Item)
    requires NamesExactly(items, cids) && last.Visited?
    ensures NamesExactly(items + [last], cids + {last.cid})
  {
    var longer := items + [last];
    assert longer[|items|] == last && forall i :: 0 <= i < |items| ==> longer[i] == items[i];
    forall c ensures Names(longer, c) <==> Names(items, c) || c == last.cid {
      if Names(items, c) {
        var i :| 0 <= i < |items| && items[i].cid == c;
        assert longer[i].cid == c;
      }
      if c == last.cid { assert longer[|items|].cid == c; }
    }
  }

  ghost predicate IsObstacle(v: View, root: Cid, item: Item) {
    Reaches(v, root, item.cid) && item == Fetch(v, item.cid) && !item.Visited?
  }

  ghost predicate IsReach(v: View, root: Cid, cids: set<Cid>) {
    AllReadable(v, root) && forall c :: c in cids <==> Reaches(v, root, c)
  }

  /** A walk from the root that has come to a state and visited some blocks on the way. */
  ghost predicate Midway(v: View, root: Cid, s: State, cids: set<Cid>) {
    exists items :: NamesExactly(items, cids) && Walked(v, Start(root)) == items + Walked(v, s)
  }

  lemma MidwayAtStart(v: View, root: Cid)
    ensures Midway(v, root, Start(root), {})
  {
    var all := Walked(v, Start(root));
    assert NamesExactly([], {}) && all == [] + all;
  }

  lemma MidwayVisits(v: View, root: Cid, s: State, cids: set<Cid>)
    requires Midway(v, root, s, cids) && Advance(v, s).0.Some? && Advance(v, s).0.value.Visited?
    ensures Midway(v, root, Advance(v, s).1, cids + {Advance(v, s).0.value.cid})
  {
    var item, rest := Advance(v, s).0.value, Walked(v, Advance(v, s).1);
    var items :| NamesExactly(items, cids) && Walked(v, Start(root)) == items + Walked(v, s);
    WalkedStep(v, s);
    assert items + ([item] + rest) == (items + [item]) + rest;
    NamesSnoc(items, cids, item);
  }

  lemma MidwayEnds(v: View, root: Cid, s: State, cids: set<Cid>)
    requires Midway(v, root, s, cids) && Advance(v, s).0 == None
    ensures IsReach(v, root, cids)
  {
    var items :| NamesExactly(items, cids) && Walked(v, Start(root)) == items + Walked(v, s);
    WalkedStep(v, s);
    assert items + [] == items;
    WalkIsReachabilityIff(v, root);
  }

  lemma MidwayFails(v: View, root: Cid, s: State, cids: set<Cid>)
    requires Midway(v, root, s, cids) && Advance(v, s).0.Some? && !Advance(v, s).0.value.Visited?
    ensures IsObstacle(v, root, Advance(v, s).0.value)
  {
    var items :| NamesExactly(items, cids) && Walked(v, Start(root)) == items + Walked(v, s);
    WalkedStep(v, s);
    WalkIsReachabilityIff(v, root);
    assert Walked(v, Start(root))[|items|] == Advance(v, s).0.value;
  }

  lemma WalkedStep(v: View, s: State)
    ensures Advance(v, s).0 == None ==> Walked(v, s) == []
    ensures Advance(v, s).0.Some? ==> Walked(v, s) == [Advance(v, s).0.value] + Walked(v, Advance(v, s).1)
  {
  }

  /** One root's walk: its blocks, or the error that ends it. */
  method WalkRoot(v: View, root: Cid) returns (error: Option<Item>, reached: set<Cid>)
    ensures error == None ==> IsReach(v, root, reached)
    ensures error.Some? ==> IsObstacle(v, root, error.value)
  {
    var it := new ReachableIter(v, root);
    reached := {};
    MidwayAtStart(v, root);
    while true
      invariant it.v == v && fresh(it) && Midway(v, root, it.Now(), reached)
      decreases if it.fused then 0 else 1 + Remaining(v, it.Now())
    {
      ghost var before := it.Now();
      var item := it.Next();
      if item == None {
        MidwayEnds(v, root, before, reached);
        return None, reached;
      }
      if !item.value.Visited? {
        MidwayFails(v, root, before, reached);
        return item, reached;
      }
      MidwayVisits(v, root, before, reached);
      AdvanceShrinks(v, before);
      reached := reached + {item.value.cid};
    }
  }

  lemma LiveSnoc(v: View, roots: seq<Cid>, last: Cid, c: Cid)
    ensures Live(v, roots + [last], c) <==> Live(v, roots, c) || Reaches(v, last, c)
  {
    assert forall r :: r in roots + [last] <==> r in roots || r == last;
  }

  ghost predicate MarkedSoFar(v: View, roots: seq<Cid>, live: set<Cid>) {
    Sound(v, roots) && forall c :: c in live <==> Live(v, roots, c)
  }

  lemma MarkedSnoc(v: View, roots: seq<Cid>, live: set<Cid>, last: Cid, more: set<Cid>)
    requires MarkedSoFar(v, roots, live)
    requires IsReach(v, last, more)
    ensures MarkedSoFar(v, roots + [last], live + more)
  {
    forall c ensures Live(v, roots + [last], c) <==> Live(v, roots, c) || Reaches(v, last, c) {
      LiveSnoc(v, roots, last, c);
    }
  }

  ghost predicate IsLiveObstacle(v: View, roots: seq<Cid>, item: Item) {
    Live(v, roots, item.cid) && item == Fetch(v, item.cid) && !item.Visited?
  }

  /** Everything some root reaches; or the first block in the way. */
  method Mark(v: View, roots: seq<Cid>) returns (error: Option<Item>, live: set<Cid>)
    ensures error == None ==> Sound(v, roots) && IsLiveSet(v, roots, live)
    ensures error.Some? ==> !Sound(v, roots) && IsLiveObstacle(v, roots, error.value)
  {
    live := {};
    for i := 0 to |roots|
      invariant MarkedSoFar(v, roots[..i], live)
    {
      var reached;
      error, reached := WalkRoot(v, roots[i]);
      if error.Some? {
        assert roots[i] in roots && Live(v, roots, error.value.cid);
        return;
      }
      assert roots[..i+1] == roots[..i] + [roots[i]];
      MarkedSnoc(v, roots[..i], live, roots[i], reached);
      live := live + reached;
    }
    assert roots[..|roots|] == roots;
    assert forall c :: c in live ==> Fetch(v, c).Visited?;
    return None, live;
  }

  // ---------- sweeping ----------

  method Sweep(store: RedbBlockstore, unreachable: set<Cid>)
    modifies store
    ensures store.objects == old(store.objects) - unreachable
  {
    var rest := unreachable;
    while rest != {}
      invariant rest <= unreachable
      invariant store.objects == old(store.objects) - (unreachable - rest)
      decreases |rest|
    {
      var c :| c in rest;
      assert unreachable - (rest - {c}) == (unreachable - rest) + {c};
      rest := rest - {c};
      store.Delete(c);
    }
  }

  ghost predicate IsReport(v: View, roots: seq<Cid>, r: Report, live: set<Cid>) {
    IsLiveSet(v, roots, live) && r == Counted(|live|, |v.table|, |v.table.Keys - live|)
  }

  /** Reports and, when forced, deletes. A bad block on the way aborts before any deletion. */
  method CollectGarbage(store: RedbBlockstore, links: Links, roots: seq<Cid>, force: bool) returns (r: Report)
    modifies store
    ensures r.Aborted? <==> !Sound(View(store.h, old(store.objects), links), roots)
    ensures r.Aborted? ==> IsLiveObstacle(View(store.h, old(store.objects), links), roots, r.at)
    ensures r.Aborted? || !force ==> store.objects == old(store.objects)
    ensures r.Counted? && force ==> IsCollected(View(store.h, old(store.objects), links), roots, store.objects)
    ensures r.Counted? ==> exists live :: IsReport(View(store.h, old(store.objects), links), roots, r, live)
  {
    var v := View(store.h, store.objects, links);
    var error, live := Mark(v, roots);
    if error.Some? {
      return Aborted(error.value);
    }
    var all := store.AllCids();
    var unreachable := set c | c in all && c !in live;
    assert unreachable == v.table.Keys - live;
    r := Counted(|live|, |all|, |unreachable|);
    assert IsReport(v, roots, r, live);
    if force {
      Sweep(store, unreachable);
    }
  }

  // ---------- what collection preserves ----------

  ghost predicate AgreeOn(v: View, w: View, c: Cid) {
    (c in v.table <==> c in w.table) && (c in v.table ==> v.table[c] == w.table[c])
  }

  /** Some of what no root reaches is gone: a collection in progress, or one whose deletions
      partly failed. */
  ghost predicate KeepsLive(v: View, roots: seq<Cid>, t: Table) {
    && (forall c :: c in t ==> c in v.table && t[c] == v.table[c])
    && (forall c :: Live(v, roots, c) ==> c in t)
  }

  /** From every root the same walk, block for block, before, during and after. */
  lemma CollectionKeepsWalks(v: View, roots: seq<Cid>, t: Table, root: Cid)
    requires Sound(v, roots) && KeepsLive(v, roots, t) && root in roots
    ensures Walked(View(v.h, t, v.links), Start(root)) == Walked(v, Start(root))
    ensures Clean(Walked(v, Start(root)))
  {
    var items := Walked(v, Start(root));
    WalkIsReachabilityIff(v, root);
    forall c | Reaches(v, root, c) ensures Fetch(v, c).Visited? && AgreeOn(v, View(v.h, t, v.links), c) {
      assert Live(v, roots, c);
    }
    WalkFrame(v, View(v.h, t, v.links), Start(root));
  }

  lemma ReachesByWalk(v: View, w: View, root: Cid, c: Cid)
    requires Walked(v, Start(root)) == Walked(w, Start(root)) && Clean(Walked(v, Start(root)))
    ensures Reaches(v, root, c) <==> Reaches(w, root, c)
    ensures AllReadable(w, root)
  {
    WalkIsReachabilityIff(v, root);
    WalkIsReachabilityIff(w, root);
  }

  /** A second collection finds a sound store in which everything is reachable. */
  lemma CollectingTwice(v: View, roots: seq<Cid>, t: Table)
    requires Sound(v, roots) && IsCollected(v, roots, t)
    ensures var w := View(v.h, t, v.links);
            Sound(w, roots) && IsCollected(w, roots, t) && IsLiveSet(w, roots, t.Keys)
  {
    var w := View(v.h, t, v.links);
    forall r, c | r in roots ensures (Reaches(v, r, c) <==> Reaches(w, r, c)) && AllReadable(w, r) {
      CollectionKeepsWalks(v, roots, t, r);
      ReachesByWalk(v, w, r, c);
    }
    forall c ensures Live(v, roots, c) <==> Live(w, roots, c) { SameLive(v, w, roots, c); }
  }

  lemma SameLive(v: View, w: View, roots: seq<Cid>, c: Cid)
    requires forall r :: r in roots ==> (Reaches(v, r, c) <==> Reaches(w, r, c))
    ensures Live(v, roots, c) <==> Live(w, roots, c)
  {
  }
}
