/** A walk visits exactly the reachable blocks, each once, or stops at a bad one. */
module BlockWalkLaws {
  import opened Blockstore
  import opened Options
  import opened BlockWalk
  import opened Ordering

  /** A chain of links through readable blocks; the last block need not be readable. */
  ghost predicate LinkPath(v: View, path: seq<Cid>) {
    path != [] && forall i :: 0 <= i < |path| - 1 ==> IsLink(v, path[i], path[i+1])
  }

  predicate IsLink(v: View, a: Cid, b: Cid) {
    Fetch(v, a).Visited? && b in LinksOf(v, a)
  }

  /** A link: from a stored block with a fitting digest and the DAG-CBOR code, to an identifier
      that its bytes name. */
  lemma IsLinkMeans(v: View, a: Cid, b: Cid)
    ensures IsLink(v, a, b)
       <==> a in v.table && DigestFits(v.h, a, v.table[a]) && a.codec == 0x71
            && v.links(v.table[a]).Some? && b in v.links(v.table[a]).value
  {
    if a in v.table { ChecksMeans(v.h, a, v.table[a]); }
  }

  /** A block is visited with its stored bytes when these fit the identifier and, if it is
      DAG-CBOR, can be decoded; else the item names what is wrong with it. */
  lemma FetchMeans(v: View, c: Cid)
    ensures Fetch(v, c).NotFound? <==> c !in v.table
    ensures Fetch(v, c).Corrupt? <==> c in v.table && !DigestFits(v.h, c, v.table[c])
    ensures Fetch(v, c).Undecodable? <==>
              c in v.table && DigestFits(v.h, c, v.table[c]) && c.codec == 0x71 && v.links(v.table[c]) == None
    ensures Fetch(v, c).Visited? ==> c in v.table && Fetch(v, c).data == v.table[c]
    ensures Fetch(v, c).cid == c
  {
    if c in v.table { ChecksMeans(v.h, c, v.table[c]); }
  }

  ghost predicate Reaches(v: View, a: Cid, b: Cid) {
    exists path :: LinkPath(v, path) && path[0] == a && path[|path|-1] == b
  }

  lemma ReachesStep(v: View, a: Cid, b: Cid, c: Cid)
    requires Reaches(v, a, b) && IsLink(v, b, c)
    ensures Reaches(v, a, c)
  {
    var path :| LinkPath(v, path) && path[0] == a && path[|path|-1] == b;
    var longer := path + [c];
    forall i | 0 <= i < |longer| - 1 ensures IsLink(v, longer[i], longer[i+1]) {
      if i < |path| - 1 { assert IsLink(v, path[i], path[i+1]); }
    }
    assert LinkPath(v, longer) && longer[0] == a && longer[|longer|-1] == c;
  }

  lemma ReachesItself(v: View, a: Cid)
    ensures Reaches(v, a, a)
  {
    assert LinkPath(v, [a]) && [a][0] == a && [a][|[a]|-1] == a;
  }

  lemma {:induction false} Closed(v: View, inside: set<Cid>, path: seq<Cid>)
    requires LinkPath(v, path) && path[0] in inside
    requires forall a, b :: a in inside && IsLink(v, a, b) ==> b in inside
    ensures path[|path|-1] in inside
  {
    if |path| > 1 {
      assert IsLink(v, path[0], path[1]);
      forall i | 0 <= i < |path[1..]| - 1 ensures IsLink(v, path[1..][i], path[1..][i+1]) {
        assert IsLink(v, path[i+1], path[i+2]);
      }
      Closed(v, inside, path[1..]);
    }
  }

  // ---------- claiming links ----------

  lemma {:induction false} ClaimMembers(links: seq<Cid>, stack: seq<Cid>, seen: set<Cid>, c: Cid)
    ensures c in Claim(links, stack, seen).1 <==> c in seen || c in links
    ensures c in Claim(links, stack, seen).0 <==> c in stack || (c in links && c !in seen)
  {
    if links != [] {
      var front, l := links[..|links|-1], links[|links|-1];
      assert links == front + [l];
      if l in seen {
        ClaimMembers(front, stack, seen, c);
      } else {
        ClaimMembers(front, stack + [l], seen + {l}, c);
      }
    }
  }

  lemma {:induction false} ClaimIsDistinct(links: seq<Cid>, stack: seq<Cid>, seen: set<Cid>)
    requires Distinct(stack) && forall c :: c in stack ==> c in seen
    ensures Distinct(Claim(links, stack, seen).0)
  {
    if links != [] {
      var front, l := links[..|links|-1], links[|links|-1];
      if l in seen {
        ClaimIsDistinct(front, stack, seen);
      } else {
        ClaimIsDistinct(front, stack + [l], seen + {l});
      }
    }
  }

  // ---------- the invariant of a walk ----------

  /** Everything seen is visited or on the stack, once. */
  ghost predicate StackInv(stack: seq<Cid>, seen: set<Cid>, done: set<Cid>) {
    && Distinct(stack)
    && (forall c :: c in seen <==> c in done || c in stack)
    && (forall c :: c in stack ==> c !in done)
  }

  /** Everything seen is reachable, and the visited blocks link to nothing unseen. */
  ghost predicate GraphInv(v: View, root: Cid, seen: set<Cid>, done: set<Cid>) {
    && root in seen
    && (forall c :: c in seen ==> Reaches(v, root, c))
    && (forall a, b :: a in done && IsLink(v, a, b) ==> b in seen)
  }

  ghost predicate Inv(v: View, root: Cid, s: State, done: set<Cid>) {
    StackInv(s.stack, s.seen, done) && GraphInv(v, root, s.seen, done)
  }

  lemma StartInv(v: View, root: Cid)
    ensures Inv(v, root, Start(root), {})
  {
    ReachesItself(v, root);
  }

  lemma PopIsDistinct(stack: seq<Cid>)
    requires Distinct(stack) && stack != []
    ensures Distinct(stack[..|stack|-1])
    ensures forall c :: c in stack <==> c in stack[..|stack|-1] || c == stack[|stack|-1]
    ensures stack[|stack|-1] !in stack[..|stack|-1]
  {
    assert stack == stack[..|stack|-1] + [stack[|stack|-1]];
  }

  lemma VisitKeepsStackInv(links: seq<Cid>, stack: seq<Cid>, seen: set<Cid>, done: set<Cid>)
    requires StackInv(stack, seen, done) && stack != []
    ensures var c, rest := stack[|stack|-1], stack[..|stack|-1];
            c !in done && StackInv(Claim(links, rest, seen).0, Claim(links, rest, seen).1, done + {c})
  {
    var c, rest := stack[|stack|-1], stack[..|stack|-1];
    PopIsDistinct(stack);
    ClaimIsDistinct(links, rest, seen);
    forall x { ClaimMembers(links, rest, seen, x); }
  }

  lemma VisitKeepsGraphInv(v: View, root: Cid, c: Cid, rest: seq<Cid>, seen: set<Cid>, done: set<Cid>)
    requires GraphInv(v, root, seen, done) && c in seen && Fetch(v, c).Visited?
    ensures GraphInv(v, root, Claim(LinksOf(v, c), rest, seen).1, done + {c})
  {
    var after := Claim(LinksOf(v, c), rest, seen).1;
    forall x ensures x in after <==> x in seen || IsLink(v, c, x) { ClaimMembers(LinksOf(v, c), rest, seen, x); }
    forall x | x in after ensures Reaches(v, root, x) {
      if x !in seen { ReachesStep(v, root, c, x); }
    }
  }

  lemma AdvanceKeepsInv(v: View, root: Cid, s: State, done: set<Cid>)
    requires Inv(v, root, s, done) && Advance(v, s).0.Some?
    ensures var item := Advance(v, s).0.value;
            && item.cid !in done && Reaches(v, root, item.cid) && item == Fetch(v, item.cid)
            && (item.Visited? ==> Inv(v, root, Advance(v, s).1, done + {item.cid}))
  {
    var c, rest := s.stack[|s.stack|-1], s.stack[..|s.stack|-1];
    assert c in s.stack;
    if Fetch(v, c).Visited? {
      VisitKeepsStackInv(LinksOf(v, c), s.stack, s.seen, done);
      VisitKeepsGraphInv(v, root, c, rest, s.seen, done);
    }
  }

  // ---------- the two outcomes ----------

  predicate Clean(items: seq<Item>) {
    forall i :: 0 <= i < |items| ==> items[i].Visited?
  }

  ghost predicate Names(items: seq<Item>, c: Cid) {
    exists i :: 0 <= i < |items| && items[i].cid == c
  }

  /** Items are new, truthful and reachable, no block comes twice, and only the last can be
      an error. */
  ghost predicate Faithful(v: View, root: Cid, done: set<Cid>, items: seq<Item>) {
    && (forall i, j :: 0 <= i < j < |items| ==> items[i].cid != items[j].cid)
    && (forall i :: 0 <= i < |items| ==> items[i].cid !in done)
    && (forall i :: 0 <= i < |items| ==> Reaches(v, root, items[i].cid))
    && (forall i :: 0 <= i < |items| ==> items[i] == Fetch(v, items[i].cid))
    && (forall i :: 0 <= i < |items| - 1 ==> items[i].Visited?)
  }

  ghost predicate Complete(v: View, root: Cid, done: set<Cid>, items: seq<Item>) {
    forall c :: Reaches(v, root, c) ==> c in done || Names(items, c)
  }

  lemma NothingLeft(v: View, root: Cid, s: State, done: set<Cid>)
    requires Inv(v, root, s, done) && s.stack == []
    ensures Complete(v, root, done, [])
  {
    forall c | Reaches(v, root, c) ensures c in done {
      var path :| LinkPath(v, path) && path[0] == root && path[|path|-1] == c;
      assert forall x :: x in s.seen <==> x in done;
      Closed(v, s.seen, path);
    }
  }

  lemma ConsIsFaithful(v: View, root: Cid, done: set<Cid>, first: Item, rest: seq<Item>)
    requires first.Visited? && first == Fetch(v, first.cid) && first.cid !in done && Reaches(v, root, first.cid)
    requires Faithful(v, root, done + {first.cid}, rest)
    ensures Faithful(v, root, done, [first] + rest)
  {
    var items := [first] + rest;
    assert items[0] == first && forall i :: 1 <= i < |items| ==> items[i] == rest[i-1];
    forall j | 0 < j < |items| ensures items[j].cid != first.cid { assert rest[j-1].cid !in done + {first.cid}; }
  }

  lemma ConsIsComplete(v: View, root: Cid, done: set<Cid>, first: Item, rest: seq<Item>)
    requires Complete(v, root, done + {first.cid}, rest)
    ensures Complete(v, root, done, [first] + rest)
  {
    forall c | Reaches(v, root, c) ensures c in done || Names([first] + rest, c) {
      if Names(rest, c) {
        var i :| 0 <= i < |rest| && rest[i].cid == c;
        assert ([first] + rest)[i+1].cid == c;
      } else {
        assert ([first] + rest)[0] == first;
      }
    }
  }

  lemma CleanCons(first: Item, rest: seq<Item>)
    ensures Clean([first] + rest) <==> first.Visited? && Clean(rest)
  {
    var items := [first] + rest;
    assert items[0] == first && forall i :: 0 <= i < |rest| ==> items[i+1] == rest[i];
  }

  lemma {:induction false} WalkIsFaithful(v: View, root: Cid, s: State, done: set<Cid>)
    requires Inv(v, root, s, done) && !s.fused
    ensures Faithful(v, root, done, Walked(v, s))
    ensures Clean(Walked(v, s)) ==> Complete(v, root, done, Walked(v, s))
    decreases Remaining(v, s)
  {
    var (item, next) := Advance(v, s);
    if item == None {
      NothingLeft(v, root, s, done);
    } else {
      AdvanceKeepsInv(v, root, s, done);
      CleanCons(item.value, Walked(v, next));
      if item.value.Visited? {
        AdvanceShrinks(v, s);
        WalkIsFaithful(v, root, next, done + {item.value.cid});
        ConsIsFaithful(v, root, done, item.value, Walked(v, next));
        if Clean(Walked(v, next)) { ConsIsComplete(v, root, done, item.value, Walked(v, next)); }
      } else {
        assert Walked(v, s) == [item.value];
      }
    }
  }

  ghost predicate AllReadable(v: View, root: Cid) {
    forall c :: Reaches(v, root, c) ==> Fetch(v, c).Visited?
  }

  /** A walk yields every block reachable from the root exactly once, exactly when all of
      them can be read; else it ends with an error that names one that cannot. */
  lemma WalkIsReachabilityIff(v: View, root: Cid)
    ensures var items := Walked(v, Start(root));
            && Faithful(v, root, {}, items)
            && (Clean(items) <==> AllReadable(v, root))
            && (Clean(items) ==> forall c :: Names(items, c) <==> Reaches(v, root, c))
            && (!Clean(items) ==> items != [] && !Fetch(v, items[|items|-1].cid).Visited?)
  {
    StartInv(v, root);
    WalkIsFaithful(v, root, Start(root), {});
    var items := Walked(v, Start(root));
    if Clean(items) {
      forall c | Reaches(v, root, c) ensures Fetch(v, c).Visited? {
        var i :| 0 <= i < |items| && items[i].cid == c;
        assert items[i] == Fetch(v, c) && items[i].Visited?;
      }
    } else {
      var i :| 0 <= i < |items| && !items[i].Visited?;
      assert i == |items| - 1;
      assert Reaches(v, root, items[i].cid);
    }
  }

  // ---------- what a walk depends on ----------

  /** A walk depends on no block but those it names. */
  lemma {:induction false} WalkFrame(v: View, w: View, s: State)
    requires v.h == w.h && v.links == w.links
    requires forall i :: 0 <= i < |Walked(v, s)| ==>
               var c := Walked(v, s)[i].cid; (c in v.table <==> c in w.table) && (c in v.table ==> v.table[c] == w.table[c])
    ensures Walked(w, s) == Walked(v, s)
    decreases if s.fused then 0 else 1 + Remaining(v, s)
  {
    var (item, next) := Advance(v, s);
    if item.Some? {
      var items := Walked(v, s);
      assert items == [item.value] + Walked(v, next);
      assert items[0].cid == s.stack[|s.stack|-1];
      assert Advance(w, s) == Advance(v, s);
      if item.value.Visited? { AdvanceShrinks(v, s); }
      forall i | 0 <= i < |Walked(v, next)|
        ensures var c := Walked(v, next)[i].cid;
                (c in v.table <==> c in w.table) && (c in v.table ==> v.table[c] == w.table[c])
      {
        assert items[i+1] == Walked(v, next)[i];
      }
      WalkFrame(v, w, next);
    }
  }
}
