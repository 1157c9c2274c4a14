/** The order of a walk, against a depth-first search that marks blocks when it visits them. */
module BlockWalkOrder {
  import opened Blockstore
  import opened Options
  import opened Ordering
  import opened BlockWalk
  import opened BlockWalkLaws

  function Reversed(s: seq<Cid>): seq<Cid> {
    if s == [] then [] else [s[|s|-1]] + Reversed(s[..|s|-1])
  }

  /** Depth-first order, first link first, each block once, up to the first error. */
  function DepthFirst(v: View, stack: seq<Cid>, visited: set<Cid>): seq<Item>
    decreases |v.table.Keys - visited|, |stack|
  {
    if stack == [] then []
    else
      var c, rest := stack[|stack|-1], stack[..|stack|-1];
      if c in visited then DepthFirst(v, rest, visited)
      else
        var item := Fetch(v, c);
        if !item.Visited? then [item]
        else
          assert v.table.Keys - (visited + {c}) == (v.table.Keys - visited) - {c};
          [item] + DepthFirst(v, rest + Reversed(LinksOf(v, c)), visited + {c})
  }

  /** The blocks still to visit, each at its place nearest to the top. */
  function Pending(s: seq<Cid>, drop: set<Cid>): seq<Cid> {
    if s == [] then []
    else
      var front, last := s[..|s|-1], s[|s|-1];
      if last in drop then Pending(front, drop) else Pending(front, drop + {last}) + [last]
  }

  /** At every visit the links claimed leave the walk waiting for the same blocks, in the same
      order, as the search: links to waiting blocks name the next ones. */
  ghost predicate Orderly(v: View, s: State, done: set<Cid>)
    decreases if s.fused then 0 else 1 + Remaining(v, s)
  {
    var (item, next) := Advance(v, s);
    item.Some? && item.value.Visited? ==>
      var c := item.value.cid;
      AdvanceShrinks(v, s);
      && next.stack == Pending(s.stack[..|s.stack|-1] + Reversed(LinksOf(v, c)), done + {c})
      && Orderly(v, next, done + {c})
  }

  function Set(s: seq<Cid>): set<Cid> {
    set c | c in s
  }

  lemma {:induction false} PendingConcat(a: seq<Cid>, b: seq<Cid>, drop: set<Cid>)
    ensures Pending(a + b, drop) == Pending(a, drop + Set(b)) + Pending(b, drop)
    decreases |b|
  {
    if b == [] {
      assert a + b == a && drop + Set(b) == drop;
    } else {
      var front, last := b[..|b|-1], b[|b|-1];
      assert (a + b)[..|a+b|-1] == a + front;
      assert b == front + [last];
      if last in drop {
        PendingConcat(a, front, drop);
        assert drop + Set(b) == drop + Set(front);
      } else {
        PendingConcat(a, front, drop + {last});
        assert drop + Set(b) == drop + {last} + Set(front);
      }
    }
  }

  /** Dropping in two steps is dropping at once. */
  lemma {:induction false} PendingTwice(s: seq<Cid>, a: set<Cid>, b: set<Cid>)
    requires a <= b
    ensures Pending(Pending(s, a), b) == Pending(s, b)
  {
    if s != [] {
      var front, last := s[..|s|-1], s[|s|-1];
      if last in a {
        PendingTwice(front, a, b);
      } else {
        var rest := Pending(front, a + {last});
        assert (rest + [last])[..|rest|] == rest;
        if last in b {
          PendingTwice(front, a + {last}, b);
        } else {
          PendingTwice(front, a + {last}, b + {last});
        }
      }
    }
  }

  /** The search's stack, less what has been visited or comes sooner, is the walk's stack. */
  ghost predicate InStep(s: State, done: set<Cid>, stack: seq<Cid>) {
    !s.fused && Pending(stack, done) == s.stack
  }

  lemma VisitStaysInStep(v: View, s: State, done: set<Cid>, stack: seq<Cid>)
    requires InStep(s, done, stack) && stack != [] && stack[|stack|-1] !in done
    requires Fetch(v, stack[|stack|-1]).Visited? && Orderly(v, s, done)
    ensures var c := stack[|stack|-1];
            && Advance(v, s).0 == Some(Fetch(v, c))
            && InStep(Advance(v, s).1, done + {c}, stack[..|stack|-1] + Reversed(LinksOf(v, c)))
  {
    var c, rest := stack[|stack|-1], stack[..|stack|-1];
    var links, waiting := Reversed(LinksOf(v, c)), Pending(rest, done + {c});
    assert s.stack[..|s.stack|-1] == waiting;
    PendingConcat(rest, links, done + {c});
    PendingConcat(waiting, links, done + {c});
    PendingTwice(rest, done + {c}, done + {c} + Set(links));
  }

  lemma TopIsNext(s: State, done: set<Cid>, stack: seq<Cid>)
    requires InStep(s, done, stack) && stack != [] && stack[|stack|-1] !in done
    ensures s.stack != [] && s.stack[|s.stack|-1] == stack[|stack|-1]
  {
  }

  lemma {:induction false} InStepSameItems(v: View, s: State, done: set<Cid>, stack: seq<Cid>)
    requires InStep(s, done, stack) && Orderly(v, s, done)
    ensures Walked(v, s) == DepthFirst(v, stack, done)
    decreases Remaining(v, s), |stack|
  {
    if stack != [] {
      var c, rest := stack[|stack|-1], stack[..|stack|-1];
      if c in done {
        InStepSameItems(v, s, done, rest);
      } else {
        TopIsNext(s, done, stack);
        if Fetch(v, c).Visited? {
          VisitStaysInStep(v, s, done, stack);
          AdvanceShrinks(v, s);
          InStepSameItems(v, Advance(v, s).1, done + {c}, rest + Reversed(LinksOf(v, c)));
        }
      }
    }
  }

  /** A walk is in depth-first order if it stays in step with the search. */
  lemma OrderlyWalkIsDepthFirst(v: View, root: Cid)
    requires Orderly(v, Start(root), {})
    ensures Walked(v, Start(root)) == DepthFirst(v, [root], {})
  {
    assert [root][..0] == [];
    assert Pending([root], {}) == [root];
    InStepSameItems(v, Start(root), {}, [root]);
  }

  // ---------- a condition on the store ----------

  /** No block but the root is linked twice: from two reachable blocks, or twice from one. */
  ghost predicate LinkedOnce(v: View, root: Cid) {
    forall a, b, c, i, j :: c != root && LinkAt(v, root, a, i, c) && LinkAt(v, root, b, j, c) ==> a == b && i == j
  }

  ghost predicate LinkAt(v: View, root: Cid, a: Cid, i: nat, c: Cid) {
    Reaches(v, root, a) && Fetch(v, a).Visited? && i < |LinksOf(v, a)| && LinksOf(v, a)[i] == c
  }

  /** What has been seen, but for the root, is linked from a visited block. */
  ghost predicate Accounted(v: View, root: Cid, seen: set<Cid>, done: set<Cid>) {
    && (forall c :: c in seen && c != root ==> LinkedFrom(v, done, c))
    && (forall a :: a in done ==> Reaches(v, root, a))
  }

  ghost predicate LinkedFrom(v: View, done: set<Cid>, c: Cid) {
    exists a :: a in done && IsLink(v, a, c)
  }

  lemma {:induction false} PendingIsAll(s: seq<Cid>, drop: set<Cid>)
    requires Distinct(s) && forall c :: c in s ==> c !in drop
    ensures Pending(s, drop) == s
  {
    if s != [] {
      PopIsDistinct(s);
      PendingIsAll(s[..|s|-1], drop + {s[|s|-1]});
    }
  }

  lemma {:induction false} ReversedMembers(s: seq<Cid>, c: Cid)
    ensures c in Reversed(s) <==> c in s
  {
    if s != [] {
      assert s == s[..|s|-1] + [s[|s|-1]];
      ReversedMembers(s[..|s|-1], c);
    }
  }

  /** Links that are the root, or new, and not named twice. */
  ghost predicate Fresh(links: seq<Cid>, root: Cid, seen: set<Cid>) {
    && (forall i :: 0 <= i < |links| ==> links[i] == root || links[i] !in seen)
    && (forall i, j :: 0 <= i < j < |links| && links[i] == links[j] ==> links[i] == root)
  }

  lemma OneLink(l: Cid, drop: set<Cid>)
    ensures Pending([l], drop) == if l in drop then [] else [l]
  {
    assert [l][..0] == [];
  }

  /** Fresh links are claimed in the order in which the search will come to them. */
  lemma {:induction false} FreshClaim(links: seq<Cid>, root: Cid, stack: seq<Cid>, seen: set<Cid>, drop: set<Cid>)
    requires root in seen && root in drop && drop <= seen && Fresh(links, root, seen)
    ensures Claim(links, stack, seen).0 == stack + Pending(Reversed(links), drop)
  {
    if links != [] {
      var front, l := links[..|links|-1], links[|links|-1];
      FreshFront(links, root, seen);
      LastLinkPends(links, drop);
      if l == root {
        FreshClaim(front, root, stack, seen, drop);
      } else {
        FreshClaim(front, root, stack + [l], seen + {l}, drop);
      }
    }
  }

  lemma FreshFront(links: seq<Cid>, root: Cid, seen: set<Cid>)
    requires links != [] && root in seen && Fresh(links, root, seen)
    ensures var front, l := links[..|links|-1], links[|links|-1];
            && Fresh(front, root, seen)
            && (l != root ==> l !in seen && l !in front && Fresh(front, root, seen + {l}))
  {
  }

  lemma LastLinkPends(links: seq<Cid>, drop: set<Cid>)
    requires links != []
    ensures Pending(Reversed(links), drop)
         == (if links[|links|-1] in drop || links[|links|-1] in links[..|links|-1] then [] else [links[|links|-1]])
            + Pending(Reversed(links[..|links|-1]), drop)
  {
    var front, l := links[..|links|-1], links[|links|-1];
    PendingConcat([l], Reversed(front), drop);
    ReversedMembers(front, l);
    OneLink(l, drop + Set(Reversed(front)));
  }

  lemma LinksAreFresh(v: View, root: Cid, c: Cid, seen: set<Cid>, done: set<Cid>)
    requires LinkedOnce(v, root) && Accounted(v, root, seen, done)
    requires Reaches(v, root, c) && Fetch(v, c).Visited? && c !in done
    ensures Fresh(LinksOf(v, c), root, seen)
  {
    var links := LinksOf(v, c);
    forall i | 0 <= i < |links| ensures links[i] == root || links[i] !in seen {
      if links[i] in seen && links[i] != root {
        var a :| a in done && IsLink(v, a, links[i]);
        var j :| 0 <= j < |LinksOf(v, a)| && LinksOf(v, a)[j] == links[i];
        assert LinkAt(v, root, a, j, links[i]) && LinkAt(v, root, c, i, links[i]);
      }
    }
    forall i, j | 0 <= i < j < |links| && links[i] == links[j] ensures links[i] == root {
      assert LinkAt(v, root, c, i, links[i]) && LinkAt(v, root, c, j, links[i]);
    }
  }

  lemma VisitKeepsAccounted(v: View, root: Cid, c: Cid, rest: seq<Cid>, seen: set<Cid>, done: set<Cid>)
    requires Accounted(v, root, seen, done) && Reaches(v, root, c) && Fetch(v, c).Visited?
    ensures Accounted(v, root, Claim(LinksOf(v, c), rest, seen).1, done + {c})
  {
    var links := LinksOf(v, c);
    var after := Claim(links, rest, seen).1;
    forall x | x in after && x != root ensures LinkedFrom(v, done + {c}, x) {
      ClaimMembers(links, rest, seen, x);
      StillLinked(v, done, c, x);
    }
  }

  lemma StillLinked(v: View, done: set<Cid>, c: Cid, x: Cid)
    ensures LinkedFrom(v, done, x) || IsLink(v, c, x) ==> LinkedFrom(v, done + {c}, x)
  {
    if LinkedFrom(v, done, x) {
      var a :| a in done && IsLink(v, a, x);
      assert a in done + {c};
    } else if IsLink(v, c, x) {
      assert c in done + {c};
    }
  }

  lemma FreshMember(links: seq<Cid>, root: Cid, seen: set<Cid>, c: Cid)
    requires Fresh(links, root, seen)
    ensures c in links ==> c == root || c !in seen
  {
  }

  /** The waiting blocks come first in the search's stack, and none of them is linked again. */
  lemma WaitingStay(links: seq<Cid>, root: Cid, rest: seq<Cid>, seen: set<Cid>, drop: set<Cid>)
    requires Fresh(links, root, seen) && root in drop && Distinct(rest)
    requires forall c :: c in rest ==> c in seen && c !in drop
    ensures Pending(rest + Reversed(links), drop) == rest + Pending(Reversed(links), drop)
  {
    PendingConcat(rest, Reversed(links), drop);
    forall c | c in rest ensures c !in drop + Set(Reversed(links)) {
      ReversedMembers(links, c);
      FreshMember(links, root, seen, c);
    }
    PendingIsAll(rest, drop + Set(Reversed(links)));
  }

  ghost predicate Tracked(v: View, root: Cid, s: State, done: set<Cid>) {
    && Inv(v, root, s, done) && Accounted(v, root, s.seen, done)
    && (root in done || s.stack == [root])
  }

  /** Fresh links are claimed as the search pends them, behind what waits already. */
  lemma FreshVisit(links: seq<Cid>, root: Cid, rest: seq<Cid>, seen: set<Cid>, drop: set<Cid>)
    requires Fresh(links, root, seen) && root in drop && drop <= seen && Distinct(rest)
    requires forall c :: c in rest ==> c in seen && c !in drop
    ensures Claim(links, rest, seen).0 == Pending(rest + Reversed(links), drop)
  {
    FreshClaim(links, root, rest, seen, drop);
    WaitingStay(links, root, rest, seen, drop);
  }

  lemma RestWaits(stack: seq<Cid>, seen: set<Cid>, done: set<Cid>)
    requires StackInv(stack, seen, done) && stack != []
    ensures var c, rest := stack[|stack|-1], stack[..|stack|-1];
            && Distinct(rest) && c in seen && c !in done && done + {c} <= seen
            && forall w :: w in rest ==> w in seen && w !in done + {c}
  {
    PopIsDistinct(stack);
  }

  ghost predicate InStepAfter(v: View, s: State, done: set<Cid>) {
    var (item, next) := Advance(v, s);
    item.Some? && item.value.Visited? ==>
      next.stack == Pending(s.stack[..|s.stack|-1] + Reversed(LinksOf(v, item.value.cid)), done + {item.value.cid})
  }

  lemma TopIsFresh(v: View, root: Cid, s: State, done: set<Cid>)
    requires LinkedOnce(v, root) && Tracked(v, root, s, done) && s.stack != []
    requires Fetch(v, s.stack[|s.stack|-1]).Visited?
    ensures var c := s.stack[|s.stack|-1];
            StackInv(s.stack, s.seen, done) && root in done + {c} && Fresh(LinksOf(v, c), root, s.seen)
  {
    RestWaits(s.stack, s.seen, done);
    LinksAreFresh(v, root, s.stack[|s.stack|-1], s.seen, done);
  }

  lemma VisitIsInStep(v: View, root: Cid, s: State, done: set<Cid>)
    requires LinkedOnce(v, root) && Tracked(v, root, s, done)
    ensures InStepAfter(v, s, done)
  {
    if !s.fused && s.stack != [] && Fetch(v, s.stack[|s.stack|-1]).Visited? {
      TopIsFresh(v, root, s, done);
      FreshIsInStep(v, root, s, done);
    }
  }

  lemma FreshIsInStep(v: View, root: Cid, s: State, done: set<Cid>)
    requires StackInv(s.stack, s.seen, done) && s.stack != [] && Fetch(v, s.stack[|s.stack|-1]).Visited?
    requires root in done + {s.stack[|s.stack|-1]} && Fresh(LinksOf(v, s.stack[|s.stack|-1]), root, s.seen)
    ensures InStepAfter(v, s, done)
  {
    var c, rest := s.stack[|s.stack|-1], s.stack[..|s.stack|-1];
    RestWaits(s.stack, s.seen, done);
    FreshVisit(LinksOf(v, c), root, rest, s.seen, done + {c});
  }

  lemma VisitKeepsTracked(v: View, root: Cid, s: State, done: set<Cid>)
    requires Tracked(v, root, s, done) && Advance(v, s).0.Some? && Advance(v, s).0.value.Visited?
    ensures Tracked(v, root, Advance(v, s).1, done + {Advance(v, s).0.value.cid})
  {
    var c, rest, next := s.stack[|s.stack|-1], s.stack[..|s.stack|-1], Advance(v, s).1;
    AdvanceKeepsInv(v, root, s, done);
    VisitKeepsAccounted(v, root, c, rest, s.seen, done);
    assert Inv(v, root, next, done + {c}) && Accounted(v, root, next.seen, done + {c});
  }

  lemma {:induction false} LinkedOnceIsOrderly(v: View, root: Cid, s: State, done: set<Cid>)
    requires LinkedOnce(v, root) && Tracked(v, root, s, done)
    ensures Orderly(v, s, done)
    decreases if s.fused then 0 else 1 + Remaining(v, s)
  {
    var (item, next) := Advance(v, s);
    VisitIsInStep(v, root, s, done);
    if item.Some? && item.value.Visited? {
      VisitKeepsTracked(v, root, s, done);
      AdvanceShrinks(v, s);
      LinkedOnceIsOrderly(v, root, next, done + {item.value.cid});
    }
  }

  /** A walk is in depth-first order if no block it can reach, but for the root, is linked
      twice. */
  lemma LinkedOnceWalkIsDepthFirst(v: View, root: Cid)
    requires LinkedOnce(v, root)
    ensures Walked(v, Start(root)) == DepthFirst(v, [root], {})
  {
    StartInv(v, root);
    LinkedOnceIsOrderly(v, root, Start(root), {});
    OrderlyWalkIsDepthFirst(v, root);
  }

  // ---------- when it is not ----------

  ghost predicate IsBlock(v: View, c: Cid, links: seq<Cid>) {
    Fetch(v, c).Visited? && LinksOf(v, c) == links
  }

  lemma WalkStep(v: View, stack: seq<Cid>, c: Cid, seen: set<Cid>, links: seq<Cid>)
    requires IsBlock(v, c, links)
    ensures var (next, seen') := Claim(links, stack, seen);
            Walked(v, State(stack + [c], seen, false)) == [Fetch(v, c)] + Walked(v, State(next, seen', false))
  {
    assert (stack + [c])[..|stack|] == stack;
  }

  lemma SearchStep(v: View, stack: seq<Cid>, c: Cid, visited: set<Cid>, links: seq<Cid>)
    requires IsBlock(v, c, links)
    ensures DepthFirst(v, stack + [c], visited) == if c in visited then DepthFirst(v, stack, visited)
              else [Fetch(v, c)] + DepthFirst(v, stack + Reversed(links), visited + {c})
  {
    assert (stack + [c])[..|stack|] == stack;
  }

  lemma ThreeLinks(a: Cid, b: Cid, c: Cid, seen: set<Cid>)
    requires a != b && b != c && a != c && a !in seen && b !in seen && c !in seen
    ensures Claim([a, b, c], [], seen).0 == [c, b] + [a]
    ensures c in Claim([a, b, c], [], seen).1
    ensures Reversed([a, b, c]) == [c, b] + [a]
  {
    assert [a, b, c][..2] == [a, b] && [a, b][..1] == [a] && [a][..0] == [];
    assert Claim([a], [c, b], seen + {c} + {b}).0 == [c, b, a];
    assert Claim([a, b], [c], seen + {c}) == Claim([a], [c] + [b], seen + {c} + {b});
    assert [] + [c] == [c] && [c] + [b] == [c, b];
    assert Reversed([a]) == [a] && Reversed([a, b]) == [b, a] && Reversed([a, b, c]) == [c, b, a];
  }

  lemma WalkMeetsWaiting(v: View, root: Cid, a: Cid, b: Cid, c: Cid)
    requires a != b && b != c && a != c && root != a && root != b && root != c
    requires IsBlock(v, root, [a, b, c]) && IsBlock(v, a, [c]) && IsBlock(v, b, [])
    ensures |Walked(v, Start(root))| > 2 && Walked(v, Start(root))[2] == Fetch(v, b)
  {
    ThreeLinks(a, b, c, {root});
    var (s1, seen1) := Claim([a, b, c], [], {root});
    assert [] + [root] == [root];
    WalkStep(v, [], root, {root}, [a, b, c]);
    WalkStep(v, [c, b], a, seen1, [c]);
    assert Claim([c], [c, b], seen1) == ([c, b], seen1) by { assert [c][..0] == []; }
    assert [c, b] == [c] + [b];
    WalkStep(v, [c], b, seen1, []);
  }

  lemma SearchMeetsWaiting(v: View, root: Cid, a: Cid, b: Cid, c: Cid)
    requires a != b && b != c && a != c && root != a && root != b && root != c
    requires IsBlock(v, root, [a, b, c]) && IsBlock(v, a, [c]) && IsBlock(v, c, [])
    ensures |DepthFirst(v, [root], {})| > 2 && DepthFirst(v, [root], {})[2] == Fetch(v, c)
  {
    ThreeLinks(a, b, c, {});
    assert [] + [root] == [root];
    SearchStep(v, [], root, {}, [a, b, c]);
    assert [] + Reversed([a, b, c]) == [c, b] + [a] && {} + {root} == {root};
    SearchStep(v, [c, b], a, {root}, [c]);
    assert Reversed([c]) == [c] by { assert [c][..0] == []; }
    SearchStep(v, [c, b], c, {root} + {a}, []);
  }

  /** A link to a block that is already waiting: the search goes there next, the walk later. */
  lemma WaitingLinkComesLate(v: View, root: Cid, a: Cid, b: Cid, c: Cid)
    requires a != b && b != c && a != c && root != a && root != b && root != c
    requires IsBlock(v, root, [a, b, c]) && IsBlock(v, a, [c]) && IsBlock(v, b, []) && IsBlock(v, c, [])
    ensures |Walked(v, Start(root))| > 2 && Walked(v, Start(root))[2] == Fetch(v, b)
    ensures |DepthFirst(v, [root], {})| > 2 && DepthFirst(v, [root], {})[2] == Fetch(v, c)
  {
    WalkMeetsWaiting(v, root, a, b, c);
    SearchMeetsWaiting(v, root, a, b, c);
  }

  /** So a walk is not always in depth-first order, even when every block can be read. */
  lemma SomeWalkIsNotDepthFirst() returns (v: View, root: Cid)
    ensures Clean(Walked(v, Start(root))) && Walked(v, Start(root)) != DepthFirst(v, [root], {})
  {
    var raw := 0x55;
    var a, b, c := Cid(CODEC_DAG_CBOR, 0, [1]), Cid(raw, 0, [2]), Cid(raw, 0, [3]);
    root := Cid(CODEC_DAG_CBOR, 0, [0]);
    v := View(Hashes(d => d, d => d), map[root := [0], a := [1], b := [2], c := [3]],
              d => Some(if d == [0] then [a, b, c] else [c]));
    WaitingLinkComesLate(v, root, a, b, c);
    forall x | Reaches(v, root, x) ensures Fetch(v, x).Visited? {
      var path :| LinkPath(v, path) && path[0] == root && path[|path|-1] == x;
      Closed(v, {root, a, b, c}, path);
    }
    WalkIsReachabilityIff(v, root);
  }

  // ---------- falling out of step and back ----------

  /** A block links to c, which waits behind b, and b is named again before either is visited:
      the walk is out of step with the search after x, and visits the blocks in the same order
      all the same. */
  ghost predicate Rejoining(v: View, root: Cid, x: Cid, y: Cid, b: Cid, c: Cid) {
    && root != x && root != y && root != b && root != c && x != y && x != b && x != c && y != b && y != c && b != c
    && IsBlock(v, root, [x, b, c]) && IsBlock(v, x, [y, c]) && IsBlock(v, y, [b]) && IsBlock(v, b, []) && IsBlock(v, c, [])
  }

  function FiveItems(v: View, root: Cid, x: Cid, y: Cid, b: Cid, c: Cid): seq<Item> {
    [Fetch(v, root)] + ([Fetch(v, x)] + ([Fetch(v, y)] + ([Fetch(v, b)] + [Fetch(v, c)])))
  }

  lemma ClaimAtX(y: Cid, b: Cid, c: Cid, seen: set<Cid>)
    requires c in seen && y !in seen
    ensures Claim([y, c], [c, b], seen) == ([c, b] + [y], seen + {y})
    ensures Reversed([y, c]) == [c, y]
  {
    assert [y, c][..1] == [y] && [y][..0] == [];
    assert Claim([y], [c, b], seen) == ([c, b] + [y], seen + {y});
    assert Reversed([y]) == [y];
  }

  lemma ClaimAtY(b: Cid, c: Cid, seen: set<Cid>)
    requires b in seen
    ensures Claim([b], [c, b], seen) == ([c] + [b], seen) && Reversed([b]) == [b]
  {
    assert [b][..0] == [];
    assert [c] + [b] == [c, b];
  }

  lemma WalkLast(v: View, b: Cid, c: Cid, seen: set<Cid>)
    requires IsBlock(v, b, []) && IsBlock(v, c, [])
    ensures Walked(v, State([c] + [b], seen, false)) == [Fetch(v, b)] + [Fetch(v, c)]
  {
    WalkStep(v, [c], b, seen, []);
    assert [] + [c] == [c];
    WalkStep(v, [], c, seen, []);
    assert [Fetch(v, c)] + [] == [Fetch(v, c)];
  }

  lemma WalkFromX(v: View, x: Cid, y: Cid, b: Cid, c: Cid, seen: set<Cid>)
    requires IsBlock(v, x, [y, c]) && IsBlock(v, y, [b]) && IsBlock(v, b, []) && IsBlock(v, c, [])
    requires b in seen && c in seen && y !in seen
    ensures Walked(v, State([c, b] + [x], seen, false))
         == [Fetch(v, x)] + ([Fetch(v, y)] + ([Fetch(v, b)] + [Fetch(v, c)]))
  {
    ClaimAtX(y, b, c, seen);
    WalkStep(v, [c, b], x, seen, [y, c]);
    ClaimAtY(b, c, seen + {y});
    WalkStep(v, [c, b], y, seen + {y}, [b]);
    WalkLast(v, b, c, seen + {y});
  }

  lemma ClaimAtRoot(root: Cid, x: Cid, b: Cid, c: Cid)
    requires root != x && root != b && root != c && x != b && x != c && b != c
    ensures Claim([x, b, c], [], {root}) == ([c, b] + [x], {root, x, b, c})
  {
    ThreeLinks(x, b, c, {root});
    var seen := Claim([x, b, c], [], {root}).1;
    forall z ensures z in seen <==> z in {root, x, b, c} { ClaimMembers([x, b, c], [], {root}, z); }
    assert seen == {root, x, b, c};
  }

  lemma WalkRejoins(v: View, root: Cid, x: Cid, y: Cid, b: Cid, c: Cid)
    requires Rejoining(v, root, x, y, b, c)
    ensures Walked(v, Start(root)) == FiveItems(v, root, x, y, b, c)
  {
    ClaimAtRoot(root, x, b, c);
    assert [] + [root] == [root];
    WalkStep(v, [], root, {root}, [x, b, c]);
    WalkFromX(v, x, y, b, c, {root, x, b, c});
  }

  lemma SearchTail(v: View, b: Cid, c: Cid, visited: set<Cid>)
    requires b in visited && c in visited
    ensures DepthFirst(v, [c] + [b], visited) == []
  {
    SkipStep(v, [c], b, visited);
    assert [] + [c] == [c];
    SkipStep(v, [], c, visited);
  }

  lemma SkipStep(v: View, stack: seq<Cid>, c: Cid, visited: set<Cid>)
    requires c in visited
    ensures DepthFirst(v, stack + [c], visited) == DepthFirst(v, stack, visited)
  {
    assert (stack + [c])[..|stack|] == stack;
  }

  lemma SearchLast(v: View, b: Cid, c: Cid, visited: set<Cid>)
    requires IsBlock(v, b, []) && IsBlock(v, c, []) && b !in visited && c !in visited && b != c
    ensures DepthFirst(v, [c] + [b] + [c] + [b], visited) == [Fetch(v, b)] + [Fetch(v, c)]
  {
    SearchStep(v, [c] + [b] + [c], b, visited, []);
    assert ([c] + [b] + [c]) + Reversed([]) == ([c] + [b]) + [c];
    SearchStep(v, [c] + [b], c, visited + {b}, []);
    assert ([c] + [b]) + Reversed([]) == [c] + [b];
    SearchTail(v, b, c, visited + {b} + {c});
    assert [Fetch(v, c)] + [] == [Fetch(v, c)];
  }

  lemma SearchFromX(v: View, x: Cid, y: Cid, b: Cid, c: Cid, visited: set<Cid>)
    requires IsBlock(v, x, [y, c]) && IsBlock(v, y, [b]) && IsBlock(v, b, []) && IsBlock(v, c, [])
    requires x !in visited && y !in visited && b !in visited && c !in visited
    requires x != y && x != b && x != c && y != b && y != c && b != c
    ensures DepthFirst(v, [c, b] + [x], visited) == [Fetch(v, x)] + ([Fetch(v, y)] + ([Fetch(v, b)] + [Fetch(v, c)]))
  {
    ClaimAtX(y, b, c, {c});
    ClaimAtY(b, c, {b});
    SearchStep(v, [c, b], x, visited, [y, c]);
    assert [c, b] + Reversed([y, c]) == ([c] + [b] + [c]) + [y];
    SearchStep(v, [c] + [b] + [c], y, visited + {x}, [b]);
    SearchLast(v, b, c, visited + {x} + {y});
  }

  lemma SearchRejoins(v: View, root: Cid, x: Cid, y: Cid, b: Cid, c: Cid)
    requires Rejoining(v, root, x, y, b, c)
    ensures DepthFirst(v, [root], {}) == FiveItems(v, root, x, y, b, c)
  {
    ThreeLinks(x, b, c, {root});
    assert [] + [root] == [root] && [] + Reversed([x, b, c]) == [c, b] + [x];
    SearchStep(v, [], root, {}, [x, b, c]);
    SearchFromX(v, x, y, b, c, {} + {root});
  }

  lemma PendingAtX(root: Cid, x: Cid, y: Cid, b: Cid, c: Cid)
    requires root != y && root != b && root != c && x != y && x != b && x != c && y != b && y != c && b != c
    ensures Pending([c, b] + [c, y], {} + {root} + {x}) == [b, c, y]
  {
    var d := {} + {root} + {x};
    assert [c, b] + [c, y] == [c, b, c, y] && [c, b, c, y][..3] == [c, b, c];
    assert [c, b, c][..2] == [c, b] && [c, b][..1] == [c] && [c][..0] == [];
    assert Pending([c], d + {y} + {c} + {b}) == [];
    assert Pending([c, b], d + {y} + {c}) == [b];
    assert Pending([c, b, c], d + {y}) == [b, c];
  }

  lemma OutOfStepAtX(v: View, x: Cid, y: Cid, b: Cid, c: Cid, root: Cid, seen: set<Cid>)
    requires Rejoining(v, root, x, y, b, c) && c in seen && y !in seen
    ensures !Orderly(v, State([c, b] + [x], seen, false), {} + {root})
  {
    assert ([c, b] + [x])[..2] == [c, b];
    ClaimAtX(y, b, c, seen);
    PendingAtX(root, x, y, b, c);
    assert ([c, b] + [y])[0] == c && [b, c, y][0] == b;
  }

  lemma OutOfStep(v: View, root: Cid, x: Cid, y: Cid, b: Cid, c: Cid)
    requires Rejoining(v, root, x, y, b, c)
    ensures !Orderly(v, Start(root), {})
  {
    ClaimAtRoot(root, x, b, c);
    assert [root][..0] == [];
    assert Advance(v, Start(root)).1 == State([c, b] + [x], {root, x, b, c}, false);
    OutOfStepAtX(v, x, y, b, c, root, {root, x, b, c});
  }

  /** So staying in step is not necessary: a concrete walk that leaves the search's order of
      waiting blocks and is in depth-first order nevertheless. */
  lemma SomeWalkRejoins() returns (v: View, root: Cid)
    ensures !Orderly(v, Start(root), {}) && Walked(v, Start(root)) == DepthFirst(v, [root], {})
  {
    var raw := 0x55;
    var x, y := Cid(CODEC_DAG_CBOR, 0, [1]), Cid(CODEC_DAG_CBOR, 0, [2]);
    var b, c := Cid(raw, 0, [3]), Cid(raw, 0, [4]);
    root := Cid(CODEC_DAG_CBOR, 0, [0]);
    v := View(Hashes(d => d, d => d), map[root := [0], x := [1], y := [2], b := [3], c := [4]],
              d => Some(if d == [0] then [x, b, c] else if d == [1] then [y, c] else [b]));
    assert Rejoining(v, root, x, y, b, c);
    WalkRejoins(v, root, x, y, b, c);
    SearchRejoins(v, root, x, y, b, c);
    OutOfStep(v, root, x, y, b, c);
  }
}
