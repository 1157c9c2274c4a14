/** Walking the blocks reachable from a root
    (ReachableIter in crates/mnem-core/src/store/blockstore.rs), and garbage collection
    (crates/mnem-cli/src/commands/gc.rs). */
module BlockWalk {
  import opened Blockstore
  import opened Options

  const CODEC_DAG_CBOR := 0x71

  /** What a walk sees: the blocks, and how the links of a DAG-CBOR block are read. */
  datatype View = View(h: Hashes, table: Table, links: Content -> Option<seq<Cid>>)

  datatype Item =
    | Visited(cid: Cid, data: Content)
    | NotFound(cid: Cid)
    | Corrupt(cid: Cid)
    | Undecodable(cid: Cid)

  datatype State = State(stack: seq<Cid>, seen: set<Cid>, fused: bool)

  function Fetch(v: View, c: Cid): Item {
    match Read(v.h, v.table, c)
    case Absent => NotFound(c)
    case Corruption(_) => Corrupt(c)
    case Found(data) =>
      if c.codec == CODEC_DAG_CBOR && v.links(data) == None then Undecodable(c) else Visited(c, data)
  }

  /** Links out of a block; raw blocks are leaves. */
  function LinksOf(v: View, c: Cid): seq<Cid>
    requires Fetch(v, c).Visited?
  {
    if c.codec == CODEC_DAG_CBOR then v.links(v.table[c]).value else []
  }

  /** Pushes the unseen links, the last link first. */
  function Claim(links: seq<Cid>, stack: seq<Cid>, seen: set<Cid>): (seq<Cid>, set<Cid>) {
    if links == [] then (stack, seen)
    else
      var front, l := links[..|links|-1], links[|links|-1];
      if l in seen then Claim(front, stack, seen) else Claim(front, stack + [l], seen + {l})
  }

  function Advance(v: View, s: State): (Option<Item>, State) {
    if s.fused || s.stack == [] then (None, s)
    else
      var c, rest := s.stack[|s.stack|-1], s.stack[..|s.stack|-1];
      var item := Fetch(v, c);
      if item.Visited? then
        var (stack, seen) := Claim(LinksOf(v, c), rest, s.seen);
        (Some(item), State(stack, seen, false))
      else (Some(item), State(rest, s.seen, true))
  }

  function Start(root: Cid): State {
    State([root], {root}, false)
  }

  class ReachableIter {
    const v: View
    var stack: seq<Cid>
    var seen: set<Cid>
    var fused: bool

    ghost function Now(): State
      reads this
    {
      State(stack, seen, fused)
    }

    constructor (v: View, root: Cid)
      ensures this.v == v && Now() == Start(root)
    {
      this.v, stack, seen, fused := v, [root], {root}, false;
    }

    method Next() returns (item: Option<Item>)
      modifies this
      ensures (item, Now()) == Advance(v, old(Now()))
    {
      if fused || stack == [] {
        return None;
      }
      var cid := stack[|stack|-1];
      stack := stack[..|stack|-1];
      var got := Read(v.h, v.table, cid);
      if got.Absent? {
        fused := true;
        return Some(NotFound(cid));
      }
      if got.Corruption? {
        fused := true;
        return Some(Corrupt(cid));
      }
      if cid.codec == CODEC_DAG_CBOR {
        var links := v.links(got.data);
        if links == None {
          fused := true;
          return Some(Undecodable(cid));
        }
        PushUnseen(links.value);
      }
      return Some(Visited(cid, got.data));
    }

    method PushUnseen(links: seq<Cid>)
      modifies this
      ensures (stack, seen) == Claim(links, old(stack), old(seen)) && fused == old(fused)
    {
      var i := |links|;
      assert links[..i] == links;
      while i > 0
        invariant 0 <= i <= |links| && fused == old(fused)
        invariant Claim(links, old(stack), old(seen)) == Claim(links[..i], stack, seen)
      {
        i := i - 1;
        assert links[..i+1][..i] == links[..i];
        if links[i] !in seen {
          seen := seen + {links[i]};
          stack := stack + [links[i]];
        }
      }
    }
  }

  // ---------- the whole walk ----------

  function PresentOnStack(t: Table, stack: seq<Cid>): nat {
    if stack == [] then 0
    else PresentOnStack(t, stack[..|stack|-1]) + if stack[|stack|-1] in t then 1 else 0
  }

  /** Blocks a walk may still visit. */
  function Left(t: Table, stack: seq<Cid>, seen: set<Cid>): nat {
    |t.Keys - seen| + PresentOnStack(t, stack)
  }

  lemma PushMovesBlock(t: Table, l: Cid, stack: seq<Cid>, seen: set<Cid>)
    requires l !in seen
    ensures Left(t, stack + [l], seen + {l}) == Left(t, stack, seen)
  {
    assert (stack + [l])[..|stack|] == stack;
    assert t.Keys - (seen + {l}) == (t.Keys - seen) - {l};
  }

  lemma {:induction false} ClaimMovesBlocks(t: Table, links: seq<Cid>, stack: seq<Cid>, seen: set<Cid>)
    ensures Left(t, Claim(links, stack, seen).0, Claim(links, stack, seen).1) == Left(t, stack, seen)
  {
    if links != [] {
      var front, l := links[..|links|-1], links[|links|-1];
      if l in seen {
        ClaimMovesBlocks(t, front, stack, seen);
      } else {
        ClaimMovesBlocks(t, front, stack + [l], seen + {l});
        PushMovesBlock(t, l, stack, seen);
      }
    }
  }

  function Remaining(v: View, s: State): nat {
    Left(v.table, s.stack, s.seen)
  }

  lemma AdvanceShrinks(v: View, s: State)
    requires Advance(v, s).0.Some? && Advance(v, s).0.value.Visited?
    ensures Remaining(v, Advance(v, s).1) < Remaining(v, s)
  {
    var c, rest := s.stack[|s.stack|-1], s.stack[..|s.stack|-1];
    ClaimMovesBlocks(v.table, LinksOf(v, c), rest, s.seen);
  }

  /** Everything the iterator yields from a state on. */
  function Walked(v: View, s: State): seq<Item>
    decreases if s.fused then 0 else 1 + Remaining(v, s)
  {
    var (item, next) := Advance(v, s);
    if item == None then []
    else
      assert item.value.Visited? ==> Remaining(v, next) < Remaining(v, s) by {
        if item.value.Visited? { AdvanceShrinks(v, s); }
      }
      [item.value] + Walked(v, next)
  }
}
