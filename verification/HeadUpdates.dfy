/** Any sequence of updates of the op-heads table, whoever makes them: an update names the
    entries it supersedes on its own, whatever the new entry links to
    (the contract in crates/mnem-core/src/store/op_heads.rs:24-46). */
module HeadUpdates {
  import opened OpHeads
  import Lca

  /** An entry is the hash of its content, which fixes the entries it names as parents. */
  type Links = map<Cid, seq<Cid>>

  datatype Write = Write(entry: Cid, supersedes: seq<Cid>)

  function Heads(ws: seq<Write>): set<Cid> {
    if ws == [] then {}
    else Updated(Heads(ws[..|ws|-1]), ws[|ws|-1].entry, ws[|ws|-1].supersedes)
  }

  /** Every entry that was ever written. */
  function Ever(ws: seq<Write>): set<Cid> {
    if ws == [] then {} else Ever(ws[..|ws|-1]) + {ws[|ws|-1].entry}
  }

  /** A head is, or descends from, the entry. */
  ghost predicate Held(links: Links, heads: set<Cid>, o: Cid) {
    exists h :: h in heads && Reaches(links, h, o)
  }

  ghost predicate NothingLost(links: Links, ws: seq<Write>) {
    AllHeld(links, Heads(ws), Ever(ws))
  }

  /** Every head that is superseded is reachable from a head that remains: from the new entry,
      unless it supersedes itself, or from an old one. */
  ghost predicate Covers(links: Links, heads: set<Cid>, w: Write) {
    forall o ::
      o in w.supersedes && (o in heads || o == w.entry) ==> Held(links, Updated(heads, w.entry, w.supersedes), o)
  }

  lemma {:induction false} HeadsWereWritten(ws: seq<Write>)
    ensures Heads(ws) <= Ever(ws)
  {
    if ws != [] { HeadsWereWritten(ws[..|ws|-1]); }
  }

  lemma RemainingHolds(links: Links, heads: set<Cid>, w: Write, h: Cid, o: Cid)
    requires h in heads + {w.entry} && Reaches(links, h, o) && Covers(links, heads, w)
    ensures Held(links, Updated(heads, w.entry, w.supersedes), o)
  {
    var after := Updated(heads, w.entry, w.supersedes);
    if h in w.supersedes {
      assert Held(links, after, h);
      var g :| g in after && Reaches(links, g, h);
      Lca.ReachesTransitive(links, g, h, o);
    } else {
      assert h in after;
    }
  }

  ghost predicate AllHeld(links: Links, heads: set<Cid>, entries: set<Cid>) {
    forall o :: o in entries ==> Held(links, heads, o)
  }

  lemma AllHeldAfter(links: Links, heads: set<Cid>, entries: set<Cid>, w: Write)
    requires AllHeld(links, heads, entries) && Covers(links, heads, w)
    ensures AllHeld(links, Updated(heads, w.entry, w.supersedes), entries + {w.entry})
  {
    forall o | o in entries + {w.entry} ensures Held(links, Updated(heads, w.entry, w.supersedes), o) {
      if o in entries {
        assert Held(links, heads, o);
        var h :| h in heads && Reaches(links, h, o);
        RemainingHolds(links, heads, w, h, o);
      } else {
        Lca.ReachesItself(links, o);
        RemainingHolds(links, heads, w, o, o);
      }
    }
  }

  lemma CoversIfAllHeld(links: Links, heads: set<Cid>, entries: set<Cid>, w: Write)
    requires heads <= entries && AllHeld(links, Updated(heads, w.entry, w.supersedes), entries + {w.entry})
    ensures Covers(links, heads, w)
  {
  }

  lemma WriteSnoc(ws: seq<Write>, w: Write)
    ensures Heads(ws + [w]) == Updated(Heads(ws), w.entry, w.supersedes) && Ever(ws + [w]) == Ever(ws) + {w.entry}
  {
    assert (ws + [w])[..|ws|] == ws;
  }

  /** A step loses nothing exactly when it covers what it supersedes. */
  lemma WriteLosesNothingIff(links: Links, ws: seq<Write>, w: Write)
    requires NothingLost(links, ws)
    ensures NothingLost(links, ws + [w]) <==> Covers(links, Heads(ws), w)
  {
    WriteSnoc(ws, w);
    HeadsWereWritten(ws);
    if Covers(links, Heads(ws), w) {
      AllHeldAfter(links, Heads(ws), Ever(ws), w);
    }
    if NothingLost(links, ws + [w]) {
      CoversIfAllHeld(links, Heads(ws), Ever(ws), w);
    }
  }

  ghost predicate NeverLoses(links: Links, ws: seq<Write>) {
    forall n :: 0 <= n <= |ws| ==> NothingLost(links, ws[..n])
  }

  ghost predicate AllCover(links: Links, ws: seq<Write>) {
    forall n :: 0 <= n < |ws| ==> Covers(links, Heads(ws[..n]), ws[n])
  }

  lemma NeverLosesSnoc(links: Links, ws: seq<Write>, w: Write)
    ensures NeverLoses(links, ws + [w]) <==> NeverLoses(links, ws) && NothingLost(links, ws + [w])
  {
    var more := ws + [w];
    assert more[..|more|] == more;
    forall n | 0 <= n <= |ws| ensures more[..n] == ws[..n] {}
    if NeverLoses(links, more) {
      forall n | 0 <= n <= |ws| ensures NothingLost(links, ws[..n]) { assert NothingLost(links, more[..n]); }
    }
  }

  lemma AllCoverSnoc(links: Links, ws: seq<Write>, w: Write)
    ensures AllCover(links, ws + [w]) <==> AllCover(links, ws) && Covers(links, Heads(ws), w)
  {
    var more := ws + [w];
    assert more[..|ws|] == ws && more[|ws|] == w;
    forall n | 0 <= n < |ws| ensures more[..n] == ws[..n] && more[n] == ws[n] {}
    if AllCover(links, more) {
      forall n | 0 <= n < |ws| ensures Covers(links, Heads(ws[..n]), ws[n]) {
        assert Covers(links, Heads(more[..n]), more[n]);
      }
    }
  }

  /** In every interleaving of all writers of the table: nothing is lost at any time exactly
      when every update covers what it supersedes. */
  lemma {:induction false} RunLosesNothingIff(links: Links, ws: seq<Write>)
    ensures NeverLoses(links, ws) <==> AllCover(links, ws)
  {
    if ws != [] {
      var front, last := ws[..|ws|-1], ws[|ws|-1];
      assert ws == front + [last];
      RunLosesNothingIff(links, front);
      NeverLosesSnoc(links, front, last);
      AllCoverSnoc(links, front, last);
      if NeverLoses(links, front) {
        assert front[..|front|] == front;
        WriteLosesNothingIff(links, front, last);
      }
    }
  }

  // ---------- the writers of the repository layer ----------

  /** They supersede parents of the new entry, and not the entry itself. */
  predicate FromRepository(links: Links, w: Write) {
    w.entry !in w.supersedes && w.entry in links && Members(w.supersedes) <= Members(links[w.entry])
  }

  lemma RepositoryWriteCovers(links: Links, heads: set<Cid>, w: Write)
    requires FromRepository(links, w)
    ensures Covers(links, heads, w)
  {
    var after := Updated(heads, w.entry, w.supersedes);
    assert w.entry in after;
    forall o | o in w.supersedes ensures Held(links, after, o) {
      assert o in Members(w.supersedes) && o in links[w.entry];
      Lca.ReachesItself(links, w.entry);
      StepDown(links, w.entry, w.entry, o);
    }
  }

  /** So in an interleaving of repository writers with any others, only the others matter. */
  lemma OnlyOthersLose(links: Links, ws: seq<Write>)
    ensures NeverLoses(links, ws)
       <==> forall n :: 0 <= n < |ws| && !FromRepository(links, ws[n]) ==> Covers(links, Heads(ws[..n]), ws[n])
  {
    RunLosesNothingIff(links, ws);
    forall n | 0 <= n < |ws| && FromRepository(links, ws[n]) ensures Covers(links, Heads(ws[..n]), ws[n]) {
      RepositoryWriteCovers(links, Heads(ws[..n]), ws[n]);
    }
  }

  /** The updates that the steps of the repository layer make. */
  function WritesOf(steps: seq<Step>): seq<Write> {
    if steps == [] then []
    else
      var front, last := WritesOf(steps[..|steps|-1]), steps[|steps|-1];
      if last.Publish? then front + [Write(last.op, last.ps)] else front
  }

  ghost predicate Agrees(links: Links, parents: map<Cid, seq<Cid>>) {
    forall o :: o in parents ==> o in links && links[o] == parents[o]
  }

  lemma AgreesEarlier(steps: seq<Step>, links: Links)
    requires steps != [] && Valid(steps) && Agrees(links, Run(steps).parents)
    ensures Agrees(links, Run(steps[..|steps|-1]).parents)
  {
    var r := Run(steps[..|steps|-1]);
    forall o | o in r.parents ensures o in links && links[o] == r.parents[o] {
      assert o in Run(steps).parents && Run(steps).parents[o] == r.parents[o];
    }
  }

  lemma PublishIsFromRepository(steps: seq<Step>, links: Links)
    requires steps != [] && Valid(steps) && Agrees(links, Run(steps).parents) && steps[|steps|-1].Publish?
    ensures FromRepository(links, Write(steps[|steps|-1].op, steps[|steps|-1].ps))
  {
    var front, last := steps[..|steps|-1], steps[|steps|-1];
    RunKeepsInv(front);
    NewOpIsNotItsParent(Run(front), last.writer, last.op, last.ps);
    assert last.op in Run(steps).parents && Run(steps).parents[last.op] == last.ps;
  }

  lemma {:induction false} RepositoryRun(steps: seq<Step>, links: Links)
    requires Valid(steps) && Agrees(links, Run(steps).parents)
    ensures Heads(WritesOf(steps)) == Run(steps).heads && Ever(WritesOf(steps)) == Run(steps).parents.Keys
    ensures forall i :: 0 <= i < |WritesOf(steps)| ==> FromRepository(links, WritesOf(steps)[i])
  {
    if steps != [] {
      var front, last := steps[..|steps|-1], steps[|steps|-1];
      AgreesEarlier(steps, links);
      RepositoryRun(front, links);
      if last.Publish? {
        PublishIsFromRepository(steps, links);
        WriteSnoc(WritesOf(front), Write(last.op, last.ps));
        assert WritesOf(steps) == WritesOf(front) + [Write(last.op, last.ps)];
      }
    }
  }

  /** The histories of the repository layer are among these, and lose nothing. */
  lemma RepositoryRunLosesNothing(steps: seq<Step>)
    requires Valid(steps)
    ensures NeverLoses(Run(steps).parents, WritesOf(steps))
  {
    var links, ws := Run(steps).parents, WritesOf(steps);
    RepositoryRun(steps, links);
    OnlyOthersLose(links, ws);
  }
}
