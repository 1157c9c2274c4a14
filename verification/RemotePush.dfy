/** The push endpoint of the server (crates/mnem-http/src/routes/remote.rs:351-553): it
    compares the head a client claims to replace, checks ancestry when it can, and replaces
    that head by an entry of the client's choice. */
module RemotePush {
  import opened OpHeads
  import opened HeadUpdates
  import opened Options
  import Lca

  /** A stored block: not readable, an operation, or a commit. */
  datatype Object = Broken | Operation(parents: seq<Cid>) | Commit(parents: seq<Cid>)

  type Store = map<Cid, Object>

  /** What every reader of the history follows. */
  ghost function AllLinks(objects: Store): Links {
    map c | c in objects && !objects[c].Broken? :: objects[c].parents
  }

  /** What the ancestry check follows. */
  ghost function CommitLinks(objects: Store): Links {
    map c | c in objects && objects[c].Commit? :: objects[c].parents
  }

  datatype Ancestry = Found | NotFound | Unreadable

  datatype Answer = Advanced | CasMismatch(current: Cid)

  /** Breadth-first over commit parents; blocks that are missing or no commits end a branch. */
  method IsAncestorOf(objects: Store, needle: Cid, tip: Cid) returns (r: Ancestry)
    ensures r.Found? ==> Reaches(CommitLinks(objects), tip, needle)
    ensures r.NotFound? <==> !Reaches(CommitLinks(objects), tip, needle) && !MeetsBroken(objects, tip)
    ensures r.Unreadable? ==> MeetsBroken(objects, tip)
  {
    ghost var links := CommitLinks(objects);
    Lca.ReachesItself(links, tip);
    if needle == tip {
      return Found;
    }
    var seen: set<Cid> := {};
    var queue := [tip];
    while queue != []
      invariant tip in seen || tip in queue
      invariant needle !in seen
      invariant forall c :: c in seen && c in objects ==> !objects[c].Broken?
      invariant forall c :: c in seen || c in queue ==> Reaches(links, tip, c)
      invariant forall c, p :: c in seen && c in links && p in links[c] ==> p in seen || p in queue
      decreases objects.Keys - seen, |queue|
    {
      var cur := queue[0];
      ghost var was := queue;
      queue := queue[1..];
      assert was == [cur] + queue;
      if cur in seen {
        continue;
      }
      if cur == needle {
        return Found;
      }
      if cur in objects && objects[cur].Broken? {
        return Unreadable;
      }
      seen := seen + {cur};
      if cur in objects && objects[cur].Commit? {
        forall p | p in objects[cur].parents ensures Reaches(links, tip, p) { StepDown(links, tip, cur, p); }
        queue := queue + objects[cur].parents;
      }
    }
    forall c | Reaches(links, tip, c) ensures c in seen {
      var path :| IsPath(links, path) && path[0] == tip && path[|path|-1] == c;
      Lca.ClosedUnderParents(links, seen, path);
    }
    return NotFound;
  }

  /** The head to replace, if it can be. */
  ghost predicate Admissible(objects: Store, heads: set<Cid>, old_: Option<Cid>) {
    match old_ case None => heads == {} case Some(o) => o in heads
  }

  ghost predicate Checked(objects: Store, o: Cid) {
    o in objects && objects[o].Commit?
  }

  /** The check gives up at a block that cannot be read, and lets the push pass. */
  ghost predicate MeetsBroken(objects: Store, entry: Cid) {
    exists c :: c in objects && objects[c].Broken? && Reaches(CommitLinks(objects), entry, c)
  }

  /** Whether a push may replace head o: when o is no commit the check is skipped. */
  ghost predicate LetThrough(objects: Store, entry: Cid, o: Cid) {
    !Checked(objects, o) || Reaches(CommitLinks(objects), entry, o) || MeetsBroken(objects, entry)
  }

  function Superseded(old_: Option<Cid>): seq<Cid> {
    match old_ case None => [] case Some(o) => [o]
  }

  method PostAdvanceHead(store: RedbOpHeadsStore, objects: Store, old_: Option<Cid>, entry: Cid) returns (a: Answer)
    modifies store
    ensures a.Advanced? ==> store.table == Updated(old(store.table), entry, Superseded(old_))
    ensures a.CasMismatch? ==> store.table == old(store.table)
    ensures a.CasMismatch? ==>
              if old(store.table) == {} then old_ == Some(a.current) else a.current in old(store.table)
    ensures a.Advanced? <==> Admissible(objects, old(store.table), old_)
                             && (old_.Some? ==> LetThrough(objects, entry, old_.value))
  {
    var current := store.Current();
    assert current != [] ==> current[0] in current;
    assert current == [] ==> store.table == {};
    if old_ == None {
      if current != [] {
        return CasMismatch(current[0]);
      }
    } else {
      if old_.value !in current {
        return CasMismatch(if current == [] then old_.value else current[0]);
      }
      if old_.value in objects && objects[old_.value].Commit? {
        var ancestry := IsAncestorOf(objects, old_.value, entry);
        if ancestry.NotFound? {
          return CasMismatch(old_.value);
        }
      }
    }
    store.Update(entry, Superseded(old_));
    return Advanced;
  }

  // ---------- what a push keeps ----------

  /** The first push to an empty table loses nothing. */
  lemma PushWithoutOldCovers(links: Links, entry: Cid)
    ensures Covers(links, {}, Write(entry, []))
  {
  }

  /** A push loses nothing exactly when the replaced head is an ancestor of the new entry,
      which is another entry, or of another head. */
  lemma PushKeepsHistoryIff(links: Links, heads: set<Cid>, o: Cid, entry: Cid)
    requires o in heads
    ensures Covers(links, heads, Write(entry, [o]))
       <==> (entry != o && Reaches(links, entry, o)) || exists h :: h in heads && h != o && Reaches(links, h, o)
  {
    var after := Updated(heads, entry, [o]);
    assert forall h :: h in after <==> (h in heads || h == entry) && h != o;
    if Covers(links, heads, Write(entry, [o])) {
      assert o in [o] && Held(links, after, o);
      var h :| h in after && Reaches(links, h, o);
    }
    if (entry != o && Reaches(links, entry, o)) || exists h :: h in heads && h != o && Reaches(links, h, o) {
      assert Held(links, after, o);
    }
  }

  lemma CommitPathIsPath(objects: Store, a: Cid, b: Cid)
    requires Reaches(CommitLinks(objects), a, b)
    ensures Reaches(AllLinks(objects), a, b)
  {
    var path :| IsPath(CommitLinks(objects), path) && path[0] == a && path[|path|-1] == b;
    assert IsPath(AllLinks(objects), path);
  }

  /** A push for which the search finds the head loses nothing, exactly unless it replaces by
      itself a head that no other one descends from. */
  lemma CheckedPushIff(objects: Store, heads: set<Cid>, o: Cid, entry: Cid)
    requires o in heads && Reaches(CommitLinks(objects), entry, o)
    ensures Covers(AllLinks(objects), heads, Write(entry, [o]))
       <==> entry != o || exists h :: h in heads && h != o && Reaches(AllLinks(objects), h, o)
  {
    CommitPathIsPath(objects, entry, o);
    PushKeepsHistoryIff(AllLinks(objects), heads, o, entry);
  }

  /** Of the pushes that are let through, those that lose something fall in three classes: the
      head is replaced by itself, is no commit, or is a commit that the new entry does not
      descend from, while the search met a block it could not read. */
  lemma AcceptedPushIff(objects: Store, heads: set<Cid>, o: Cid, entry: Cid)
    requires o in heads && LetThrough(objects, entry, o)
    ensures !Covers(AllLinks(objects), heads, Write(entry, [o]))
       <==> && (forall h :: h in heads && h != o ==> !Reaches(AllLinks(objects), h, o))
            && (|| entry == o
                || (!Checked(objects, o) && !Reaches(AllLinks(objects), entry, o))
                || (Checked(objects, o) && MeetsBroken(objects, entry) && !Reaches(AllLinks(objects), entry, o)))
  {
    if Reaches(CommitLinks(objects), entry, o) { CommitPathIsPath(objects, entry, o); }
    PushKeepsHistoryIff(AllLinks(objects), heads, o, entry);
  }

  /** The third class: the new entry's parent cannot be read, so the check gives up, and the
      head, a commit the entry does not descend from, is lost. */
  lemma UnreadableParentLosesHead(o: Cid, entry: Cid, b: Cid)
    requires o != entry && o != b && entry != b
    ensures var objects := map[o := Commit([]), entry := Commit([b]), b := Broken];
            && Checked(objects, o) && LetThrough(objects, entry, o)
            && !Reaches(CommitLinks(objects), entry, o)
            && !Covers(AllLinks(objects), {o}, Write(entry, [o]))
  {
    var objects := map[o := Commit([]), entry := Commit([b]), b := Broken];
    var commits, all := CommitLinks(objects), AllLinks(objects);
    assert b in commits[entry];
    Lca.ReachesItself(commits, entry);
    StepDown(commits, entry, entry, b);
    assert MeetsBroken(objects, entry);
    if Reaches(all, entry, o) {
      var path :| IsPath(all, path) && path[0] == entry && path[|path|-1] == o;
      Lca.ClosedUnderParents(all, {entry, b}, path);
    }
    if Reaches(commits, entry, o) { CommitPathIsPath(objects, entry, o); }
    PushKeepsHistoryIff(all, {o}, o, entry);
  }

  /** Pushing the head itself passes every check and removes it. */
  lemma PushingTheHeadRemovesIt(objects: Store, heads: set<Cid>, o: Cid)
    requires o in heads
    ensures Reaches(CommitLinks(objects), o, o) && Updated(heads, o, [o]) == heads - {o}
  {
    Lca.ReachesItself(CommitLinks(objects), o);
  }

  ghost predicate CommitsNameCommits(objects: Store) {
    forall c, p ::
      c in objects && objects[c].Commit? && p in objects[c].parents && p in objects ==> !objects[p].Operation?
  }

  lemma {:induction false} CommitsReachNoOperation(objects: Store, path: seq<Cid>)
    requires CommitsNameCommits(objects) && IsPath(AllLinks(objects), path)
    requires path[0] in objects ==> !objects[path[0]].Operation?
    ensures path[|path|-1] in objects ==> !objects[path[|path|-1]].Operation?
  {
    if |path| > 1 {
      assert path[1] in AllLinks(objects)[path[0]];
      CommitsReachNoOperation(objects, path[1..]);
    }
  }

  /** The first push after initialisation: the only head is the root operation, the ancestry
      check is skipped because it is no commit, and no commit descends from it. The push is
      accepted and the root is lost. */
  lemma FirstPushLosesRoot(objects: Store, root: Cid, entry: Cid)
    requires CommitsNameCommits(objects) && root in objects && objects[root].Operation?
    requires entry in objects && objects[entry].Commit?
    ensures !Checked(objects, root)
    ensures !Covers(AllLinks(objects), {root}, Write(entry, [root]))
    ensures !Held(AllLinks(objects), Updated({root}, entry, [root]), root)
  {
    var links, after := AllLinks(objects), Updated({root}, entry, [root]);
    if Reaches(links, entry, root) {
      var path :| IsPath(links, path) && path[0] == entry && path[|path|-1] == root;
      CommitsReachNoOperation(objects, path);
    }
    PushKeepsHistoryIff(links, {root}, root, entry);
    assert after == {entry};
  }

  /** Such an input. */
  lemma SomeFirstPush(root: Cid, entry: Cid)
    requires root != entry
    ensures var objects := map[root := Operation([]), entry := Commit([])];
            var before, push := [Write(root, [])], Write(entry, [root]);
            NothingLost(AllLinks(objects), before) && !NothingLost(AllLinks(objects), before + [push])
  {
    var objects := map[root := Operation([]), entry := Commit([])];
    var links := AllLinks(objects);
    FirstPushLosesRoot(objects, root, entry);
    WriteSnoc([], Write(root, []));
    assert [] + [Write(root, [])] == [Write(root, [])];
    assert Heads([Write(root, [])]) == {root};
    Lca.ReachesItself(links, root);
    WriteLosesNothingIff(links, [Write(root, [])], Write(entry, [root]));
  }
}
