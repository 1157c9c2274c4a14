/** What the block store guarantees over whole runs of writes. */
module BlockstoreLaws {
  import opened Blockstore
  import opened Options

  // ---------- reading ----------

  /** Corruption is never reported exactly when every stored block checks. */
  lemma NeverCorruptIff(h: Hashes, t: Table)
    ensures (forall c :: !Read(h, t, c).Corruption?) <==> Verified(h, t)
  {
    if forall c :: !Read(h, t, c).Corruption? {
      forall c | c in t ensures Checks(h, c, t[c]) { assert !Read(h, t, c).Corruption?; }
    }
  }

  /** Two contents with one known identifier. */
  predicate Collision(h: Hashes, c: Cid, d: Content, e: Content) {
    KnownHash(c) && d != e && Checks(h, c, d) && Checks(h, c, e)
  }

  /** From any two tables, whatever their history, the bytes read under an identifier with a
      known hash are the same bytes, or a collision of the hash. */
  lemma ReadsAgree(h: Hashes, t: Table, u: Table, c: Cid)
    requires KnownHash(c) && Read(h, t, c).Found? && Read(h, u, c).Found?
    ensures Read(h, t, c) == Read(h, u, c) || Collision(h, c, Read(h, t, c).data, Read(h, u, c).data)
    ensures Recompute(h, c, Read(h, t, c).data) == Some(c)
  {
  }

  // ---------- runs ----------

  datatype Write = PutBlock(b: Block) | Trust(b: Block) | Batch(blocks: seq<Block>) | Remove(c: Cid)

  function Apply(h: Hashes, t: Table, w: Write): Table {
    match w
    case PutBlock(b) => Written(h, t, b).0
    case Trust(b) => t[b.cid := b.data]
    case Batch(blocks) => BatchWritten(h, t, blocks).0
    case Remove(c) => t - {c}
  }

  function Run(h: Hashes, t: Table, ws: seq<Write>): Table {
    if ws == [] then t else Apply(h, Run(h, t, ws[..|ws|-1]), ws[|ws|-1])
  }

  /** The promise callers make when they skip the check. */
  predicate Honest(h: Hashes, w: Write) {
    w.Trust? ==> Checks(h, w.b.cid, w.b.data)
  }

  lemma {:induction false} InsertAllOrigin(t: Table, blocks: seq<Block>, c: Cid)
    ensures c in InsertAll(t, blocks) <==> c in t || exists b :: b in blocks && b.cid == c
    ensures c in InsertAll(t, blocks) ==>
              Block(c, InsertAll(t, blocks)[c]) in blocks || (c in t && InsertAll(t, blocks)[c] == t[c])
  {
    if blocks != [] {
      var front, last := blocks[..|blocks|-1], blocks[|blocks|-1];
      InsertAllOrigin(t, front, c);
      assert blocks == front + [last];
      if last.cid == c { assert last in blocks; }
    }
  }

  lemma BatchOrigin(h: Hashes, t: Table, blocks: seq<Block>, c: Cid)
    requires c in BatchWritten(h, t, blocks).0
    ensures var d := BatchWritten(h, t, blocks).0[c]; Checks(h, c, d) || (c in t && t[c] == d)
  {
    if FirstBad(h, blocks, 0) == |blocks| {
      InsertAllOrigin(t, blocks, c);
      var d := InsertAll(t, blocks)[c];
      if Block(c, d) in blocks {
        var i :| 0 <= i < |blocks| && blocks[i] == Block(c, d);
        assert Checks(h, blocks[i].cid, blocks[i].data);
      }
    }
  }

  lemma CorruptionStep(h: Hashes, t: Table, w: Write, c: Cid)
    requires Read(h, Apply(h, t, w), c).Corruption?
    ensures w == Trust(Block(c, Apply(h, t, w)[c])) || (c in t && t[c] == Apply(h, t, w)[c])
  {
    if w.Batch? { BatchOrigin(h, t, w.blocks, c); }
  }

  /** A block that fails its check was there before, or some trusted write put in exactly
      these bytes. */
  lemma {:induction false} CorruptionHasACulprit(h: Hashes, t: Table, ws: seq<Write>, c: Cid)
    requires Read(h, Run(h, t, ws), c).Corruption?
    ensures var d := Run(h, t, ws)[c]; (c in t && t[c] == d) || Trust(Block(c, d)) in ws
  {
    if ws != [] {
      var front, last := ws[..|ws|-1], ws[|ws|-1];
      var before, d := Run(h, t, front), Run(h, t, ws)[c];
      assert ws == front + [last];
      CorruptionStep(h, before, last, c);
      if last != Trust(Block(c, d)) {
        CorruptionHasACulprit(h, t, front, c);
      }
    }
  }

  lemma HonestRunsVerify(h: Hashes, t: Table, ws: seq<Write>, c: Cid)
    requires Verified(h, t) && forall w :: w in ws ==> Honest(h, w)
    ensures !Read(h, Run(h, t, ws), c).Corruption?
  {
    if Read(h, Run(h, t, ws), c).Corruption? {
      CorruptionHasACulprit(h, t, ws, c);
    }
  }

  /** Every table along a run verifies exactly when every trusted write keeps its promise. */
  lemma StaysVerifiedIff(h: Hashes, t: Table, ws: seq<Write>)
    requires Verified(h, t)
    ensures (forall n :: 0 <= n <= |ws| ==> Verified(h, Run(h, t, ws[..n]))) <==> forall w :: w in ws ==> Honest(h, w)
  {
    if forall w :: w in ws ==> Honest(h, w) {
      forall n | 0 <= n <= |ws| ensures Verified(h, Run(h, t, ws[..n])) {
        var u := Run(h, t, ws[..n]);
        forall c | c in u ensures Checks(h, c, u[c]) { HonestRunsVerify(h, t, ws[..n], c); }
      }
    }
    if w :| w in ws && !Honest(h, w) {
      var i :| 0 <= i < |ws| && ws[i] == w;
      assert ws[..i+1][..i] == ws[..i];
      var u := Run(h, t, ws[..i+1]);
      assert w.b.cid in u && u[w.b.cid] == w.b.data;
      assert !Verified(h, u);
    }
  }

  // ---------- batches ----------

  /** Putting one after the other, stopping at the first error: what stores do that do not
      override the batch. */
  function PutEach(h: Hashes, t: Table, blocks: seq<Block>): (Table, Put) {
    if blocks == [] then (t, Stored)
    else
      var (u, r) := PutEach(h, t, blocks[..|blocks|-1]);
      if r.Stored? then Written(h, u, blocks[|blocks|-1]) else (u, r)
  }

  lemma {:induction false} FirstBadIs(h: Hashes, blocks: seq<Block>, from: nat, bad: nat)
    requires from <= bad <= |blocks|
    requires forall i :: from <= i < bad ==> Checks(h, blocks[i].cid, blocks[i].data)
    requires bad < |blocks| ==> !Checks(h, blocks[bad].cid, blocks[bad].data)
    ensures FirstBad(h, blocks, from) == bad
    decreases |blocks| - from
  {
    if from < bad { FirstBadIs(h, blocks, from + 1, bad); }
  }

  lemma {:induction false} PutEachIs(h: Hashes, t: Table, blocks: seq<Block>)
    ensures var bad := FirstBad(h, blocks, 0);
            PutEach(h, t, blocks) == (InsertAll(t, blocks[..bad]),
                                      if bad == |blocks| then Stored else Mismatch(h, blocks[bad]))
  {
    if blocks != [] {
      var front := blocks[..|blocks|-1];
      PutEachIs(h, t, front);
      var bad := FirstBad(h, front, 0);
      if bad < |front| {
        assert forall i :: 0 <= i < |front| ==> front[i] == blocks[i];
        FirstBadIs(h, blocks, 0, bad);
        assert blocks[..bad] == front[..bad];
      } else {
        assert forall i :: 0 <= i < |front| ==> front[i] == blocks[i];
        var b := if Checks(h, blocks[|front|].cid, blocks[|front|].data) then |blocks| else |front|;
        FirstBadIs(h, blocks, 0, b);
        assert blocks[..|blocks|] == blocks && front[..|front|] == front;
      }
    }
  }

  /** A batch answers as the single puts would. It leaves the same table exactly when it
      succeeds, or the blocks before the first bad one were already there. */
  lemma BatchIsPutEachIff(h: Hashes, t: Table, blocks: seq<Block>)
    ensures BatchWritten(h, t, blocks).1 == PutEach(h, t, blocks).1
    ensures BatchWritten(h, t, blocks).0 == PutEach(h, t, blocks).0
       <==> BatchWritten(h, t, blocks).1.Stored? || InsertAll(t, blocks[..FirstBad(h, blocks, 0)]) == t
  {
    PutEachIs(h, t, blocks);
    assert blocks[..|blocks|] == blocks;
  }

  // ---------- order ----------

  /** Two verified puts commute, unless both succeed with different bytes under one
      identifier: for a known hash, a collision. */
  lemma PutsCommuteIff(h: Hashes, t: Table, a: Block, b: Block)
    ensures Written(h, Written(h, t, a).0, b).0 == Written(h, Written(h, t, b).0, a).0
       <==> !(a.cid == b.cid && a.data != b.data && Checks(h, a.cid, a.data) && Checks(h, b.cid, b.data))
  {
    var u, v := Written(h, Written(h, t, a).0, b).0, Written(h, Written(h, t, b).0, a).0;
    if Checks(h, a.cid, a.data) && Checks(h, b.cid, b.data) {
      if a.cid == b.cid {
        assert u[a.cid] == b.data && v[a.cid] == a.data;
      } else {
        assert t[a.cid := a.data][b.cid := b.data] == t[b.cid := b.data][a.cid := a.data];
      }
      if a == b { assert u == v; }
    }
  }

  predicate Compatible(blocks: seq<Block>) {
    forall a, b :: a in blocks && b in blocks && a.cid == b.cid ==> a == b
  }

  lemma CompatibleContents(t: Table, blocks: seq<Block>, c: Cid)
    requires Compatible(blocks)
    ensures forall b :: b in blocks && b.cid == c ==> c in InsertAll(t, blocks) && InsertAll(t, blocks)[c] == b.data
  {
    forall b | b in blocks && b.cid == c ensures c in InsertAll(t, blocks) && InsertAll(t, blocks)[c] == b.data {
      InsertAllKeeps(t, blocks, b);
    }
  }

  lemma {:induction false} InsertAllKeeps(t: Table, blocks: seq<Block>, b: Block)
    requires b in blocks && forall a :: a in blocks && a.cid == b.cid ==> a == b
    ensures b.cid in InsertAll(t, blocks) && InsertAll(t, blocks)[b.cid] == b.data
  {
    var front, last := blocks[..|blocks|-1], blocks[|blocks|-1];
    assert blocks == front + [last];
    if last.cid == b.cid {
      assert last in blocks;
    } else {
      InsertAllKeeps(t, front, b);
    }
  }

  lemma SameBlocksSameTable(t: Table, xs: seq<Block>, ys: seq<Block>)
    requires Compatible(xs) && forall b :: b in xs <==> b in ys
    ensures InsertAll(t, xs) == InsertAll(t, ys)
  {
    var u, v := InsertAll(t, xs), InsertAll(t, ys);
    assert Compatible(ys);
    forall c ensures (c in u <==> c in v) && (c in u ==> u[c] == v[c]) {
      InsertAllOrigin(t, xs, c);
      InsertAllOrigin(t, ys, c);
      CompatibleContents(t, xs, c);
      CompatibleContents(t, ys, c);
    }
    assert u.Keys == v.Keys;
  }

  function ToEnd(blocks: seq<Block>, i: nat): seq<Block>
    requires i < |blocks|
  {
    blocks[..i] + blocks[i+1..] + [blocks[i]]
  }

  lemma ToEndPermutes(blocks: seq<Block>, i: nat)
    requires i < |blocks|
    ensures multiset(ToEnd(blocks, i)) == multiset(blocks)
    ensures forall t :: blocks[i].cid in InsertAll(t, ToEnd(blocks, i))
                     && InsertAll(t, ToEnd(blocks, i))[blocks[i].cid] == blocks[i].data
  {
    assert blocks == blocks[..i] + [blocks[i]] + blocks[i+1..];
    var moved := ToEnd(blocks, i);
    assert moved[|moved|-1] == blocks[i];
  }

  ghost predicate OrderIsIrrelevant(t: Table, blocks: seq<Block>) {
    forall other: seq<Block> :: multiset(other) == multiset(blocks) ==> InsertAll(t, other) == InsertAll(t, blocks)
  }

  /** The order of a batch is irrelevant exactly when no identifier comes with two contents. */
  lemma OrderIsIrrelevantIff(t: Table, blocks: seq<Block>)
    ensures OrderIsIrrelevant(t, blocks) <==> Compatible(blocks)
  {
    if Compatible(blocks) {
      forall other: seq<Block> | multiset(other) == multiset(blocks) ensures InsertAll(t, other) == InsertAll(t, blocks) {
        assert forall b :: b in other <==> b in multiset(other);
        assert forall b :: b in blocks <==> b in multiset(blocks);
        SameBlocksSameTable(t, blocks, other);
      }
    } else {
      var a, b :| a in blocks && b in blocks && a.cid == b.cid && a != b;
      var i :| 0 <= i < |blocks| && blocks[i] == a;
      var j :| 0 <= j < |blocks| && blocks[j] == b;
      ToEndPermutes(blocks, i);
      ToEndPermutes(blocks, j);
      assert InsertAll(t, ToEnd(blocks, i))[a.cid] == a.data;
      assert InsertAll(t, ToEnd(blocks, j))[a.cid] == b.data;
      assert InsertAll(t, ToEnd(blocks, i)) != InsertAll(t, ToEnd(blocks, j));
    }
  }

  ghost predicate NoCollision(h: Hashes, blocks: seq<Block>) {
    forall a, b :: a in blocks && b in blocks && a.cid == b.cid ==> !Collision(h, a.cid, a.data, b.data)
  }

  /** For known hashes, a batch that succeeds may come in any order, unless two of its blocks
      are a collision. */
  lemma VerifiedBatchesAreSets(h: Hashes, t: Table, blocks: seq<Block>)
    requires BatchWritten(h, t, blocks).1.Stored?
    requires forall b :: b in blocks ==> KnownHash(b.cid)
    ensures OrderIsIrrelevant(t, blocks) <==> NoCollision(h, blocks)
  {
    OrderIsIrrelevantIff(t, blocks);
    forall a | a in blocks ensures Checks(h, a.cid, a.data) {
      var i :| 0 <= i < |blocks| && blocks[i] == a;
      assert Checks(h, blocks[i].cid, blocks[i].data);
    }
    if NoCollision(h, blocks) {
      forall a, b | a in blocks && b in blocks && a.cid == b.cid ensures a == b {
        assert !Collision(h, a.cid, a.data, b.data);
      }
    }
  }
}
