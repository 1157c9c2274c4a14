/** The content-addressed block store (crates/mnem-backend-redb/src/blockstore.rs, with the
    contract of crates/mnem-core/src/store/blockstore.rs). A write transaction is one step. */
module Blockstore {
  import opened Bytes
  import opened Options

  type Content = seq<Byte>

  datatype Cid = Cid(codec: nat, code: nat, digest: seq<Byte>)

  /** The two digests of this build. */
  datatype Hashes = Hashes(sha2: Content -> seq<Byte>, blake3: Content -> seq<Byte>)

  type Table = map<Cid, Content>

  datatype Block = Block(cid: Cid, data: Content)

  datatype Got = Found(data: Content) | Absent | Corruption(recomputed: Cid)

  datatype Put = Stored | CidMismatch(claimed: Cid, computed: Cid)

  const HASH_SHA2_256 := 0x12
  const HASH_BLAKE3_256 := 0x1e

  predicate KnownHash(c: Cid) {
    c.code == HASH_SHA2_256 || c.code == HASH_BLAKE3_256
  }

  function Recompute(h: Hashes, claimed: Cid, data: Content): Option<Cid> {
    if claimed.code == HASH_SHA2_256 then Some(Cid(claimed.codec, HASH_SHA2_256, h.sha2(data)))
    else if claimed.code == HASH_BLAKE3_256 then Some(Cid(claimed.codec, HASH_BLAKE3_256, h.blake3(data)))
    else None
  }

  /** The bytes hash to the identifier, or cannot be checked. */
  predicate Checks(h: Hashes, c: Cid, data: Content) {
    Recompute(h, c, data) == None || Recompute(h, c, data) == Some(c)
  }

  /** The digest is the SHA2-256 or BLAKE3-256 of the data, where the code names one of these. */
  predicate DigestFits(h: Hashes, c: Cid, data: Content) {
    (c.code == 0x12 ==> c.digest == h.sha2(data)) && (c.code == 0x1e ==> c.digest == h.blake3(data))
  }

  /** The identifier the data should have: the same codec and code, the right digest. */
  predicate IsTrueCid(h: Hashes, claimed: Cid, data: Content, computed: Cid) {
    && computed.codec == claimed.codec && computed.code == claimed.code
    && (claimed.code == 0x12 || claimed.code == 0x1e)
    && computed.digest == (if claimed.code == 0x12 then h.sha2(data) else h.blake3(data))
  }

  /** A mismatch names the claimed identifier and the one the data should have. */
  predicate IsMismatch(h: Hashes, b: Block, r: Put) {
    r.CidMismatch? && r.claimed == b.cid && IsTrueCid(h, b.cid, b.data, r.computed)
  }

  ghost predicate Verified(h: Hashes, t: Table) {
    forall c :: c in t ==> Checks(h, c, t[c])
  }

  function Read(h: Hashes, t: Table, c: Cid): Got {
    if c !in t then Absent
    else if Checks(h, c, t[c]) then Found(t[c])
    else Corruption(Recompute(h, c, t[c]).value)
  }

  function Written(h: Hashes, t: Table, b: Block): (Table, Put) {
    if Checks(h, b.cid, b.data) then (t[b.cid := b.data], Stored)
    else (t, CidMismatch(b.cid, Recompute(h, b.cid, b.data).value))
  }

  function InsertAll(t: Table, blocks: seq<Block>): Table {
    if blocks == [] then t
    else
      var last := blocks[|blocks|-1];
      InsertAll(t, blocks[..|blocks|-1])[last.cid := last.data]
  }

  function FirstBad(h: Hashes, blocks: seq<Block>, from: nat): (r: nat)
    requires from <= |blocks|
    ensures from <= r <= |blocks|
    ensures forall i :: from <= i < r ==> Checks(h, blocks[i].cid, blocks[i].data)
    ensures r < |blocks| ==> !Checks(h, blocks[r].cid, blocks[r].data)
    decreases |blocks| - from
  {
    if from == |blocks| || !Checks(h, blocks[from].cid, blocks[from].data) then from
    else FirstBad(h, blocks, from + 1)
  }

  function Mismatch(h: Hashes, b: Block): Put
    requires !Checks(h, b.cid, b.data)
  {
    CidMismatch(b.cid, Recompute(h, b.cid, b.data).value)
  }

  /** All of the blocks, or none of them and the first mismatch. */
  function BatchWritten(h: Hashes, t: Table, blocks: seq<Block>): (Table, Put) {
    var bad := FirstBad(h, blocks, 0);
    if bad == |blocks| then (InsertAll(t, blocks), Stored) else (t, Mismatch(h, blocks[bad]))
  }

  ghost predicate IsFirstMismatch(h: Hashes, blocks: seq<Block>, i: nat, r: Put) {
    && i < |blocks| && (forall j :: 0 <= j < i ==> DigestFits(h, blocks[j].cid, blocks[j].data))
    && IsMismatch(h, blocks[i], r) && r.computed.digest != blocks[i].cid.digest
  }

  /** No later block has the identifier of block i. */
  predicate IsLast(blocks: seq<Block>, i: nat)
    requires i < |blocks|
  {
    forall j :: i < j < |blocks| ==> blocks[j].cid != blocks[i].cid
  }

  /** The last of the blocks with an identifier is there, and everything else is as it was. */
  ghost predicate AllLanded(before: Table, blocks: seq<Block>, after: Table) {
    && (forall i: nat :: i < |blocks| && IsLast(blocks, i) ==> blocks[i].cid in after && after[blocks[i].cid] == blocks[i].data)
    && (forall c :: NamesNone(blocks, c) ==> (c in after <==> c in before) && (c in after ==> after[c] == before[c]))
  }

  predicate NamesNone(blocks: seq<Block>, c: Cid) {
    forall i :: 0 <= i < |blocks| ==> blocks[i].cid != c
  }

  lemma {:induction false} LastLands(t: Table, blocks: seq<Block>, i: nat)
    requires i < |blocks| && IsLast(blocks, i)
    ensures blocks[i].cid in InsertAll(t, blocks) && InsertAll(t, blocks)[blocks[i].cid] == blocks[i].data
  {
    var front := blocks[..|blocks|-1];
    if i < |front| {
      assert blocks[|front|].cid != blocks[i].cid && IsLast(front, i);
      LastLands(t, front, i);
    }
  }

  lemma {:induction false} OthersStay(t: Table, blocks: seq<Block>, c: Cid)
    requires NamesNone(blocks, c)
    ensures c in InsertAll(t, blocks) <==> c in t
    ensures c in t ==> InsertAll(t, blocks)[c] == t[c]
  {
    if blocks != [] {
      assert blocks[|blocks|-1].cid != c;
      OthersStay(t, blocks[..|blocks|-1], c);
    }
  }

  lemma InsertAllLands(t: Table, blocks: seq<Block>)
    ensures AllLanded(t, blocks, InsertAll(t, blocks))
  {
    forall i: nat | i < |blocks| && IsLast(blocks, i)
      ensures blocks[i].cid in InsertAll(t, blocks) && InsertAll(t, blocks)[blocks[i].cid] == blocks[i].data
    {
      LastLands(t, blocks, i);
    }
    forall c | NamesNone(blocks, c)
      ensures (c in InsertAll(t, blocks) <==> c in t) && (c in t ==> InsertAll(t, blocks)[c] == t[c])
    {
      OthersStay(t, blocks, c);
    }
  }

  lemma ChecksMeans(h: Hashes, c: Cid, data: Content)
    ensures Checks(h, c, data) <==> DigestFits(h, c, data)
  {
  }

  lemma BatchMeans(h: Hashes, t: Table, blocks: seq<Block>)
    ensures var (after, r) := BatchWritten(h, t, blocks);
            && (r.Stored? <==> forall i :: 0 <= i < |blocks| ==> DigestFits(h, blocks[i].cid, blocks[i].data))
            && (r.Stored? ==> AllLanded(t, blocks, after))
            && (r.CidMismatch? ==> after == t && exists i: nat :: IsFirstMismatch(h, blocks, i, r))
  {
    var bad := FirstBad(h, blocks, 0);
    forall i | 0 <= i < |blocks| ensures Checks(h, blocks[i].cid, blocks[i].data) <==> DigestFits(h, blocks[i].cid, blocks[i].data) {
      ChecksMeans(h, blocks[i].cid, blocks[i].data);
    }
    if bad == |blocks| {
      InsertAllLands(t, blocks);
    } else {
      assert IsFirstMismatch(h, blocks, bad, Mismatch(h, blocks[bad]));
    }
  }

  class RedbBlockstore {
    const h: Hashes
    var objects: Table

    constructor (h: Hashes)
      ensures this.h == h && objects == map[]
    {
      this.h := h;
      objects := map[];
    }

    method Has(cid: Cid) returns (r: bool)
      ensures r <==> Read(h, objects, cid) != Absent
      ensures r <==> cid in objects
    {
      r := cid in objects;
    }

    method Get(cid: Cid) returns (r: Got)
      ensures r == Read(h, objects, cid)
      ensures r.Absent? <==> cid !in objects
      ensures r.Found? <==> cid in objects && DigestFits(h, cid, objects[cid])
      ensures r.Found? ==> r.data == objects[cid]
      ensures r.Corruption? ==> IsTrueCid(h, cid, objects[cid], r.recomputed) && r.recomputed.digest != cid.digest
    {
      if cid in objects {
        var data := objects[cid];
        var computed := Recompute(h, cid, data);
        if computed.Some? {
          if computed.value != cid {
            return Corruption(computed.value);
          }
        }
        return Found(data);
      }
      return Absent;
    }

    method Put(cid: Cid, data: Content) returns (r: Put)
      modifies this
      ensures (objects, r) == Written(h, old(objects), Block(cid, data))
      ensures r.Stored? <==> DigestFits(h, cid, data)
      ensures r.Stored? ==> objects == old(objects)[cid := data]
      ensures r.CidMismatch? ==> objects == old(objects) && IsMismatch(h, Block(cid, data), r)
    {
      var computed := Recompute(h, cid, data);
      if computed.Some? && computed.value != cid {
        return CidMismatch(cid, computed.value);
      }
      objects := objects[cid := data];
      return Stored;
    }

    method PutTrusted(cid: Cid, data: Content)
      modifies this
      ensures objects == old(objects)[cid := data]
    {
      objects := objects[cid := data];
    }

    /** One transaction: a mismatch drops everything inserted so far. */
    method BatchPut(blocks: seq<Block>) returns (r: Put)
      modifies this
      ensures (objects, r) == BatchWritten(h, old(objects), blocks)
      ensures r.Stored? <==> forall i :: 0 <= i < |blocks| ==> DigestFits(h, blocks[i].cid, blocks[i].data)
      ensures r.Stored? ==> AllLanded(old(objects), blocks, objects)
      ensures r.CidMismatch? ==> objects == old(objects) && exists i: nat :: IsFirstMismatch(h, blocks, i, r)
    {
      BatchMeans(h, objects, blocks);
      var table := objects;
      for i := 0 to |blocks|
        invariant objects == old(objects) && table == InsertAll(objects, blocks[..i])
        invariant FirstBad(h, blocks, 0) == FirstBad(h, blocks, i)
      {
        var cid, data := blocks[i].cid, blocks[i].data;
        var computed := Recompute(h, cid, data);
        if computed.Some? && computed.value != cid {
          return CidMismatch(cid, computed.value);
        }
        assert blocks[..i+1][..i] == blocks[..i];
        table := table[cid := data];
      }
      assert blocks[..|blocks|] == blocks;
      objects := table;
      return Stored;
    }

    method Delete(cid: Cid)
      modifies this
      ensures objects == old(objects) - {cid}
    {
      objects := objects - {cid};
    }

    /** Every identifier once, in no particular order. */
    method AllCids() returns (cids: seq<Cid>)
      ensures (set c | c in cids) == objects.Keys && |cids| == |objects|
    {
      cids := [];
      var rest := objects.Keys;
      while rest != {}
        invariant rest <= objects.Keys
        invariant (set c | c in cids) == objects.Keys - rest && |cids| == |objects.Keys| - |rest|
        decreases |rest|
      {
        var c :| c in rest;
        assert (set x | x in cids + [c]) == (set x | x in cids) + {c};
        cids := cids + [c];
        rest := rest - {c};
      }
    }
  }
}
