/** Which byte sequences the loader accepts, and what it makes of them. */
module IndexFileLaws {
  import opened Options
  import opened Bytes
  import opened IndexFile

  lemma CutFront(a: seq<Byte>, b: seq<Byte>, m: nat)
    requires m <= |a| + |b|
    ensures (a + b)[..m] == if m <= |a| then a[..m] else a + b[..m-|a|]
  {
  }

  lemma SkipsFiller(s: seq<Byte>)
    ensures SkipFiller(s) == if |s| < 24 then None else Some(s[24..])
  {
    if |s| >= 24 { assert s[8..][8..][8..] == s[24..]; }
  }

  // ---------- items ----------

  lemma IdLaws(id: seq<Byte>)
    requires IsId(id)
    ensures ReadsBack(WriteId, ReadId, id) && RefusesCut(WriteId, ReadId, id)
  {
    forall rest ensures ReadId(WriteId(id) + rest) == Some((id, rest)) { TakeFront(id, rest); }
  }

  lemma BitsLaws(x: nat)
    requires x < Range(4)
    ensures ReadsBack(WriteBits, ReadBits, x) && RefusesCut(WriteBits, ReadBits, x)
  {
    forall rest ensures ReadBits(WriteBits(x) + rest) == Some((x, rest)) { LeReadsBack(x, 4, rest); }
  }

  lemma PointLaws(dim: nat, v: seq<nat>)
    requires IsPoint(dim, v)
    ensures ReadsBack(WritePoint, ReadPoint(dim), v) && RefusesCut(WritePoint, ReadPoint(dim), v)
  {
    forall x | x in v ensures ReadsBack(WriteBits, ReadBits, x) && RefusesCut(WriteBits, ReadBits, x) { BitsLaws(x); }
    forall rest ensures ReadPoint(dim)(WritePoint(v) + rest) == Some((v, rest)) {
      ManyReadBack(WriteBits, ReadBits, v, rest);
    }
    forall m | 0 <= m < |WritePoint(v)| ensures ReadPoint(dim)(WritePoint(v)[..m]) == None {
      ManyRefuseCut(WriteBits, ReadBits, v, m);
    }
  }

  lemma ItemLaws(p: Platform, x: Index)
    requires WellFormed(p, x)
    ensures forall id :: id in x.ids ==> ReadsBack(WriteId, ReadId, id) && RefusesCut(WriteId, ReadId, id)
    ensures forall v :: v in x.points ==> ReadsBack(WritePoint, ReadPoint(x.dim), v)
                                          && RefusesCut(WritePoint, ReadPoint(x.dim), v)
  {
    forall id | id in x.ids ensures ReadsBack(WriteId, ReadId, id) && RefusesCut(WriteId, ReadId, id) { IdLaws(id); }
    forall v | v in x.points
      ensures ReadsBack(WritePoint, ReadPoint(x.dim), v) && RefusesCut(WritePoint, ReadPoint(x.dim), v)
    {
      PointLaws(x.dim, v);
    }
  }

  // ---------- reading back ----------

  lemma Regroup5(a: seq<Byte>, b: seq<Byte>, c: seq<Byte>, d: seq<Byte>, e: seq<Byte>, rest: seq<Byte>)
    ensures a + (b + (c + (d + e))) + rest == a + (b + (c + (d + (e + rest))))
  {
  }

  lemma TailReadsBack(p: Platform, x: Index, filler: seq<Byte>, rest: seq<Byte>)
    requires WellFormed(p, x) && |filler| == 24
    ensures ReadTail(Tail(x, filler) + rest, x.model) == Some((x, rest))
  {
    var d, n, ids, pts := ToLe(x.dim, 4), ToLe(|x.ids|, 8), WriteMany(WriteId, x.ids), WriteMany(WritePoint, x.points);
    ItemLaws(p, x);
    Regroup5(d, filler, n, ids, pts, rest);
    LeReadsBack(x.dim, 4, filler + (n + (ids + (pts + rest))));
    SkipsFiller(filler + (n + (ids + (pts + rest))));
    assert (filler + (n + (ids + (pts + rest))))[24..] == n + (ids + (pts + rest));
    LeReadsBack(|x.ids|, 8, ids + (pts + rest));
    ManyReadBack(WriteId, ReadId, x.ids, pts + rest);
    ManyReadBack(WritePoint, ReadPoint(x.dim), x.points, rest);
  }

  lemma BodyReadsBack(p: Platform, x: Index, filler: seq<Byte>, rest: seq<Byte>)
    requires WellFormed(p, x) && |filler| == 24
    ensures ReadBody(p, Body(x, filler) + rest) == Some((x, rest))
  {
    var tail := Tail(x, filler);
    Regroup3(ToLe(|x.model|, 4), x.model, tail, rest);
    LeReadsBack(|x.model|, 4, x.model + (tail + rest));
    TakeFront(x.model, tail + rest);
    TailReadsBack(p, x, filler, rest);
  }

  lemma Regroup3(a: seq<Byte>, b: seq<Byte>, c: seq<Byte>, rest: seq<Byte>)
    ensures a + (b + c) + rest == a + (b + (c + rest))
  {
  }

  lemma OpIdReadsBack(p: Platform, opBytes: seq<Byte>, rest: seq<Byte>)
    requires |opBytes| < Range(4)
    ensures ReadOpId(p, ToLe(|opBytes|, 4) + (opBytes + rest)) ==
            match p.parseCid(opBytes) case None => None case Some(op) => Some((op, rest))
  {
    LeReadsBack(|opBytes|, 4, opBytes + rest);
    TakeFront(opBytes, rest);
  }

  /** After the fixed start, everything hangs on the operation id. */
  lemma AfterStart(p: Platform, rest: seq<Byte>, expected: Cid)
    ensures ReadFile(p, MAGIC + (ToLe(VERSION, 4) + rest), expected) ==
            match ReadOpId(p, rest)
            case None => Failed
            case Some((op, s)) =>
              if op != expected then Ignored else
              match ReadBody(p, s) case None => Failed case Some((x, left)) => Loaded(x, left)
  {
    TakeFront(MAGIC, ToLe(VERSION, 4) + rest);
    LeReadsBack(VERSION, 4, rest);
  }

  /** Saved bytes load back to the same index under the same operation id, whatever follows
      them in the file, and are ignored under any other one. */
  lemma SavedFileLoads(p: Platform, x: Index, filler: seq<Byte>, op: Cid, expected: Cid, rest: seq<Byte>)
    requires Lawful(p) && WellFormed(p, x) && |filler| == 24 && |p.cidBytes(op)| < Range(4)
    ensures ReadFile(p, File(p.cidBytes(op), x, filler) + rest, expected) ==
            if expected == op then Loaded(x, rest) else Ignored
  {
    var opBytes, body := p.cidBytes(op), Body(x, filler);
    Regroup5(MAGIC, ToLe(VERSION, 4), ToLe(|opBytes|, 4), opBytes, body, rest);
    AfterStart(p, ToLe(|opBytes|, 4) + (opBytes + (body + rest)), expected);
    OpIdReadsBack(p, opBytes, body + rest);
    BodyReadsBack(p, x, filler, rest);
  }

  // ---------- truncated files ----------

  lemma TailRefusesCut(p: Platform, x: Index, filler: seq<Byte>, m: nat)
    requires WellFormed(p, x) && |filler| == 24 && m < |Tail(x, filler)|
    ensures ReadTail(Tail(x, filler)[..m], x.model) == None
  {
    var d, n, ids, pts := ToLe(x.dim, 4), ToLe(|x.ids|, 8), WriteMany(WriteId, x.ids), WriteMany(WritePoint, x.points);
    ItemLaws(p, x);
    var s1, s2, s3 := filler + (n + (ids + pts)), n + (ids + pts), ids + pts;
    CutFront(d, s1, m);
    if m >= 4 {
      var m1 := m - 4;
      assert Tail(x, filler)[..m] == d + s1[..m1];
      LeReadsBack(x.dim, 4, s1[..m1]);
      CutFront(filler, s2, m1);
      SkipsFiller(s1[..m1]);
      if m1 >= 24 {
        var m2 := m1 - 24;
        assert s1[..m1] == filler + s2[..m2];
        assert s1[..m1][24..] == s2[..m2];
        CutFront(n, s3, m2);
        if m2 >= 8 {
          var m3 := m2 - 8;
          assert s2[..m2] == n + s3[..m3];
          LeReadsBack(|x.ids|, 8, s3[..m3]);
          CutFront(ids, pts, m3);
          if m3 < |ids| {
            ManyRefuseCut(WriteId, ReadId, x.ids, m3);
          } else {
            var m4 := m3 - |ids|;
            assert s3[..m3] == ids + pts[..m4];
            ManyReadBack(WriteId, ReadId, x.ids, pts[..m4]);
            ManyRefuseCut(WritePoint, ReadPoint(x.dim), x.points, m4);
          }
        }
      }
    }
  }

  lemma BodyRefusesCut(p: Platform, x: Index, filler: seq<Byte>, m: nat)
    requires WellFormed(p, x) && |filler| == 24 && m < |Body(x, filler)|
    ensures ReadBody(p, Body(x, filler)[..m]) == None
  {
    var len, tail := ToLe(|x.model|, 4), Tail(x, filler);
    CutFront(len, x.model + tail, m);
    if m >= 4 {
      var m1 := m - 4;
      assert Body(x, filler)[..m] == len + (x.model + tail)[..m1];
      LeReadsBack(|x.model|, 4, (x.model + tail)[..m1]);
      CutFront(x.model, tail, m1);
      if m1 >= |x.model| {
        var m2 := m1 - |x.model|;
        assert (x.model + tail)[..m1] == x.model + tail[..m2];
        TakeFront(x.model, tail[..m2]);
        TailRefusesCut(p, x, filler, m2);
      }
    }
  }

  /** A file cut short anywhere is an error, never an index and never "no index". */
  lemma CutFileFails(p: Platform, x: Index, filler: seq<Byte>, op: Cid, m: nat)
    requires Lawful(p) && WellFormed(p, x) && |filler| == 24 && |p.cidBytes(op)| < Range(4)
    requires m < |File(p.cidBytes(op), x, filler)|
    ensures ReadFile(p, File(p.cidBytes(op), x, filler)[..m], op) == Failed
  {
    var opBytes, body := p.cidBytes(op), Body(x, filler);
    var v, len := ToLe(VERSION, 4), ToLe(|opBytes|, 4);
    var s1, s2, s3 := v + (len + (opBytes + body)), len + (opBytes + body), opBytes + body;
    CutFront(MAGIC, s1, m);
    if m >= 8 {
      var m1 := m - 8;
      assert File(opBytes, x, filler)[..m] == MAGIC + s1[..m1];
      TakeFront(MAGIC, s1[..m1]);
      CutFront(v, s2, m1);
      if m1 >= 4 {
        var m2 := m1 - 4;
        assert s1[..m1] == v + s2[..m2];
        AfterStart(p, s2[..m2], op);
        CutFront(len, s3, m2);
        if m2 >= 4 {
          var m3 := m2 - 4;
          assert s2[..m2] == len + s3[..m3];
          LeReadsBack(|opBytes|, 4, s3[..m3]);
          CutFront(opBytes, body, m3);
          if m3 >= |opBytes| {
            var m4 := m3 - |opBytes|;
            assert s3[..m3] == opBytes + body[..m4];
            OpIdReadsBack(p, opBytes, body[..m4]);
            BodyRefusesCut(p, x, filler, m4);
          }
        }
      }
    }
  }

  // ---------- accepted files ----------

  lemma LeAcceptsOnly(s: seq<Byte>, width: nat)
    ensures ReadLe(s, width).Some? ==> ReadLe(s, width).value.0 < Range(width)
    ensures ReadLe(s, width).Some? ==> s == ToLe(ReadLe(s, width).value.0, width) + ReadLe(s, width).value.1
  {
    if width <= |s| { ToFromLe(s[..width]); }
  }

  predicate IsBits(x: nat) {
    x < Range(4)
  }

  lemma BitsAcceptOnly()
    ensures AcceptsOnlyWritten(WriteBits, ReadBits, IsBits)
  {
    forall s | ReadBits(s).Some?
      ensures IsBits(ReadBits(s).value.0) && s == WriteBits(ReadBits(s).value.0) + ReadBits(s).value.1
    {
      LeAcceptsOnly(s, 4);
    }
  }

  lemma PointsAcceptOnly(dim: nat)
    ensures AcceptsOnlyWritten(WritePoint, ReadPoint(dim), (v: seq<nat>) => IsPoint(dim, v))
  {
    BitsAcceptOnly();
    forall s | ReadPoint(dim)(s).Some?
      ensures IsPoint(dim, ReadPoint(dim)(s).value.0)
      ensures s == WritePoint(ReadPoint(dim)(s).value.0) + ReadPoint(dim)(s).value.1
    {
      ManyAcceptOnlyWritten(WriteBits, ReadBits, IsBits, s, dim);
    }
  }

  lemma TailAcceptsOnly(s: seq<Byte>, model: seq<Byte>) returns (filler: seq<Byte>)
    requires ReadTail(s, model).Some?
    ensures |filler| == 24
    ensures var (x, rest) := ReadTail(s, model).value;
            && x.model == model && x.dim < Range(4)
            && |x.ids| < Range(8) && |x.points| == |x.ids|
            && (forall id :: id in x.ids ==> IsId(id))
            && (forall v :: v in x.points ==> IsPoint(x.dim, v))
            && s == Tail(x, filler) + rest
  {
    LeAcceptsOnly(s, 4);
    var (dim, s1) := ReadLe(s, 4).value;
    SkipsFiller(s1);
    filler := s1[..24];
    var s2 := s1[24..];
    LeAcceptsOnly(s2, 8);
    var (n, s3) := ReadLe(s2, 8).value;
    ManyAcceptOnlyWritten(WriteId, ReadId, IsId, s3, n);
    var (ids, s4) := ReadMany(ReadId, s3, n).value;
    PointsAcceptOnly(dim);
    ManyAcceptOnlyWritten(WritePoint, ReadPoint(dim), (v: seq<nat>) => IsPoint(dim, v), s4, n);
    var (points, s5) := ReadMany(ReadPoint(dim), s4, n).value;
    Regroup5(ToLe(dim, 4), filler, ToLe(n, 8), WriteMany(WriteId, ids), WriteMany(WritePoint, points), s5);
    assert s1 == filler + s2;
  }

  lemma ModelAcceptsOnly(p: Platform, s: seq<Byte>) returns (model: seq<Byte>, tail: seq<Byte>)
    requires ReadBody(p, s).Some?
    ensures |model| < Range(4) && p.isText(model)
    ensures ReadBody(p, s) == ReadTail(tail, model)
    ensures s == ToLe(|model|, 4) + (model + tail)
  {
    LeAcceptsOnly(s, 4);
    var (len, s1) := ReadLe(s, 4).value;
    model, tail := s1[..len], s1[len..];
    assert s1 == model + tail;
  }

  lemma BodyAcceptsOnly(p: Platform, s: seq<Byte>) returns (filler: seq<Byte>)
    requires ReadBody(p, s).Some?
    ensures |filler| == 24
    ensures WellFormed(p, ReadBody(p, s).value.0)
    ensures s == Body(ReadBody(p, s).value.0, filler) + ReadBody(p, s).value.1
  {
    var model, tail := ModelAcceptsOnly(p, s);
    filler := TailAcceptsOnly(tail, model);
    Regroup3(ToLe(|model|, 4), model, Tail(ReadTail(tail, model).value.0, filler), ReadTail(tail, model).value.1);
  }

  ghost predicate Represents(p: Platform, s: seq<Byte>, op: Cid, x: Index, rest: seq<Byte>) {
    exists opBytes, filler ::
      |opBytes| < Range(4) && p.parseCid(opBytes) == Some(op) && |filler| == 24
      && s == File(opBytes, x, filler) + rest
  }

  lemma OpIdAcceptsOnly(p: Platform, s: seq<Byte>) returns (opBytes: seq<Byte>)
    requires ReadOpId(p, s).Some?
    ensures |opBytes| < Range(4) && p.parseCid(opBytes) == Some(ReadOpId(p, s).value.0)
    ensures s == ToLe(|opBytes|, 4) + (opBytes + ReadOpId(p, s).value.1)
  {
    LeAcceptsOnly(s, 4);
    var (len, s1) := ReadLe(s, 4).value;
    opBytes := s1[..len];
    assert s1 == opBytes + s1[len..];
  }

  lemma StartAcceptsOnly(p: Platform, s: seq<Byte>, op: Cid) returns (s2: seq<Byte>)
    requires ReadFile(p, s, op).Loaded?
    ensures s == MAGIC + (ToLe(VERSION, 4) + s2)
  {
    var s1 := s[8..];
    LeAcceptsOnly(s1, 4);
    s2 := ReadLe(s1, 4).value.1;
    assert s == s[..8] + s1;
  }

  lemma LoadedOnly(p: Platform, s: seq<Byte>, op: Cid)
    requires ReadFile(p, s, op).Loaded?
    ensures WellFormed(p, ReadFile(p, s, op).index)
    ensures Represents(p, s, op, ReadFile(p, s, op).index, ReadFile(p, s, op).rest)
  {
    var s2 := StartAcceptsOnly(p, s, op);
    AfterStart(p, s2, op);
    var opBytes := OpIdAcceptsOnly(p, s2);
    var s4 := ReadOpId(p, s2).value.1;
    var filler := BodyAcceptsOnly(p, s4);
    var x, rest := ReadFile(p, s, op).index, ReadFile(p, s, op).rest;
    Regroup5(MAGIC, ToLe(VERSION, 4), ToLe(|opBytes|, 4), opBytes, Body(x, filler), rest);
    assert s == File(opBytes, x, filler) + rest;
  }

  lemma RepresentedLoads(p: Platform, s: seq<Byte>, op: Cid, x: Index, rest: seq<Byte>)
    requires WellFormed(p, x) && Represents(p, s, op, x, rest)
    ensures ReadFile(p, s, op) == Loaded(x, rest)
  {
    var opBytes, filler :|
      |opBytes| < Range(4) && p.parseCid(opBytes) == Some(op) && |filler| == 24
      && s == File(opBytes, x, filler) + rest;
    var body := Body(x, filler);
    Regroup5(MAGIC, ToLe(VERSION, 4), ToLe(|opBytes|, 4), opBytes, body, rest);
    AfterStart(p, ToLe(|opBytes|, 4) + (opBytes + (body + rest)), op);
    OpIdReadsBack(p, opBytes, body + rest);
    BodyReadsBack(p, x, filler, rest);
  }

  /** The loader is exactly the inverse of the writer: it returns x, leaving rest, when the
      bytes are x's file under some spelling of the operation id and any tuning slots,
      followed by rest; and on nothing else. */
  lemma LoadedIff(p: Platform, s: seq<Byte>, op: Cid, x: Index, rest: seq<Byte>)
    ensures ReadFile(p, s, op) == Loaded(x, rest) <==> WellFormed(p, x) && Represents(p, s, op, x, rest)
  {
    if ReadFile(p, s, op).Loaded? { LoadedOnly(p, s, op); }
    if WellFormed(p, x) && Represents(p, s, op, x, rest) { RepresentedLoads(p, s, op, x, rest); }
  }
}
