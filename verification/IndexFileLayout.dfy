/** Where each field of a saved index stands, byte for byte, and which files are ignored. */
module IndexFileLayout {
  import opened Options
  import opened Bytes
  import opened IndexFile

  // ---------- integers ----------

  lemma {:induction false} RangeIsPositive(i: nat)
    ensures Range(i) > 0
  {
    if i > 0 { RangeIsPositive(i - 1); }
  }

  /** Least significant byte first. */
  lemma {:induction false} LeByteAt(n: nat, width: nat, i: nat)
    requires i < width
    ensures Range(i) > 0 && ToLe(n, width)[i] == n / Range(i) % 256
    decreases width
  {
    RangeIsPositive(i);
    if i > 0 {
      RangeIsPositive(i - 1);
      LeByteAt(n / 256, width - 1, i - 1);
      DividedTwice(n, Range(i - 1));
      assert ToLe(n, width)[i] == ToLe(n / 256, width - 1)[i-1];
    }
  }

  lemma DividedTwice(n: nat, r: nat)
    requires r > 0
    ensures n / 256 / r == n / (256 * r)
  {
    var a, b := n / 256, n % 256;
    var q, c := a / r, a % r;
    assert n == 256 * a + b && a == r * q + c;
    assert 256 * (r * q) == (256 * r) * q;
    Quotient(n, 256 * r, q, 256 * c + b);
  }

  lemma AtLeast(t: int, d: int)
    requires t >= 1 && d > 0
    ensures t * d >= d
  {
  }

  lemma Quotient(n: int, d: int, q: int, rest: int)
    requires 0 <= rest < d && n == d * q + rest
    ensures n / d == q
  {
    var t := n / d - q;
    assert t * d == rest - n % d;
    if t >= 1 { AtLeast(t, d); }
    if t <= -1 { AtLeast(-t, d); }
  }

  lemma LeOfOne()
    ensures ToLe(1, 4) == [1, 0, 0, 0]
  {
    assert ToLe(0, 1) == [0] && ToLe(0, 2) == [0, 0] && ToLe(0, 3) == [0, 0, 0];
  }

  // ---------- items of one size ----------

  /** Where item i of size k begins. */
  function Offset(k: nat, i: nat): nat {
    if i == 0 then 0 else k + Offset(k, i - 1)
  }

  lemma {:induction false} OffsetIsProduct(k: nat, i: nat)
    ensures Offset(k, i) == k * i
  {
    if i > 0 {
      OffsetIsProduct(k, i - 1);
      assert k * i == k + k * (i - 1);
    }
  }

  lemma {:induction false} ItemAt<T(!new)>(write: T -> seq<Byte>, xs: seq<T>, k: nat, i: nat)
    requires i < |xs| && forall x :: x in xs ==> |write(x)| == k
    ensures StandsAt(WriteMany(write, xs), Offset(k, i), write(xs[i]))
    decreases |xs|
  {
    var first, rest := write(xs[0]), WriteMany(write, xs[1..]);
    assert xs[0] in xs;
    if i > 0 {
      ItemAt(write, xs[1..], k, i - 1);
      Inside(first + rest, k, rest, Offset(k, i - 1), write(xs[i]));
    }
  }

  lemma {:induction false} ManyLength<T(!new)>(write: T -> seq<Byte>, xs: seq<T>, k: nat)
    requires forall x :: x in xs ==> |write(x)| == k
    ensures |WriteMany(write, xs)| == Offset(k, |xs|)
  {
    if xs != [] {
      assert xs[0] in xs;
      ManyLength(write, xs[1..], k);
    }
  }

  // ---------- the fields ----------

  /** s stands at position p of f. */
  predicate StandsAt(f: seq<Byte>, p: nat, s: seq<Byte>) {
    p + |s| <= |f| && f[p..p + |s|] == s
  }

  lemma Behind(f: seq<Byte>, p: nat, a: seq<Byte>, b: seq<Byte>)
    requires StandsAt(f, p, a + b)
    ensures StandsAt(f, p, a) && StandsAt(f, p + |a|, b)
  {
    assert f[p..p + |a|] == (a + b)[..|a|];
    assert f[p + |a|..p + |a| + |b|] == (a + b)[|a|..];
  }

  lemma Inside(f: seq<Byte>, p: nat, s: seq<Byte>, q: nat, t: seq<Byte>)
    requires StandsAt(f, p, s) && StandsAt(s, q, t)
    ensures StandsAt(f, p + q, t)
  {
    forall n | 0 <= n < |t| ensures f[p + q + n] == t[n] {
      assert s[q + n] == s[q..q + |t|][n] && f[p + (q + n)] == f[p..p + |s|][q + n];
    }
    assert f[p + q..p + q + |t|] == t;
  }

  /** The name of the format, version 1, and the counted operation id. */
  lemma StartLayout(opBytes: seq<Byte>, x: Index, filler: seq<Byte>)
    ensures var f, o := File(opBytes, x, filler), |opBytes|;
            && StandsAt(f, 0, [0x4D, 0x4E, 0x45, 0x4D, 0x48, 0x4E, 0x53, 0x57]) && StandsAt(f, 8, [1, 0, 0, 0])
            && StandsAt(f, 12, ToLe(o, 4)) && StandsAt(f, 16, opBytes) && StandsAt(f, 16 + o, Body(x, filler))
  {
    var f, body := File(opBytes, x, filler), Body(x, filler);
    LeOfOne();
    assert MAGIC == [0x4D, 0x4E, 0x45, 0x4D, 0x48, 0x4E, 0x53, 0x57];
    assert StandsAt(f, 0, MAGIC + (ToLe(VERSION, 4) + (ToLe(|opBytes|, 4) + (opBytes + body))));
    Behind(f, 0, MAGIC, ToLe(VERSION, 4) + (ToLe(|opBytes|, 4) + (opBytes + body)));
    Behind(f, 8, ToLe(VERSION, 4), ToLe(|opBytes|, 4) + (opBytes + body));
    Behind(f, 12, ToLe(|opBytes|, 4), opBytes + body);
    Behind(f, 16, opBytes, body);
  }

  /** Then the counted name of the model. */
  lemma BodyLayout(f: seq<Byte>, p: nat, x: Index, filler: seq<Byte>)
    requires StandsAt(f, p, Body(x, filler))
    ensures StandsAt(f, p, ToLe(|x.model|, 4)) && StandsAt(f, p + 4, x.model)
    ensures StandsAt(f, p + 4 + |x.model|, Tail(x, filler))
  {
    Behind(f, p, ToLe(|x.model|, 4), x.model + Tail(x, filler));
    Behind(f, p + 4, x.model, Tail(x, filler));
  }

  /** Then the dimension, three slots, the number of rows, the ids and the vectors. */
  lemma TailLayout(f: seq<Byte>, b: nat, x: Index, filler: seq<Byte>)
    requires StandsAt(f, b, Tail(x, filler)) && |filler| == 24
    ensures StandsAt(f, b, ToLe(x.dim, 4)) && StandsAt(f, b + 4, filler) && StandsAt(f, b + 28, ToLe(|x.ids|, 8))
    ensures StandsAt(f, b + 36, WriteMany(WriteId, x.ids) + WriteMany(WritePoint, x.points))
  {
    var rows := WriteMany(WriteId, x.ids) + WriteMany(WritePoint, x.points);
    FourBehind(f, b, ToLe(x.dim, 4), filler, ToLe(|x.ids|, 8), rows);
  }

  lemma FourBehind(f: seq<Byte>, p: nat, a: seq<Byte>, b: seq<Byte>, c: seq<Byte>, d: seq<Byte>)
    requires StandsAt(f, p, a + (b + (c + d)))
    ensures StandsAt(f, p, a) && StandsAt(f, p + |a|, b) && StandsAt(f, p + |a| + |b|, c)
    ensures StandsAt(f, p + |a| + |b| + |c|, d)
  {
    Behind(f, p, a, b + (c + d));
    Behind(f, p + |a|, b, c + d);
    Behind(f, p + |a| + |b|, c, d);
  }

  /** The slots: the search width twice, and a zero. */
  lemma SlotsLayout(f: seq<Byte>, p: nat, efSearch: nat)
    requires StandsAt(f, p, Filler(efSearch))
    ensures StandsAt(f, p, ToLe(efSearch, 8)) && StandsAt(f, p + 8, ToLe(efSearch, 8)) && StandsAt(f, p + 16, ToLe(0, 8))
  {
    Behind(f, p, ToLe(efSearch, 8) + ToLe(efSearch, 8), ToLe(0, 8));
    Behind(f, p, ToLe(efSearch, 8), ToLe(efSearch, 8));
  }

  lemma RowsAfterModel(opBytes: seq<Byte>, x: Index, filler: seq<Byte>)
    requires |filler| == 24
    ensures StandsAt(File(opBytes, x, filler), 56 + |opBytes| + |x.model|, WriteMany(WriteId, x.ids) + WriteMany(WritePoint, x.points))
  {
    var f := File(opBytes, x, filler);
    assert StandsAt(f, 16 + |opBytes|, Body(x, filler)) by { StartLayout(opBytes, x, filler); }
    assert StandsAt(f, 20 + |opBytes| + |x.model|, Tail(x, filler)) by { BodyLayout(f, 16 + |opBytes|, x, filler); }
    TailLayout(f, 20 + |opBytes| + |x.model|, x, filler);
  }

  /** The rows of a saved file: the ids, then the vectors. */
  lemma FileRows(p: Platform, opBytes: seq<Byte>, x: Index, filler: seq<Byte>)
    requires WellFormed(p, x) && |filler| == 24
    ensures var f, b := File(opBytes, x, filler), 56 + |opBytes| + |x.model|;
            StandsAt(f, b, WriteMany(WriteId, x.ids)) && StandsAt(f, b + Offset(16, |x.ids|), WriteMany(WritePoint, x.points))
  {
    RowsAfterModel(opBytes, x, filler);
    ManyLength(WriteId, x.ids, 16);
    Behind(File(opBytes, x, filler), 56 + |opBytes| + |x.model|, WriteMany(WriteId, x.ids), WriteMany(WritePoint, x.points));
  }

  lemma PointsAreEven(points: seq<seq<nat>>, dim: nat)
    requires forall v :: v in points ==> |v| == dim
    ensures forall v :: v in points ==> |WritePoint(v)| == Offset(4, dim)
  {
    forall v | v in points ensures |WritePoint(v)| == Offset(4, dim) { ManyLength(WriteBits, v, 4); }
  }

  /** Id i takes 16 bytes. */
  lemma IdAt(f: seq<Byte>, b: nat, ids: seq<seq<Byte>>, i: nat)
    requires StandsAt(f, b, WriteMany(WriteId, ids)) && i < |ids| && forall id :: id in ids ==> IsId(id)
    ensures StandsAt(f, b + Offset(16, i), ids[i])
  {
    var all, q := WriteMany(WriteId, ids), Offset(16, i);
    assert StandsAt(all, q, ids[i]) by { ItemAt(WriteId, ids, 16, i); }
    Inside(f, b, all, q, ids[i]);
  }

  lemma InsideTwice(f: seq<Byte>, p: nat, s: seq<Byte>, q: nat, t: seq<Byte>, r: nat, u: seq<Byte>)
    requires StandsAt(f, p, s) && StandsAt(s, q, t) && StandsAt(t, r, u)
    ensures StandsAt(f, p + q + r, u)
  {
    Inside(f, p, s, q, t);
    Inside(f, p + q, t, r, u);
  }

  lemma PointAt(points: seq<seq<nat>>, dim: nat, i: nat)
    requires i < |points| && forall v :: v in points ==> |v| == dim
    ensures |points[i]| == dim
    ensures StandsAt(WriteMany(WritePoint, points), Offset(Offset(4, dim), i), WritePoint(points[i]))
  {
    assert points[i] in points;
    PointsAreEven(points, dim);
    ItemAt(WritePoint, points, Offset(4, dim), i);
  }

  lemma BitsAt(v: seq<nat>, c: nat)
    requires c < |v|
    ensures StandsAt(WritePoint(v), Offset(4, c), ToLe(v[c], 4))
  {
    ItemAt(WriteBits, v, 4, c);
  }

  /** Component c of vector i takes four bytes, least significant first. */
  lemma ComponentAt(f: seq<Byte>, b: nat, points: seq<seq<nat>>, dim: nat, i: nat, c: nat)
    requires StandsAt(f, b, WriteMany(WritePoint, points)) && i < |points| && c < dim
    requires forall v :: v in points ==> |v| == dim
    ensures |points[i]| == dim && StandsAt(f, b + Offset(Offset(4, dim), i) + Offset(4, c), ToLe(points[i][c], 4))
  {
    var v, q, r := points[i], Offset(Offset(4, dim), i), Offset(4, c);
    assert v in points;
    var all, one, bits := WriteMany(WritePoint, points), WritePoint(v), ToLe(v[c], 4);
    assert StandsAt(all, q, one) by { PointAt(points, dim, i); }
    assert StandsAt(one, r, bits) by { BitsAt(v, c); }
    InsideTwice(f, b, all, q, one, r, bits);
  }

  // ---------- foreign files ----------

  /** The operation id can be read, and is another one. */
  predicate OtherOperation(p: Platform, s: seq<Byte>, expected: Cid) {
    && |s| >= 16 && 16 + FromLe(s[12..16]) <= |s|
    && var op := p.parseCid(s[16..16 + FromLe(s[12..16])]); op.Some? && op.value != expected
  }

  /** A file is ignored, rather than an error, exactly when it has another name of the format, or
      another version, or another operation id, each of them whole. */
  lemma IgnoredIff(p: Platform, s: seq<Byte>, expected: Cid)
    ensures ReadFile(p, s, expected) == Ignored
       <==> || (|s| >= 8 && s[..8] != [0x4D, 0x4E, 0x45, 0x4D, 0x48, 0x4E, 0x53, 0x57])
            || (|s| >= 12 && s[8..12] != [1, 0, 0, 0])
            || (|s| >= 12 && OtherOperation(p, s, expected))
  {
    if |s| >= 12 {
      var s1 := s[8..];
      assert s1[..4] == s[8..12] && s1[4..] == s[12..];
      ToFromLe(s[8..12]);
      LeOfOne();
      FromToLe(1, 4);
      OperationAt(p, s);
    }
  }

  lemma OperationAt(p: Platform, s: seq<Byte>)
    requires |s| >= 12
    ensures ReadOpId(p, s[12..]) ==
            if |s| < 16 || 16 + FromLe(s[12..16]) > |s| then None
            else match p.parseCid(s[16..16 + FromLe(s[12..16])])
                 case None => None
                 case Some(op) => Some((op, s[16 + FromLe(s[12..16])..]))
  {
    var s2 := s[12..];
    if |s| >= 16 {
      assert s2[..4] == s[12..16] && s2[4..] == s[16..];
      var len := FromLe(s[12..16]);
      if 16 + len <= |s| { assert s[16..][..len] == s[16..16 + len] && s[16..][len..] == s[16 + len..]; }
    }
  }
}
