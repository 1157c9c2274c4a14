/** The on-disk form of a vector index: save_to_path and load_from_path of
    crates/mnem-ann/src/hnsw.rs, over byte sequences. */
module IndexFile {
  import opened Options
  import opened Bytes

  type Cid = nat

  /** What the format leaves to other crates: the binary form of content ids, and which
      byte strings are UTF-8. */
  datatype Platform = Platform(cidBytes: Cid -> seq<Byte>, parseCid: seq<Byte> -> Option<Cid>, isText: seq<Byte> -> bool)

  ghost predicate Lawful(p: Platform) {
    forall c: Cid :: p.parseCid(p.cidBytes(c)) == Some(c)
  }

  /** ids are 16 raw bytes each; vector components are 32-bit patterns. */
  datatype Index = Index(model: seq<Byte>, dim: nat, ids: seq<seq<Byte>>, points: seq<seq<nat>>)

  /** Failed: an error. Ignored: no index, rebuild. Loaded: the index and the unread bytes. */
  datatype Load = Failed | Ignored | Loaded(index: Index, rest: seq<Byte>)

  const MAGIC: seq<Byte> := [77, 78, 69, 77, 72, 78, 83, 87]  // MNEMHNSW
  const VERSION := 1

  predicate IsId(id: seq<Byte>) {
    |id| == 16
  }

  predicate IsPoint(dim: nat, v: seq<nat>) {
    |v| == dim && forall x :: x in v ==> x < Range(4)
  }

  /** An index as the build produces it: aligned arrays, components of the common dimension,
      every count within its field. */
  ghost predicate WellFormed(p: Platform, x: Index) {
    && |x.model| < Range(4) && p.isText(x.model)
    && x.dim < Range(4)
    && |x.ids| < Range(8) && |x.points| == |x.ids|
    && (forall id :: id in x.ids ==> IsId(id))
    && (forall v :: v in x.points ==> IsPoint(x.dim, v))
  }

  // ---------- writing ----------

  function WriteId(id: seq<Byte>): seq<Byte> {
    id
  }

  function WriteBits(x: nat): seq<Byte> {
    ToLe(x, 4)
  }

  function WritePoint(v: seq<nat>): seq<Byte> {
    WriteMany(WriteBits, v)
  }

  /** From the dimension on; filler stands for the three tuning slots, ignored on load. */
  function Tail(x: Index, filler: seq<Byte>): seq<Byte> {
    ToLe(x.dim, 4) + (filler + (ToLe(|x.ids|, 8) + (WriteMany(WriteId, x.ids) + WriteMany(WritePoint, x.points))))
  }

  function Body(x: Index, filler: seq<Byte>): seq<Byte> {
    ToLe(|x.model|, 4) + (x.model + Tail(x, filler))
  }

  function File(opBytes: seq<Byte>, x: Index, filler: seq<Byte>): seq<Byte> {
    MAGIC + (ToLe(VERSION, 4) + (ToLe(|opBytes|, 4) + (opBytes + Body(x, filler))))
  }

  function Filler(efSearch: nat): (f: seq<Byte>)
    ensures |f| == 24
  {
    ToLe(efSearch, 8) + ToLe(efSearch, 8) + ToLe(0, 8)
  }

  method SaveIds(w: ByteWriter, ids: seq<seq<Byte>>)
    modifies w
    ensures w.bytes == old(w.bytes) + WriteMany(WriteId, ids)
  {
    for i := 0 to |ids|
      invariant old(w.bytes) + WriteMany(WriteId, ids) == w.bytes + WriteMany(WriteId, ids[i..])
    {
      w.WriteAll(ids[i]);
      assert ids[i..][1..] == ids[i+1..];
    }
  }

  method SavePoint(w: ByteWriter, v: seq<nat>)
    modifies w
    ensures w.bytes == old(w.bytes) + WritePoint(v)
  {
    for j := 0 to |v|
      invariant old(w.bytes) + WritePoint(v) == w.bytes + WriteMany(WriteBits, v[j..])
    {
      w.WriteAll(ToLe(v[j], 4));
      assert v[j..][1..] == v[j+1..];
    }
  }

  method SavePoints(w: ByteWriter, points: seq<seq<nat>>)
    modifies w
    ensures w.bytes == old(w.bytes) + WriteMany(WritePoint, points)
  {
    for i := 0 to |points|
      invariant old(w.bytes) + WriteMany(WritePoint, points) == w.bytes + WriteMany(WritePoint, points[i..])
    {
      SavePoint(w, points[i]);
      assert points[i..][1..] == points[i+1..];
    }
  }

  method SaveFiller(w: ByteWriter, efSearch: nat)
    modifies w
    ensures w.bytes == old(w.bytes) + Filler(efSearch)
  {
    w.WriteAll(ToLe(efSearch, 8));
    w.WriteAll(ToLe(efSearch, 8));
    w.WriteAll(ToLe(0, 8));
  }

  lemma AppendFive(o: seq<Byte>, a: seq<Byte>, b: seq<Byte>, c: seq<Byte>, d: seq<Byte>, e: seq<Byte>)
    ensures o + a + b + c + d + e == o + (a + (b + (c + (d + e))))
  {
  }

  method SaveTail(w: ByteWriter, x: Index, efSearch: nat)
    modifies w
    ensures w.bytes == old(w.bytes) + Tail(x, Filler(efSearch))
  {
    ghost var start := w.bytes;
    w.WriteAll(ToLe(x.dim, 4));
    SaveFiller(w, efSearch);
    w.WriteAll(ToLe(|x.ids|, 8));
    SaveIds(w, x.ids);
    SavePoints(w, x.points);
    AppendFive(start, ToLe(x.dim, 4), Filler(efSearch), ToLe(|x.ids|, 8),
               WriteMany(WriteId, x.ids), WriteMany(WritePoint, x.points));
  }

  function Header(opBytes: seq<Byte>): seq<Byte> {
    MAGIC + ToLe(VERSION, 4) + ToLe(|opBytes|, 4) + opBytes
  }

  lemma AppendThree(a: seq<Byte>, b: seq<Byte>, c: seq<Byte>, d: seq<Byte>)
    ensures a + b + c + d == a + (b + (c + d))
  {
  }

  lemma AppendHeader(o: seq<Byte>, a: seq<Byte>, b: seq<Byte>, c: seq<Byte>, d: seq<Byte>, e: seq<Byte>)
    ensures o + (a + b + c + d) + e == o + (a + (b + (c + (d + e))))
  {
  }

  method SaveHeader(w: ByteWriter, opBytes: seq<Byte>)
    modifies w
    ensures w.bytes == old(w.bytes) + Header(opBytes)
  {
    w.WriteAll(MAGIC);
    w.WriteAll(ToLe(VERSION, 4));
    w.WriteAll(ToLe(|opBytes|, 4));
    w.WriteAll(opBytes);
  }

  method SaveBody(w: ByteWriter, x: Index, efSearch: nat)
    modifies w
    ensures w.bytes == old(w.bytes) + Body(x, Filler(efSearch))
  {
    ghost var start := w.bytes;
    w.WriteAll(ToLe(|x.model|, 4));
    w.WriteAll(x.model);
    SaveTail(w, x, efSearch);
    AppendThree(start, ToLe(|x.model|, 4), x.model, Tail(x, Filler(efSearch)));
  }

  /** Lengths that do not fit their fields panic in the program. */
  method SaveToPath(w: ByteWriter, p: Platform, x: Index, efSearch: nat, opId: Cid)
    requires |p.cidBytes(opId)| < Range(4) && |x.model| < Range(4) && |x.ids| < Range(8)
    modifies w
    ensures w.bytes == old(w.bytes) + File(p.cidBytes(opId), x, Filler(efSearch))
  {
    ghost var start := w.bytes;
    var opBytes := p.cidBytes(opId);
    SaveHeader(w, opBytes);
    SaveBody(w, x, efSearch);
    ghost var body := Body(x, Filler(efSearch));
    AppendHeader(start, MAGIC, ToLe(VERSION, 4), ToLe(|opBytes|, 4), opBytes, body);
  }

  // ---------- reading ----------

  function ReadId(s: seq<Byte>): Option<(seq<Byte>, seq<Byte>)> {
    Take(s, 16)
  }

  function ReadBits(s: seq<Byte>): Option<(nat, seq<Byte>)> {
    ReadLe(s, 4)
  }

  function ReadPoint(dim: nat): Reader<seq<nat>> {
    (s: seq<Byte>) => ReadMany(ReadBits, s, dim)
  }

  function SkipFiller(s: seq<Byte>): Option<seq<Byte>> {
    var (_, s1) :- Take(s, 8);
    var (_, s2) :- Take(s1, 8);
    var (_, s3) :- Take(s2, 8);
    Some(s3)
  }

  function ReadTail(s: seq<Byte>, model: seq<Byte>): Option<(Index, seq<Byte>)> {
    var (dim, s1) :- ReadLe(s, 4);
    var s2 :- SkipFiller(s1);
    var (n, s3) :- ReadLe(s2, 8);
    var (ids, s4) :- ReadMany(ReadId, s3, n);
    var (points, s5) :- ReadMany(ReadPoint(dim), s4, n);
    Some((Index(model, dim, ids, points), s5))
  }

  function ReadBody(p: Platform, s: seq<Byte>): Option<(Index, seq<Byte>)> {
    var (len, s1) :- ReadLe(s, 4);
    var (model, s2) :- Take(s1, len);
    if p.isText(model) then ReadTail(s2, model) else None
  }

  /** The operation id the file was written under. */
  function ReadOpId(p: Platform, s: seq<Byte>): Option<(Cid, seq<Byte>)> {
    var (len, s1) :- ReadLe(s, 4);
    var (opBytes, s2) :- Take(s1, len);
    var op :- p.parseCid(opBytes);
    Some((op, s2))
  }

  function ReadFile(p: Platform, s: seq<Byte>, expected: Cid): Load {
    match Take(s, 8)
    case None => Failed
    case Some((magic, s1)) =>
      if magic != MAGIC then Ignored else
      match ReadLe(s1, 4)
      case None => Failed
      case Some((version, s2)) =>
        if version != VERSION then Ignored else
        match ReadOpId(p, s2)
        case None => Failed
        case Some((op, s3)) =>
          if op != expected then Ignored else
          match ReadBody(p, s3)
          case None => Failed
          case Some((x, rest)) => Loaded(x, rest)
  }

  /** Reading n items one after the other: what is read so far, followed by the rest. */
  ghost predicate Continues<T(!new)>(read: Reader<T>, whole: seq<Byte>, n: nat, done: seq<T>, left: seq<Byte>) {
    |done| <= n &&
    ReadMany(read, whole, n) ==
      match ReadMany(read, left, n - |done|)
      case None => None
      case Some((xs, rest)) => Some((done + xs, rest))
  }

  lemma ContinuesFromStart<T(!new)>(read: Reader<T>, whole: seq<Byte>, n: nat)
    ensures Continues(read, whole, n, [], whole)
  {
    if ReadMany(read, whole, n).Some? {
      var (xs, rest) := ReadMany(read, whole, n).value;
      assert [] + xs == xs;
    }
  }

  lemma ContinuesToEnd<T(!new)>(read: Reader<T>, whole: seq<Byte>, n: nat, done: seq<T>, left: seq<Byte>)
    requires |done| == n && Continues(read, whole, n, done, left)
    ensures ReadMany(read, whole, n) == Some((done, left))
  {
    assert done + [] == done;
  }

  lemma ContinuesWith<T(!new)>(read: Reader<T>, whole: seq<Byte>, n: nat, done: seq<T>, left: seq<Byte>)
    requires |done| < n && Continues(read, whole, n, done, left)
    ensures match read(left)
            case None => ReadMany(read, whole, n) == None
            case Some((x, rest)) => Continues(read, whole, n, done + [x], rest)
  {
    if read(left).Some? {
      var (x, rest) := read(left).value;
      match ReadMany(read, rest, n - |done| - 1)
      case None =>
      case Some((xs, rest')) => assert done + ([x] + xs) == done + [x] + xs;
    }
  }

  method LoadIds(r: ByteReader, n: nat) returns (res: Option<seq<seq<Byte>>>)
    requires r.Valid()
    modifies r
    ensures r.Valid()
    ensures match ReadMany(ReadId, old(r.Rest()), n)
            case None => res == None
            case Some((ids, rest)) => res == Some(ids) && r.Rest() == rest
  {
    var ids: seq<seq<Byte>> := [];
    ContinuesFromStart(ReadId, r.Rest(), n);
    for i := 0 to n
      invariant r.Valid() && |ids| == i
      invariant Continues(ReadId, old(r.Rest()), n, ids, r.Rest())
    {
      ContinuesWith(ReadId, old(r.Rest()), n, ids, r.Rest());
      var id := r.ReadExact(16);
      if id == None {
        return None;
      }
      ids := ids + [id.value];
    }
    ContinuesToEnd(ReadId, old(r.Rest()), n, ids, r.Rest());
    return Some(ids);
  }

  method LoadPoint(r: ByteReader, dim: nat) returns (res: Option<seq<nat>>)
    requires r.Valid()
    modifies r
    ensures r.Valid()
    ensures match ReadMany(ReadBits, old(r.Rest()), dim)
            case None => res == None
            case Some((v, rest)) => res == Some(v) && r.Rest() == rest
  {
    var v: seq<nat> := [];
    ContinuesFromStart(ReadBits, r.Rest(), dim);
    for j := 0 to dim
      invariant r.Valid() && |v| == j
      invariant Continues(ReadBits, old(r.Rest()), dim, v, r.Rest())
    {
      ContinuesWith(ReadBits, old(r.Rest()), dim, v, r.Rest());
      var b := r.ReadExact(4);
      if b == None {
        return None;
      }
      v := v + [FromLe(b.value)];
    }
    ContinuesToEnd(ReadBits, old(r.Rest()), dim, v, r.Rest());
    return Some(v);
  }

  method LoadPoints(r: ByteReader, n: nat, dim: nat) returns (res: Option<seq<seq<nat>>>)
    requires r.Valid()
    modifies r
    ensures r.Valid()
    ensures match ReadMany(ReadPoint(dim), old(r.Rest()), n)
            case None => res == None
            case Some((vs, rest)) => res == Some(vs) && r.Rest() == rest
  {
    var vs: seq<seq<nat>> := [];
    ContinuesFromStart(ReadPoint(dim), r.Rest(), n);
    for i := 0 to n
      invariant r.Valid() && |vs| == i
      invariant Continues(ReadPoint(dim), old(r.Rest()), n, vs, r.Rest())
    {
      ContinuesWith(ReadPoint(dim), old(r.Rest()), n, vs, r.Rest());
      var v := LoadPoint(r, dim);
      if v == None {
        return None;
      }
      vs := vs + [v.value];
    }
    ContinuesToEnd(ReadPoint(dim), old(r.Rest()), n, vs, r.Rest());
    return Some(vs);
  }

  method LoadTail(r: ByteReader, model: seq<Byte>) returns (res: Option<Index>)
    requires r.Valid()
    modifies r
    ensures r.Valid()
    ensures match ReadTail(old(r.Rest()), model)
            case None => res == None
            case Some((x, rest)) => res == Some(x) && r.Rest() == rest
  {
    var dim := r.ReadExact(4);
    if dim == None { return None; }
    var slot := r.ReadExact(8);
    if slot == None { return None; }
    slot := r.ReadExact(8);
    if slot == None { return None; }
    slot := r.ReadExact(8);
    if slot == None { return None; }
    var n := r.ReadExact(8);
    if n == None { return None; }
    var ids := LoadIds(r, FromLe(n.value));
    if ids == None { return None; }
    var points := LoadPoints(r, FromLe(n.value), FromLe(dim.value));
    if points == None { return None; }
    return Some(Index(model, FromLe(dim.value), ids.value, points.value));
  }

  method LoadFromPath(r: ByteReader, p: Platform, expected: Cid) returns (res: Load)
    requires r.Valid()
    modifies r
    ensures r.Valid()
    ensures res == ReadFile(p, old(r.Rest()), expected)
    ensures res.Loaded? ==> r.Rest() == res.rest
  {
    var magic := r.ReadExact(8);
    if magic == None { return Failed; }
    if magic.value != MAGIC { return Ignored; }
    var version := r.ReadExact(4);
    if version == None { return Failed; }
    if FromLe(version.value) != VERSION { return Ignored; }
    var len := r.ReadExact(4);
    if len == None { return Failed; }
    var opBytes := r.ReadExact(FromLe(len.value));
    if opBytes == None { return Failed; }
    var op := p.parseCid(opBytes.value);
    if op == None { return Failed; }
    if op.value != expected { return Ignored; }
    len := r.ReadExact(4);
    if len == None { return Failed; }
    var model := r.ReadExact(FromLe(len.value));
    if model == None { return Failed; }
    if !p.isText(model.value) { return Failed; }
    var x := LoadTail(r, model.value);
    if x == None { return Failed; }
    return Loaded(x.value, r.Rest());
  }
}
