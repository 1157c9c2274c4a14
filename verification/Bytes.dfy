/** Bytes, fixed-width little-endian integers, and readers that consume a byte sequence
    from the front. */
module Bytes {
  import opened Options

  type Byte = b: int | 0 <= b < 256

  type Reader<!T> = seq<Byte> -> Option<(T, seq<Byte>)>

  function Range(width: nat): nat {
    if width == 0 then 1 else 256 * Range(width - 1)
  }

  function ToLe(n: nat, width: nat): (r: seq<Byte>)
    ensures |r| == width
  {
    if width == 0 then [] else [n % 256] + ToLe(n / 256, width - 1)
  }

  function FromLe(s: seq<Byte>): nat {
    if s == [] then 0 else s[0] + 256 * FromLe(s[1..])
  }

  lemma {:induction false} FromToLe(n: nat, width: nat)
    requires n < Range(width)
    ensures FromLe(ToLe(n, width)) == n
  {
    if width > 0 {
      FromToLe(n / 256, width - 1);
      assert ToLe(n, width)[1..] == ToLe(n / 256, width - 1);
    }
  }

  lemma {:induction false} ToFromLe(s: seq<Byte>)
    ensures FromLe(s) < Range(|s|)
    ensures ToLe(FromLe(s), |s|) == s
  {
    if s != [] {
      ToFromLe(s[1..]);
      assert FromLe(s) / 256 == FromLe(s[1..]) && FromLe(s) % 256 == s[0];
    }
  }

  // ---------- reading ----------

  function Take(s: seq<Byte>, n: nat): Option<(seq<Byte>, seq<Byte>)> {
    if n <= |s| then Some((s[..n], s[n..])) else None
  }

  function ReadLe(s: seq<Byte>, width: nat): Option<(nat, seq<Byte>)> {
    var (b, rest) :- Take(s, width);
    Some((FromLe(b), rest))
  }

  function ReadMany<T>(read: Reader<T>, s: seq<Byte>, n: nat): Option<(seq<T>, seq<Byte>)>
    decreases n
  {
    if n == 0 then Some(([], s))
    else
      var (x, rest) :- read(s);
      var (xs, rest') :- ReadMany(read, rest, n - 1);
      Some(([x] + xs, rest'))
  }

  function WriteMany<T>(write: T -> seq<Byte>, xs: seq<T>): seq<Byte> {
    if xs == [] then [] else write(xs[0]) + WriteMany(write, xs[1..])
  }

  /** The reader takes back exactly what was written, whatever follows. */
  ghost predicate ReadsBack<T>(write: T -> seq<Byte>, read: Reader<T>, x: T) {
    forall rest :: read(write(x) + rest) == Some((x, rest))
  }

  /** Cut anywhere inside, the written bytes are refused. */
  ghost predicate RefusesCut<T>(write: T -> seq<Byte>, read: Reader<T>, x: T) {
    forall m :: 0 <= m < |write(x)| ==> read(write(x)[..m]) == None
  }

  /** The reader accepts nothing but written bytes. */
  ghost predicate AcceptsOnlyWritten<T(!new)>(write: T -> seq<Byte>, read: Reader<T>, valid: T -> bool) {
    forall s :: read(s).Some? ==> valid(read(s).value.0) && s == write(read(s).value.0) + read(s).value.1
  }

  lemma TakeFront(a: seq<Byte>, rest: seq<Byte>)
    ensures Take(a + rest, |a|) == Some((a, rest))
  {
    assert (a + rest)[..|a|] == a && (a + rest)[|a|..] == rest;
  }

  lemma LeReadsBack(n: nat, width: nat, rest: seq<Byte>)
    requires n < Range(width)
    ensures ReadLe(ToLe(n, width) + rest, width) == Some((n, rest))
  {
    TakeFront(ToLe(n, width), rest);
    FromToLe(n, width);
  }

  lemma {:induction false} ManyReadBack<T(!new)>(write: T -> seq<Byte>, read: Reader<T>, xs: seq<T>, rest: seq<Byte>)
    requires forall x :: x in xs ==> ReadsBack(write, read, x)
    ensures ReadMany(read, WriteMany(write, xs) + rest, |xs|) == Some((xs, rest))
  {
    if xs == [] {
      assert WriteMany(write, xs) + rest == rest;
    } else {
      var tail := WriteMany(write, xs[1..]) + rest;
      assert WriteMany(write, xs) + rest == write(xs[0]) + tail;
      assert ReadsBack(write, read, xs[0]) && read(write(xs[0]) + tail) == Some((xs[0], tail));
      ManyReadBack(write, read, xs[1..], rest);
      assert [xs[0]] + xs[1..] == xs;
    }
  }

  lemma {:induction false} ManyRefuseCut<T(!new)>(write: T -> seq<Byte>, read: Reader<T>, xs: seq<T>, m: nat)
    requires forall x :: x in xs ==> ReadsBack(write, read, x) && RefusesCut(write, read, x)
    requires m < |WriteMany(write, xs)|
    ensures ReadMany(read, WriteMany(write, xs)[..m], |xs|) == None
  {
    var a, b := write(xs[0]), WriteMany(write, xs[1..]);
    if m < |a| {
      assert (a + b)[..m] == a[..m];
      assert RefusesCut(write, read, xs[0]);
    } else {
      assert (a + b)[..m] == a + b[..m-|a|];
      assert ReadsBack(write, read, xs[0]);
      ManyRefuseCut(write, read, xs[1..], m - |a|);
    }
  }

  lemma {:induction false} ManyAcceptOnlyWritten<T(!new)>(write: T -> seq<Byte>, read: Reader<T>, valid: T -> bool,
                                                          s: seq<Byte>, n: nat)
    requires AcceptsOnlyWritten(write, read, valid)
    requires ReadMany(read, s, n).Some?
    ensures var (xs, rest) := ReadMany(read, s, n).value;
            |xs| == n && (forall x :: x in xs ==> valid(x)) && s == WriteMany(write, xs) + rest
    decreases n
  {
    if n > 0 {
      var (x, rest) := read(s).value;
      ManyAcceptOnlyWritten(write, read, valid, rest, n - 1);
      var (xs, rest') := ReadMany(read, s, n).value;
      assert xs[1..] == ReadMany(read, rest, n - 1).value.0;
      assert write(x) + (WriteMany(write, xs[1..]) + rest') == WriteMany(write, xs) + rest';
    }
  }

  // ---------- a byte stream under a cursor ----------

  class ByteReader {
    const data: seq<Byte>
    var pos: nat

    ghost predicate Valid()
      reads this
    {
      pos <= |data|
    }

    function Rest(): seq<Byte>
      requires Valid()
      reads this
    {
      data[pos..]
    }

    constructor (data: seq<Byte>)
      ensures Valid() && Rest() == data
    {
      this.data := data;
      pos := 0;
    }

    method ReadExact(n: nat) returns (r: Option<seq<Byte>>)
      requires Valid()
      modifies this
      ensures Valid()
      ensures match Take(old(Rest()), n)
              case None => r == None
              case Some((bytes, rest)) => r == Some(bytes) && Rest() == rest
    {
      ghost var rest := data[pos..];
      if |data| - pos < n {
        pos := |data|;
        return None;
      }
      assert rest[..n] == data[pos..pos+n] && rest[n..] == data[pos+n..];
      r := Some(data[pos..pos+n]);
      pos := pos + n;
    }
  }

  class ByteWriter {
    var bytes: seq<Byte>

    constructor ()
      ensures bytes == []
    {
      bytes := [];
    }

    method WriteAll(b: seq<Byte>)
      modifies this
      ensures bytes == old(bytes) + b
    {
      bytes := bytes + b;
    }
  }
}
