/** The byte form of text, and cutting it at a character boundary. */
module Utf8 {
  import opened Bytes

  function EncodeChar(c: char): (r: seq<Byte>)
    ensures 1 <= |r| <= 4
    ensures !IsContinuation(r[0]) && forall i :: 0 < i < |r| ==> IsContinuation(r[i])
  {
    var n := c as int;
    if n < 0x80 then [n]
    else if n < 0x800 then [0xC0 + n / 0x40, 0x80 + n % 0x40]
    else if n < 0x1_0000 then [0xE0 + n / 0x1000, 0x80 + n / 0x40 % 0x40, 0x80 + n % 0x40]
    else [0xF0 + n / 0x4_0000, 0x80 + n / 0x1000 % 0x40, 0x80 + n / 0x40 % 0x40, 0x80 + n % 0x40]
  }

  /** The number that the payload bits of one encoded character spell, as RFC 3629 section 3
      lays them out. */
  function Payload(r: seq<Byte>): int {
    if |r| == 1 then r[0]
    else if |r| == 2 then 0x40 * ((r[0] as int) - 0xC0) + ((r[1] as int) - 0x80)
    else if |r| == 3 then 0x1000 * ((r[0] as int) - 0xE0) + 0x40 * ((r[1] as int) - 0x80) + ((r[2] as int) - 0x80)
    else if |r| == 4 then
      0x4_0000 * ((r[0] as int) - 0xF0) + 0x1000 * ((r[1] as int) - 0x80) + 0x40 * ((r[2] as int) - 0x80) + ((r[3] as int) - 0x80)
    else 0
  }

  lemma Split64(n: nat)
    ensures n == 0x40 * (n / 0x40) + n % 0x40 && n / 0x1000 == n / 0x40 / 0x40 && n / 0x4_0000 == n / 0x40 / 0x40 / 0x40
  {
  }

  /** A character can be read back from its bytes, and takes the fewest that hold it. */
  lemma EncodeCharSpells(c: char)
    ensures Payload(EncodeChar(c)) == c as int
    ensures |EncodeChar(c)| == if c as int < 0x80 then 1 else if c as int < 0x800 then 2 else if c as int < 0x1_0000 then 3 else 4
  {
    Split64(c as int);
    Split64(c as int / 0x40);
    Split64(c as int / 0x1000);
  }

  predicate IsContinuation(b: Byte) {
    0x80 <= b < 0xC0
  }

  function Encode(s: string): seq<Byte> {
    if s == "" then [] else Encode(s[..|s|-1]) + EncodeChar(s[|s|-1])
  }

  predicate IsCharBoundary(bytes: seq<Byte>, k: nat) {
    k == 0 || k == |bytes| || (k < |bytes| && !IsContinuation(bytes[k]))
  }

  /** Boundaries of encoded text are the ends of encoded prefixes. */
  lemma {:induction false} BoundaryIsPrefix(s: string, k: nat)
    requires k <= |Encode(s)|
    ensures IsCharBoundary(Encode(s), k) <==> exists n :: 0 <= n <= |s| && Encode(s[..n]) == Encode(s)[..k]
  {
    if s == "" {
      assert s[..0] == "" && Encode(s)[..k] == [];
    } else {
      var front := s[..|s|-1];
      var a, b := Encode(front), EncodeChar(s[|s|-1]);
      if k == |a| + |b| {
        assert s[..|s|] == s && Encode(s)[..k] == Encode(s);
      } else if k <= |a| {
        BoundaryIsPrefix(front, k);
        assert Encode(s)[..k] == a[..k];
        if exists n :: 0 <= n <= |front| && Encode(front[..n]) == a[..k] {
          var n :| 0 <= n <= |front| && Encode(front[..n]) == a[..k];
          assert s[..n] == front[..n];
        }
        if exists n :: 0 <= n <= |s| && Encode(s[..n]) == Encode(s)[..k] {
          var n :| 0 <= n <= |s| && Encode(s[..n]) == Encode(s)[..k];
          InFront(s, n);
        }
      } else {
        assert Encode(s)[k] == b[k-|a|];
        forall n | 0 <= n <= |s| ensures |Encode(s[..n])| != k {
          InFront(s, n);
          if n < |s| { PrefixIsShorter(front, n); }
        }
      }
    }
  }

  lemma InFront(s: string, n: nat)
    requires s != "" && n <= |s|
    ensures s[..n] == if n == |s| then s else s[..|s|-1][..n]
  {
  }

  lemma {:induction false} PrefixIsShorter(s: string, n: nat)
    requires n <= |s|
    ensures |Encode(s[..n])| <= |Encode(s)|
  {
    if n == |s| {
      assert s[..n] == s;
    } else {
      assert s[..|s|-1][..n] == s[..n];
      PrefixIsShorter(s[..|s|-1], n);
    }
  }

  /** The largest boundary at or below end. */
  function BoundaryBelow(bytes: seq<Byte>, end: nat): (r: nat)
    ensures r <= end && IsCharBoundary(bytes, r)
    ensures forall k :: r < k <= end ==> !IsCharBoundary(bytes, k)
  {
    if IsCharBoundary(bytes, end) then end else BoundaryBelow(bytes, end - 1)
  }

  method FloorBoundary(bytes: seq<Byte>, start: nat) returns (end: nat)
    ensures end == BoundaryBelow(bytes, start)
  {
    end := start;
    while end > 0 && !IsCharBoundary(bytes, end)
      invariant BoundaryBelow(bytes, end) == BoundaryBelow(bytes, start)
    {
      end := end - 1;
    }
  }

  /** Cutting encoded text at the boundary at or below a limit keeps the longest run of whole
      characters that fits. */
  lemma CutKeepsWholeCharacters(s: string, limit: nat) returns (n: nat)
    requires limit <= |Encode(s)|
    ensures n <= |s| && Encode(s)[..BoundaryBelow(Encode(s), limit)] == Encode(s[..n])
    ensures |Encode(s[..n])| <= limit
    ensures forall k :: 0 <= k <= |s| && |Encode(s[..k])| <= limit ==> |Encode(s[..k])| <= |Encode(s[..n])|
  {
    var end := BoundaryBelow(Encode(s), limit);
    BoundaryIsPrefix(s, end);
    n :| 0 <= n <= |s| && Encode(s[..n]) == Encode(s)[..end];
    forall k | 0 <= k <= |s| && |Encode(s[..k])| <= limit ensures |Encode(s[..k])| <= end {
      PrefixEncodes(s, k);
      BoundaryIsPrefix(s, |Encode(s[..k])|);
    }
  }

  lemma {:induction false} PrefixEncodes(s: string, k: nat)
    requires k <= |s|
    ensures Encode(s[..k]) <= Encode(s)
  {
    if k == |s| {
      assert s[..k] == s;
    } else {
      assert s[..|s|-1][..k] == s[..k];
      PrefixEncodes(s[..|s|-1], k);
    }
  }
}
