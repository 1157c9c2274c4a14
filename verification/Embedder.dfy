/** The hashed bag-of-tokens embedder (crates/mnem-bench/src/embed.rs). */
module Embedder {
  import opened Bytes
  import opened RealVectors
  import Utf8
  import Fnv

  type Token = seq<Byte>

  /** Unicode tables are a parameter. */
  datatype Unicode = Unicode(isAlphanumeric: char -> bool, toLowercase: string -> string)

  const MAX_TOKEN := 64

  // ---------- tokens ----------

  /** Maximal runs between separators, empty ones included. */
  function Pieces(u: Unicode, text: string): (r: seq<string>)
    ensures |r| > 0
  {
    if text == "" then [""]
    else
      var before, c := Pieces(u, text[..|text|-1]), text[|text|-1];
      if u.isAlphanumeric(c) then before[..|before|-1] + [before[|before|-1] + [c]]
      else before + [""]
  }

  function Shorten(bytes: Token): Token {
    if |bytes| > MAX_TOKEN then bytes[..Utf8.BoundaryBelow(bytes, MAX_TOKEN)] else bytes
  }

  /** The tokens of the pieces: too short ones dropped, the others lowered and cut. */
  function TokensOf(u: Unicode, pieces: seq<string>): seq<Token> {
    if pieces == [] then []
    else
      var front, piece := TokensOf(u, pieces[..|pieces|-1]), pieces[|pieces|-1];
      if |Utf8.Encode(piece)| < 2 then front
      else front + [Shorten(Utf8.Encode(u.toLowercase(piece)))]
  }

  function Tokenise(u: Unicode, text: string): seq<Token> {
    TokensOf(u, Pieces(u, text))
  }

  method ComputeTokens(u: Unicode, text: string) returns (tokens: seq<Token>)
    ensures tokens == Tokenise(u, text)
  {
    var pieces := Pieces(u, text);
    tokens := [];
    for i := 0 to |pieces|
      invariant tokens == TokensOf(u, pieces[..i])
    {
      assert pieces[..i+1][..i] == pieces[..i];
      if |Utf8.Encode(pieces[i])| < 2 {
        continue;
      }
      var lower := Utf8.Encode(u.toLowercase(pieces[i]));
      if |lower| > MAX_TOKEN {
        var end := Utf8.FloorBoundary(lower, MAX_TOKEN);
        lower := lower[..end];
      }
      tokens := tokens + [lower];
    }
    assert pieces[..|pieces|] == pieces;
  }

  // ---------- counts ----------

  /** The two buckets of a token. */
  type Hashing = Token -> (nat, nat)

  function HashBuckets(dim: nat): Hashing
    requires dim > 0
  {
    (t: Token) => (Fnv.HashFrom(Fnv.BASIS, t) % dim,
                   Fnv.HashFrom(Fnv.XorWords(Fnv.BASIS, Fnv.SECOND_SEED), t) % dim)
  }

  function Hit(bucket: nat, i: nat): real {
    if bucket == i then 1.0 else 0.0
  }

  /** Each token adds one to its two buckets. */
  function Count(hash: Hashing, tokens: seq<Token>, i: nat): real {
    if tokens == [] then 0.0
    else
      var (b1, b2) := hash(tokens[|tokens|-1]);
      Count(hash, tokens[..|tokens|-1], i) + Hit(b1, i) + Hit(b2, i)
  }

  function Counts(hash: Hashing, dim: nat, tokens: seq<Token>): Vec {
    seq(dim, i requires 0 <= i < dim => Count(hash, tokens, i))
  }

  function Normalised(v: Vec, sqrt: real -> real): Vec {
    var norm := sqrt(Dot(v, v));
    if norm > 0.0 then seq(|v|, i requires 0 <= i < |v| => v[i] / norm) else v
  }

  class ToyEmbedder {
    const dim: nat

    constructor (dim: nat)
      ensures this.dim == if dim < 8 then 8 else dim
    {
      this.dim := if dim < 8 then 8 else dim;
    }

    method EmbedText(u: Unicode, sqrt: real -> real, text: string) returns (v: array<real>)
      requires dim > 0
      ensures fresh(v)
      ensures v[..] == Normalised(Counts(HashBuckets(dim), dim, Tokenise(u, text)), sqrt)
    {
      v := new real[dim](_ => 0.0);
      var tokens := ComputeTokens(u, text);
      CountTokens(v, tokens);
      Normalise(v, sqrt);
    }
  }

  lemma CountGrows(hash: Hashing, tokens: seq<Token>, k: nat, i: nat)
    requires k < |tokens|
    ensures Count(hash, tokens[..k+1], i)
         == Count(hash, tokens[..k], i) + Hit(hash(tokens[k]).0, i) + Hit(hash(tokens[k]).1, i)
  {
    assert tokens[..k+1][..k] == tokens[..k];
  }

  /** The counting loop, on buckets that start at zero. */
  method CountTokens(v: array<real>, tokens: seq<Token>)
    requires v.Length > 0 && forall i :: 0 <= i < v.Length ==> v[i] == 0.0
    modifies v
    ensures v[..] == Counts(HashBuckets(v.Length), v.Length, tokens)
  {
    ghost var hash := HashBuckets(v.Length);
    for k := 0 to |tokens|
      invariant forall i :: 0 <= i < v.Length ==> v[i] == Count(hash, tokens[..k], i)
    {
      ghost var before := v[..];
      var b1, b2 := Buckets(v.Length, tokens[k]);
      v[b1] := v[b1] + 1.0;
      v[b2] := v[b2] + 1.0;
      forall i | 0 <= i < v.Length ensures v[i] == Count(hash, tokens[..k+1], i) {
        CountGrows(hash, tokens, k, i);
        assert v[i] == before[i] + Hit(b1, i) + Hit(b2, i);
      }
    }
    assert tokens[..|tokens|] == tokens;
    assert v[..] == Counts(hash, v.Length, tokens);
  }

  method Buckets(dim: nat, token: Token) returns (b1: nat, b2: nat)
    requires dim > 0
    ensures (b1, b2) == HashBuckets(dim)(token)
    ensures b1 < dim && b2 < dim
  {
    var h1 := Fnv.Fnv1a(token);
    var h2 := Fnv.Fnv1aSeeded(token, Fnv.SECOND_SEED);
    b1, b2 := h1 % dim, h2 % dim;
  }

  method Normalise(v: array<real>, sqrt: real -> real)
    modifies v
    ensures v[..] == Normalised(old(v[..]), sqrt)
  {
    ghost var before := v[..];
    var s := 0.0;
    for i := 0 to v.Length
      invariant v[..] == before
      invariant s == DotTo(before, before, i)
    {
      s := s + v[i] * v[i];
    }
    var norm := sqrt(s);
    if norm > 0.0 {
      for i := 0 to v.Length
        invariant forall j :: 0 <= j < i ==> v[j] == before[j] / norm
        invariant forall j :: i <= j < v.Length ==> v[j] == before[j]
      {
        v[i] := v[i] / norm;
      }
    }
    assert v[..] == Normalised(before, sqrt);
  }
}
