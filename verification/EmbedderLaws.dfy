/** The embedding of a text is determined by its bag of tokens, and adds up. */
module EmbedderLaws {
  import opened RealVectors
  import opened Embedder
  import Ordering
  import Utf8
  import Fnv

  // ---------- tokenising ----------

  lemma {:induction false} PiecesConcat(u: Unicode, a: string, sep: char, b: string)
    requires !u.isAlphanumeric(sep)
    ensures Pieces(u, a + [sep] + b) == Pieces(u, a) + Pieces(u, b)
  {
    var whole := a + [sep] + b;
    if b == "" {
      assert whole[..|whole|-1] == a;
    } else {
      assert whole[..|whole|-1] == a + [sep] + b[..|b|-1];
      PiecesConcat(u, a, sep, b[..|b|-1]);
    }
  }

  lemma {:induction false} TokensConcat(u: Unicode, a: seq<string>, b: seq<string>)
    ensures TokensOf(u, a + b) == TokensOf(u, a) + TokensOf(u, b)
  {
    if b == [] {
      assert a + b == a;
    } else {
      assert (a + b)[..|a+b|-1] == a + b[..|b|-1];
      TokensConcat(u, a, b[..|b|-1]);
    }
  }

  /** Text joined by a separator has the tokens of its parts, in order. */
  lemma TokeniseConcat(u: Unicode, a: string, sep: char, b: string)
    requires !u.isAlphanumeric(sep)
    ensures Tokenise(u, a + [sep] + b) == Tokenise(u, a) + Tokenise(u, b)
  {
    PiecesConcat(u, a, sep, b);
    TokensConcat(u, Pieces(u, a), Pieces(u, b));
  }

  /** A token is the longest run of whole leading characters of its lowered word that fits. */
  lemma ShortenKeepsWholeCharacters(word: string) returns (n: nat)
    ensures n <= |word| && Shorten(Utf8.Encode(word)) == Utf8.Encode(word[..n])
    ensures |Utf8.Encode(word[..n])| <= MAX_TOKEN
    ensures forall k :: 0 <= k <= |word| && |Utf8.Encode(word[..k])| <= MAX_TOKEN
                        ==> |Utf8.Encode(word[..k])| <= |Utf8.Encode(word[..n])|
  {
    if |Utf8.Encode(word)| > MAX_TOKEN {
      n := Utf8.CutKeepsWholeCharacters(word, MAX_TOKEN);
    } else {
      n := |word|;
      assert word[..n] == word;
      forall k | 0 <= k <= |word| ensures |Utf8.Encode(word[..k])| <= |Utf8.Encode(word)| { Utf8.PrefixIsShorter(word, k); }
    }
  }

  ghost predicate AllWord(u: Unicode, w: string) {
    forall i :: 0 <= i < |w| ==> u.isAlphanumeric(w[i])
  }

  lemma {:induction false} PiecesOfWord(u: Unicode, w: string)
    requires AllWord(u, w)
    ensures Pieces(u, w) == [w]
  {
    if w != "" {
      PiecesOfWord(u, w[..|w|-1]);
      assert [w[..|w|-1]][..0] == [] && w[..|w|-1] + [w[|w|-1]] == w;
    }
  }

  /** A word gives one token, its lowered form cut to 64 bytes, unless it is a single byte or
      none. */
  lemma TokeniseWord(u: Unicode, w: string)
    requires AllWord(u, w)
    ensures |Utf8.Encode(w)| < 2 ==> Tokenise(u, w) == []
    ensures |Utf8.Encode(w)| >= 2 ==> |Tokenise(u, w)| == 1 && IsCutTo64(u.toLowercase(w), Tokenise(u, w)[0])
  {
    PiecesOfWord(u, w);
    OneToken(u, w);
    ShortenIsCut(u.toLowercase(w));
  }

  lemma OneToken(u: Unicode, w: string)
    ensures TokensOf(u, [w]) == if |Utf8.Encode(w)| < 2 then [] else [Shorten(Utf8.Encode(u.toLowercase(w)))]
  {
    assert [w][..0] == [];
  }

  lemma ShortenIsCut(word: string)
    ensures IsCutTo64(word, Shorten(Utf8.Encode(word)))
  {
    var n := ShortenKeepsWholeCharacters(word);
    assert IsLongest(word, n);
  }

  /** The first n characters are the longest run of leading characters within 64 bytes. */
  ghost predicate IsLongest(word: string, n: nat) {
    && n <= |word| && |Utf8.Encode(word[..n])| <= 64
    && forall k :: 0 <= k <= |word| && |Utf8.Encode(word[..k])| <= 64 ==> |Utf8.Encode(word[..k])| <= |Utf8.Encode(word[..n])|
  }

  ghost predicate IsCutTo64(word: string, token: Token) {
    exists n: nat :: IsLongest(word, n) && token == Utf8.Encode(word[..n])
  }

  // ---------- counting ----------

  /** The buckets of a token: FNV-1a, and FNV-1a seeded with the fractional part of the golden
      ratio, modulo the dimension. */
  lemma BucketsMean(dim: nat, t: Token)
    requires dim > 0
    ensures HashBuckets(dim)(t).0 == Fnv.HashFrom(0xcbf2_9ce4_8422_2325, t) % dim
    ensures HashBuckets(dim)(t).1 == Fnv.HashFrom(Fnv.XorWords(0xcbf2_9ce4_8422_2325, 0x9E37_79B9_7F4A_7C15), t) % dim
  {
  }

  /** One token adds one to each of its buckets, two if they are the same. */
  lemma CountOfOne(hash: Hashing, t: Token, i: nat)
    ensures Count(hash, [t], i) == (if hash(t).0 == i then 1.0 else 0.0) + (if hash(t).1 == i then 1.0 else 0.0)
    ensures Count(hash, [], i) == 0.0
  {
    assert [t][..0] == [];
  }

  lemma {:induction false} CountConcat(hash: Hashing, a: seq<Token>, b: seq<Token>, i: nat)
    ensures Count(hash, a + b, i) == Count(hash, a, i) + Count(hash, b, i)
  {
    if b == [] {
      assert a + b == a;
    } else {
      assert (a + b)[..|a+b|-1] == a + b[..|b|-1];
      CountConcat(hash, a, b[..|b|-1], i);
    }
  }

  /** Bucket counts of joined texts are the sums of the counts. */
  lemma CountsAdd(u: Unicode, dim: nat, a: string, sep: char, b: string, i: nat)
    requires dim > 0 && i < dim && !u.isAlphanumeric(sep)
    ensures Counts(HashBuckets(dim), dim, Tokenise(u, a + [sep] + b))[i]
         == Counts(HashBuckets(dim), dim, Tokenise(u, a))[i] + Counts(HashBuckets(dim), dim, Tokenise(u, b))[i]
  {
    TokeniseConcat(u, a, sep, b);
    CountConcat(HashBuckets(dim), Tokenise(u, a), Tokenise(u, b), i);
  }

  lemma {:induction false} CountIgnoresOrder(hash: Hashing, s: seq<Token>, t: seq<Token>, i: nat)
    requires multiset(s) == multiset(t)
    ensures Count(hash, s, i) == Count(hash, t, i)
  {
    if s == [] {
      assert |multiset(t)| == 0;
    } else {
      var x, front := s[|s|-1], s[..|s|-1];
      var a, b := Ordering.TakeOut(s, t);
      CountIgnoresOrder(hash, front, a + b, i);
      CountConcat(hash, a + [x], b, i);
      CountConcat(hash, a, [x], i);
      CountConcat(hash, a, b, i);
      CountConcat(hash, front, [x], i);
      assert s == front + [x];
    }
  }

  /** Texts with the same bag of tokens have the same embedding. */
  lemma EmbeddingIgnoresOrder(dim: nat, s: seq<Token>, t: seq<Token>, sqrt: real -> real)
    requires dim > 0 && multiset(s) == multiset(t)
    ensures Normalised(Counts(HashBuckets(dim), dim, s), sqrt) == Normalised(Counts(HashBuckets(dim), dim, t), sqrt)
  {
    var hash := HashBuckets(dim);
    forall i: nat | i < dim ensures Count(hash, s, i) == Count(hash, t, i) { CountIgnoresOrder(hash, s, t, i); }
    assert Counts(hash, dim, s) == Counts(hash, dim, t);
  }

  function Total(v: Vec, n: nat): real
    requires n <= |v|
  {
    if n == 0 then 0.0 else Total(v, n - 1) + v[n-1]
  }

  function HitTotal(bucket: nat, n: nat): real {
    if n == 0 then 0.0 else HitTotal(bucket, n - 1) + Hit(bucket, n - 1)
  }

  lemma {:induction false} HitTotalIsOne(bucket: nat, n: nat)
    ensures HitTotal(bucket, n) == if bucket < n then 1.0 else 0.0
  {
    if n > 0 { HitTotalIsOne(bucket, n - 1); }
  }

  lemma {:induction false} TotalGrows(hash: Hashing, dim: nat, tokens: seq<Token>, n: nat)
    requires tokens != [] && n <= dim
    ensures var (b1, b2) := hash(tokens[|tokens|-1]);
            Total(Counts(hash, dim, tokens), n)
              == Total(Counts(hash, dim, tokens[..|tokens|-1]), n) + HitTotal(b1, n) + HitTotal(b2, n)
  {
    if n > 0 { TotalGrows(hash, dim, tokens, n - 1); }
  }

  lemma {:induction false} EmptyTotal(hash: Hashing, dim: nat, n: nat)
    requires n <= dim
    ensures Total(Counts(hash, dim, []), n) == 0.0
  {
    if n > 0 { EmptyTotal(hash, dim, n - 1); }
  }

  ghost predicate InRange(hash: Hashing, dim: nat) {
    forall t :: hash(t).0 < dim && hash(t).1 < dim
  }

  lemma {:induction false} TotalIsTwicePerToken(hash: Hashing, dim: nat, tokens: seq<Token>)
    requires InRange(hash, dim)
    ensures Total(Counts(hash, dim, tokens), dim) == 2.0 * (|tokens| as real)
  {
    if tokens == [] {
      EmptyTotal(hash, dim, dim);
    } else {
      var t := tokens[|tokens|-1];
      TotalIsTwicePerToken(hash, dim, tokens[..|tokens|-1]);
      TotalGrows(hash, dim, tokens, dim);
      HitTotalIsOne(hash(t).0, dim);
      HitTotalIsOne(hash(t).1, dim);
    }
  }

  lemma BucketsAreInRange(dim: nat)
    requires dim > 0
    ensures InRange(HashBuckets(dim), dim)
  {
  }

  /** Nothing is lost in the buckets: they hold two units per token. */
  lemma CountsSumToTwicePerToken(dim: nat, tokens: seq<Token>)
    requires dim > 0
    ensures Total(Counts(HashBuckets(dim), dim, tokens), dim) == 2.0 * (|tokens| as real)
  {
    BucketsAreInRange(dim);
    TotalIsTwicePerToken(HashBuckets(dim), dim, tokens);
  }

  // ---------- normalising ----------

  lemma {:induction false} CountIsNonNegative(hash: Hashing, tokens: seq<Token>, i: nat)
    ensures 0.0 <= Count(hash, tokens, i)
    ensures tokens != [] && hash(tokens[|tokens|-1]).0 == i ==> 0.0 < Count(hash, tokens, i)
  {
    if tokens != [] { CountIsNonNegative(hash, tokens[..|tokens|-1], i); }
  }

  /** The embedding has length one, except that text without tokens embeds to zero. */
  lemma EmbeddingIsUnitIff(dim: nat, tokens: seq<Token>, sqrt: real -> real)
    requires dim > 0 && IsSqrt(sqrt)
    ensures Unit(Normalised(Counts(HashBuckets(dim), dim, tokens), sqrt)) <==> tokens != []
    ensures tokens == [] ==> forall x :: x in Normalised(Counts(HashBuckets(dim), dim, tokens), sqrt) ==> x == 0.0
  {
    var hash := HashBuckets(dim);
    BucketsAreInRange(dim);
    UnitIff(hash, dim, tokens, sqrt);
  }

  lemma UnitIff(hash: Hashing, dim: nat, tokens: seq<Token>, sqrt: real -> real)
    requires InRange(hash, dim) && IsSqrt(sqrt)
    ensures Unit(Normalised(Counts(hash, dim, tokens), sqrt)) <==> tokens != []
    ensures tokens == [] ==> forall x :: x in Normalised(Counts(hash, dim, tokens), sqrt) ==> x == 0.0
  {
    var v := Counts(hash, dim, tokens);
    if tokens == [] {
      ZeroDot(v, v, dim);
      ZeroRoot(sqrt);
    } else {
      var i := hash(tokens[|tokens|-1]).0;
      CountIsNonNegative(hash, tokens, i);
      DotSelfPositive(v, dim, i);
      NormalisedIsUnit(v, sqrt);
    }
  }

  lemma ZeroRoot(sqrt: real -> real)
    requires IsSqrt(sqrt)
    ensures sqrt(0.0) == 0.0
  {
    if sqrt(0.0) > 0.0 { PositiveSquare(sqrt(0.0)); }
  }

  lemma NormalisedIsUnit(v: Vec, sqrt: real -> real)
    requires IsSqrt(sqrt) && 0.0 < Dot(v, v)
    ensures Unit(Normalised(v, sqrt))
  {
    var s, norm := Dot(v, v), sqrt(Dot(v, v));
    assert norm * norm == s;
    assert norm > 0.0;
    var w, inverse := Normalised(v, sqrt), 1.0 / norm;
    forall i | 0 <= i < |v| ensures w[i] == Scale(inverse, v)[i] { QuotientIsProduct(v[i], norm); }
    assert w == Scale(inverse, v);
    DotScales(inverse, v, v, |v|);
    DotScales(inverse, v, w, |v|);
    InverseSquare(s, norm, inverse);
  }

  /** Every count is divided by the norm of the counts. */
  lemma NormalisedMeans(v: Vec, sqrt: real -> real, i: nat)
    requires IsSqrt(sqrt) && i < |v|
    ensures |Normalised(v, sqrt)| == |v|
    ensures sqrt(Dot(v, v)) != 0.0 ==> Normalised(v, sqrt)[i] == v[i] / sqrt(Dot(v, v))
    ensures sqrt(Dot(v, v)) == 0.0 ==> Normalised(v, sqrt)[i] == v[i]
  {
    DotSelfNonNegative(v, |v|);
  }

  lemma QuotientIsProduct(x: real, y: real)
    requires y > 0.0
    ensures x / y == x * (1.0 / y)
  {
    var p, q := x / y, 1.0 / y;
    assert p * y == x && q * y == 1.0;
    assert (x * q) * y == x;
  }

}
