/** Exact real arithmetic on embedding vectors: the sums that the similarity,
    distance and normalisation loops accumulate, and the identities between them. */
module RealVectors {

  type Vec = seq<real>

  /** Square roots are a parameter of everything that needs them: this is all that is asked. */
  ghost predicate IsSqrt(sqrt: real -> real) {
    forall x :: 0.0 <= x ==> 0.0 <= sqrt(x) && sqrt(x) * sqrt(x) == x
  }

  function Common(a: Vec, b: Vec): nat {
    if |a| <= |b| then |a| else |b|
  }

  function DotTo(a: Vec, b: Vec, n: nat): real
    requires n <= Common(a, b)
  {
    if n == 0 then 0.0 else DotTo(a, b, n - 1) + a[n-1] * b[n-1]
  }

  function Dot(a: Vec, b: Vec): real {
    DotTo(a, b, Common(a, b))
  }

  function SqDistTo(a: Vec, b: Vec, n: nat): real
    requires n <= Common(a, b)
  {
    if n == 0 then 0.0 else SqDistTo(a, b, n - 1) + (a[n-1] - b[n-1]) * (a[n-1] - b[n-1])
  }

  function SqDist(a: Vec, b: Vec): real {
    SqDistTo(a, b, Common(a, b))
  }

  ghost predicate Unit(a: Vec) {
    Dot(a, a) == 1.0
  }

  function Scale(c: real, a: Vec): Vec {
    seq(|a|, i requires 0 <= i < |a| => a[i] * c)
  }

  lemma IsScaled(c: real, a: Vec, w: Vec)
    requires |w| == |a| && forall i :: 0 <= i < |a| ==> w[i] == a[i] * c
    ensures w == Scale(c, a)
  {
    forall i | 0 <= i < |a| ensures w[i] == Scale(c, a)[i] {}
  }

  lemma {:induction false} SqDistExpands(a: Vec, b: Vec, n: nat)
    requires n <= Common(a, b)
    ensures SqDistTo(a, b, n) == DotTo(a, a, n) + DotTo(b, b, n) - 2.0 * DotTo(a, b, n)
  {
    if n > 0 {
      SqDistExpands(a, b, n - 1);
      var x, y := a[n-1], b[n-1];
      assert (x - y) * (x - y) == x * x + y * y - 2.0 * (x * y);
    }
  }

  lemma SquareNonNegative(x: real)
    ensures 0.0 <= x * x
  {
  }

  function Square(x: real): real {
    x * x
  }

  lemma PositiveSquare(x: real)
    requires 0.0 < x
    ensures 0.0 < Square(x)
  {
    var z := Square(x);
    assert z / x == x;
  }

  lemma NonZeroSquare(x: real)
    requires x != 0.0
    ensures 0.0 < Square(x)
  {
    if 0.0 < x {
      PositiveSquare(x);
    } else {
      PositiveSquare(-x);
      SquareOfNegation(x);
    }
  }

  lemma SquareOfNegation(x: real)
    ensures Square(-x) == Square(x)
  {
  }

  lemma SquareMonotone(x: real, y: real)
    requires 0.0 <= x <= y
    ensures x * x <= y * y
  {
    assert x * x <= x * y <= y * y;
  }

  lemma {:induction false} SqDistNonNegative(a: Vec, b: Vec, n: nat)
    requires n <= Common(a, b)
    ensures 0.0 <= SqDistTo(a, b, n)
  {
    if n > 0 {
      SqDistNonNegative(a, b, n - 1);
      SquareNonNegative(a[n-1] - b[n-1]);
    }
  }

  lemma {:induction false} DotSelfNonNegative(a: Vec, n: nat)
    requires n <= |a|
    ensures 0.0 <= DotTo(a, a, n)
  {
    if n > 0 {
      DotSelfNonNegative(a, n - 1);
      SquareNonNegative(a[n-1]);
    }
  }

  /** A vector with a non-zero coordinate has a positive square sum. */
  lemma {:induction false} DotSelfPositive(a: Vec, n: nat, i: nat)
    requires i < n <= |a| && a[i] != 0.0
    ensures 0.0 < DotTo(a, a, n)
  {
    if i == n - 1 {
      DotSelfNonNegative(a, n - 1);
      NonZeroSquare(a[i]);
      assert DotTo(a, a, n) == DotTo(a, a, n - 1) + Square(a[i]);
    } else {
      DotSelfPositive(a, n - 1, i);
      SquareNonNegative(a[n-1]);
    }
  }

  lemma {:induction false} DotScales(c: real, a: Vec, b: Vec, n: nat)
    requires n <= Common(a, b)
    ensures DotTo(Scale(c, a), b, n) == c * DotTo(a, b, n)
    ensures DotTo(b, Scale(c, a), n) == c * DotTo(b, a, n)
  {
    if n > 0 {
      DotScales(c, a, b, n - 1);
      var x, y, d, e := a[n-1], b[n-1], DotTo(a, b, n - 1), DotTo(b, a, n - 1);
      assert (x * c) * y == c * (x * y);
      assert y * (x * c) == c * (y * x);
      assert c * (d + x * y) == c * d + c * (x * y);
      assert c * (e + y * x) == c * e + c * (y * x);
    }
  }

  /** Unit vectors of one dimension: squared distance determines the cosine. */
  lemma UnitDistance(a: Vec, b: Vec)
    requires |a| == |b| && Unit(a) && Unit(b)
    ensures SqDist(a, b) == 2.0 - 2.0 * Dot(a, b)
  {
    SqDistExpands(a, b, |a|);
  }

  /** Cauchy-Schwarz for unit vectors. */
  lemma UnitDotBounds(a: Vec, b: Vec)
    requires |a| == |b| && Unit(a) && Unit(b)
    ensures -1.0 <= Dot(a, b) <= 1.0
  {
    UnitDistance(a, b);
    SqDistNonNegative(a, b, |a|);
    var m := Scale(-1.0, b);
    DotScales(-1.0, b, b, |b|);
    DotScales(-1.0, b, m, |b|);
    DotScales(-1.0, b, a, |b|);
    UnitDistance(a, m);
    SqDistNonNegative(a, m, |a|);
  }

  lemma SqrtMonotone(sqrt: real -> real, x: real, y: real)
    requires IsSqrt(sqrt) && 0.0 <= x < y
    ensures sqrt(x) < sqrt(y)
  {
    var u, v := sqrt(x), sqrt(y);
    if v <= u { SquareMonotone(v, u); }
  }

  ghost predicate IsZero(v: Vec) {
    forall i :: 0 <= i < |v| ==> v[i] == 0.0
  }

  lemma {:induction false} ZeroDot(v: Vec, w: Vec, n: nat)
    requires n <= Common(v, w) && IsZero(v)
    ensures DotTo(v, w, n) == 0.0 && DotTo(w, v, n) == 0.0
  {
    if n > 0 { ZeroDot(v, w, n - 1); }
  }

  lemma InverseSquare(s: real, norm: real, inverse: real)
    requires norm > 0.0 && norm * norm == s && inverse * norm == 1.0
    ensures inverse * (inverse * s) == 1.0
  {
    assert inverse * (inverse * (norm * norm)) == (inverse * norm) * (inverse * norm);
  }
}
