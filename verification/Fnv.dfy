/** 64-bit FNV-1a and its seeded variant (crates/mnem-bench/src/embed.rs), as in
    section 2 of draft-eastlake-fnv. Words are numbers below 2^64 and wrap explicitly. */
module Fnv {
  import opened Bytes

  const WORDS := 0x1_0000_0000_0000_0000

  type Word = w: int | 0 <= w < 0x1_0000_0000_0000_0000

  const BASIS: Word := 0xcbf2_9ce4_8422_2325
  const PRIME: Word := 0x100_0000_01b3
  const PRIME_INVERSE: Word := 0xce96_5057_aff6_957b
  const SECOND_SEED: Word := 0x9E37_79B9_7F4A_7C15

  /** Bitwise exclusive or. */
  function Xor(a: nat, b: nat): nat {
    if a == 0 && b == 0 then 0 else BitXor(a % 2, b % 2) + 2 * Xor(a / 2, b / 2)
  }

  function BitXor(p: nat, q: nat): nat {
    if p == q then 0 else 1
  }

  lemma {:induction false} XorBound(a: nat, b: nat, bits: nat)
    requires a < Power(bits) && b < Power(bits)
    ensures Xor(a, b) < Power(bits)
  {
    if bits > 0 && (a != 0 || b != 0) { XorBound(a / 2, b / 2, bits - 1); }
  }

  function Power(bits: nat): nat {
    if bits == 0 then 1 else 2 * Power(bits - 1)
  }

  lemma {:induction false} XorTwice(a: nat, b: nat)
    ensures Xor(Xor(a, b), b) == a
  {
    if a != 0 || b != 0 {
      XorTwice(a / 2, b / 2);
      XorUnfolds(a, b);
      Halves(Xor(a, b), BitXor(a % 2, b % 2), Xor(a / 2, b / 2));
      XorUnfolds(Xor(a, b), b);
      BitXorTwice(a % 2, b % 2);
    }
  }

  lemma XorUnfolds(a: nat, b: nat)
    ensures Xor(a, b) == BitXor(a % 2, b % 2) + 2 * Xor(a / 2, b / 2)
  {
  }

  lemma BitXorTwice(p: nat, q: nat)
    requires p < 2 && q < 2
    ensures BitXor(p, q) < 2 && BitXor(BitXor(p, q), q) == p
  {
  }

  lemma Halves(n: nat, bit: nat, rest: nat)
    requires bit < 2 && n == bit + 2 * rest
    ensures n % 2 == bit && n / 2 == rest
  {
  }

  lemma {:induction false} XorFixesIff(a: nat, b: nat)
    ensures Xor(a, b) == a <==> b == 0
  {
    if a != 0 || b != 0 { XorFixesIff(a / 2, b / 2); }
  }

  lemma WordsIsPower()
    ensures Power(64) == WORDS
  {
    assert Power(8) == 256;
    PowerAdds(8, 8);
    PowerAdds(16, 16);
    PowerAdds(32, 32);
  }

  lemma {:induction false} PowerAdds(m: nat, n: nat)
    ensures Power(m + n) == Power(m) * Power(n)
  {
    if m > 0 { PowerAdds(m - 1, n); }
  }

  lemma XorFits(a: Word, b: Word)
    ensures Xor(a, b) < WORDS
  {
    WordsIsPower();
    XorBound(a, b, 64);
  }

  function XorWords(a: Word, b: Word): Word {
    XorFits(a, b); Xor(a, b)
  }

  function WrappingMul(a: Word, b: Word): Word {
    (a * b) % WORDS
  }

  function Absorb(h: Word, b: Byte): Word {
    WrappingMul(XorWords(h, b), PRIME)
  }

  /** The hash of bytes when started from state h. */
  function HashFrom(h: Word, bytes: seq<Byte>): Word {
    if bytes == [] then h else Absorb(HashFrom(h, bytes[..|bytes|-1]), bytes[|bytes|-1])
  }

  method Fnv1a(bytes: seq<Byte>) returns (h: Word)
    ensures h == HashFrom(BASIS, bytes)
    ensures bytes == [] ==> h == 0xcbf2_9ce4_8422_2325
  {
    h := Fold(BASIS, bytes);
  }

  method Fnv1aSeeded(bytes: seq<Byte>, seed: Word) returns (h: Word)
    ensures h == HashFrom(XorWords(BASIS, seed), bytes)
    ensures bytes == [] ==> h == Xor(0xcbf2_9ce4_8422_2325, seed)
  {
    h := Fold(XorWords(BASIS, seed), bytes);
  }

  /** The loop the two functions share. */
  method Fold(start: Word, bytes: seq<Byte>) returns (h: Word)
    ensures h == HashFrom(start, bytes)
  {
    h := start;
    for i := 0 to |bytes|
      invariant h == HashFrom(start, bytes[..i])
    {
      assert bytes[..i+1][..i] == bytes[..i];
      h := XorWords(h, bytes[i]);
      h := WrappingMul(h, PRIME);
    }
    assert bytes[..|bytes|] == bytes;
  }

  /** One more byte: xor into the low bits, then multiply, modulo 2^64. */
  lemma HashSnoc(h: Word, bytes: seq<Byte>, b: Byte)
    ensures HashFrom(h, bytes + [b]) == (Xor(HashFrom(h, bytes), b) * 0x100_0000_01b3) % 0x1_0000_0000_0000_0000
  {
    assert (bytes + [b])[..|bytes|] == bytes;
  }

  /** Bit i of an exclusive or says whether the bits differ. */
  lemma {:induction false} XorBit(a: nat, b: nat, i: nat)
    ensures Bit(Xor(a, b), i) <==> Bit(a, i) != Bit(b, i)
    decreases i
  {
    XorUnfolds(a, b);
    Halves(Xor(a, b), BitXor(a % 2, b % 2), Xor(a / 2, b / 2));
    if i > 0 { XorBit(a / 2, b / 2, i - 1); }
  }

  predicate Bit(n: nat, i: nat) {
    if i == 0 then n % 2 == 1 else Bit(n / 2, i - 1)
  }

  lemma XorLowByte(high: nat, low: nat, b: Byte)
    requires low < 256
    ensures Xor(256 * high + low, b) == 256 * high + Xor(low, b)
  {
    ShiftedXor(high, low, b, 8);
    assert Power(8) == 256;
  }

  lemma {:induction false} ShiftedXor(high: nat, low: nat, b: nat, bits: nat)
    requires low < Power(bits) && b < Power(bits)
    ensures Xor(Power(bits) * high + low, b) == Power(bits) * high + Xor(low, b)
  {
    if bits == 0 {
      XorZero(high);
    } else {
      var n := Power(bits - 1) * high;
      Doubled(Power(bits - 1), high);
      XorUnfolds(2 * n + low, b);
      XorUnfolds(low, b);
      ShiftedXor(high, low / 2, b / 2, bits - 1);
      assert (2 * n + low) / 2 == n + low / 2 && (2 * n + low) % 2 == low % 2;
    }
  }

  lemma Doubled(p: nat, n: nat)
    ensures (2 * p) * n == 2 * (p * n)
  {
  }

  lemma {:induction false} XorZero(a: nat)
    ensures Xor(a, 0) == a
  {
    if a != 0 { XorZero(a / 2); }
  }

  lemma XorOfA()
    ensures Xor(0x25, 0x61) == 0x44
  {
    XorUnfolds(0x25, 0x61);
    XorUnfolds(0x12, 0x30);
    XorUnfolds(0x09, 0x18);
    XorUnfolds(0x04, 0x0c);
    XorUnfolds(0x02, 0x06);
    XorUnfolds(0x01, 0x03);
    XorUnfolds(0x00, 0x01);
  }

  lemma ProductOfA()
    ensures (0xcbf2_9ce4_8422_2344 * 0x100_0000_01b3) % 0x1_0000_0000_0000_0000 == 0xaf63_dc4c_8601_ec8c
  {
    ModUnique(0xcbf2_9ce4_8422_2344 * 0x100_0000_01b3, 0xcbf29ce5de, 0xaf63_dc4c_8601_ec8c);
  }

  /** The hash of "a", as the draft lists it. */
  lemma HashOfA()
    ensures HashFrom(BASIS, [0x61]) == 0xaf63_dc4c_8601_ec8c
  {
    var empty: seq<Byte> := [];
    assert empty + [0x61] == [0x61] && HashFrom(BASIS, empty) == BASIS;
    HashSnoc(BASIS, empty, 0x61);
    XorLowByte(0xcb_f29c_e484_2223, 0x25, 0x61);
    XorOfA();
    ProductOfA();
  }

  // ---------- the state can be recovered ----------

  function Release(h: Word, b: Byte): Word {
    XorWords(WrappingMul(h, PRIME_INVERSE), b)
  }

  function StartOf(h: Word, bytes: seq<Byte>): Word
    decreases |bytes|
  {
    if bytes == [] then h else StartOf(Release(h, bytes[|bytes|-1]), bytes[..|bytes|-1])
  }

  /** Multiplying by p and then by its inverse modulo 2^64 gives the word back. */
  lemma MultiplierCancels(x: Word, p: Word, inverse: Word, q: nat)
    requires p * inverse == 1 + q * WORDS
    ensures WrappingMul(WrappingMul(x, p), inverse) == x
  {
    var a, r := (x * p) / WORDS, (x * p) % WORDS;
    assert x * p == a * WORDS + r;
    calc {
      r * inverse;
      (x * p - a * WORDS) * inverse;
      x * (p * inverse) - a * WORDS * inverse;
      x * (1 + q * WORDS) - a * WORDS * inverse;
      x + (x * q - a * inverse) * WORDS;
    }
    ModUnique(r * inverse, x * q - a * inverse, x);
  }

  lemma ModUnique(n: int, k: int, x: Word)
    requires n == x + k * WORDS
    ensures n % WORDS == x
  {
  }

  lemma PrimeCancels(x: Word)
    ensures WrappingMul(WrappingMul(x, PRIME), PRIME_INVERSE) == x
    ensures WrappingMul(WrappingMul(x, PRIME_INVERSE), PRIME) == x
  {
    assert PRIME * PRIME_INVERSE == 1 + 0xce9650590f * WORDS;
    MultiplierCancels(x, PRIME, PRIME_INVERSE, 0xce9650590f);
    MultiplierCancels(x, PRIME_INVERSE, PRIME, 0xce9650590f);
  }

  lemma ReleaseUndoesAbsorb(h: Word, b: Byte)
    ensures Release(Absorb(h, b), b) == h && Absorb(Release(h, b), b) == h
  {
    PrimeCancels(XorWords(h, b));
    XorTwice(h, b);
    XorTwice(WrappingMul(h, PRIME_INVERSE), b);
    PrimeCancels(h);
  }

  /** For each byte string, hashing is a bijection of the 64-bit states. */
  lemma {:induction false} HashingIsABijection(h: Word, bytes: seq<Byte>)
    ensures StartOf(HashFrom(h, bytes), bytes) == h
    ensures HashFrom(StartOf(h, bytes), bytes) == h
    decreases |bytes|
  {
    if bytes != [] {
      var front, last := bytes[..|bytes|-1], bytes[|bytes|-1];
      ReleaseUndoesAbsorb(HashFrom(h, front), last);
      ReleaseUndoesAbsorb(h, last);
      HashingIsABijection(h, front);
      HashingIsABijection(Release(h, last), front);
    }
  }

  /** The plain and the seeded hash of a string agree only for the zero seed. */
  lemma HashesAgreeIff(bytes: seq<Byte>, seed: Word)
    ensures HashFrom(BASIS, bytes) == HashFrom(XorWords(BASIS, seed), bytes) <==> seed == 0
  {
    HashingIsABijection(BASIS, bytes);
    HashingIsABijection(XorWords(BASIS, seed), bytes);
    XorFixesIff(BASIS, seed);
  }

  /** So the two hashes of a token, as the embedder seeds them, never coincide. */
  lemma TokenHashesDiffer(bytes: seq<Byte>)
    ensures HashFrom(BASIS, bytes) != HashFrom(XorWords(BASIS, SECOND_SEED), bytes)
  {
    HashesAgreeIff(bytes, SECOND_SEED);
  }
}
