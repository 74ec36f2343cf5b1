/**
 * Unsigned machine-word arithmetic on naturals: powers of two, the C bitwise
 * AND, complement and right shift on a 64-bit word (LP64 `uintptr_t` and
 * `size_t`), and the BITS_TO_SIZE / BITS_TO_MASK_IN / BITS_TO_MASK_OUT /
 * MASKED_POINTER macros built from them.
 */
module Bits {

  /** Width of `uintptr_t` and `size_t` on an LP64 platform. */
  const WordBits: nat := 64
  /** 2^64: every `uintptr_t` and `size_t` value is below it. */
  const Word: nat := 0x1_0000_0000_0000_0000

  function Pow2(n: nat): (r: nat)
    ensures r > 0
  {
    if n == 0 then 1 else 2 * Pow2(n - 1)
  }

  /** The C operator `&` on unsigned operands, bit by bit from the least significant one; it never exceeds its first operand. */
  function And(x: nat, y: nat): (r: nat)
    ensures r <= x
    decreases x
  {
    if x == 0 || y == 0 then 0
    else 2 * And(x / 2, y / 2) + (if x % 2 == 1 && y % 2 == 1 then 1 else 0)
  }

  /**
   * The C operator `~` on a word: the bitwise complement. x and ~x share no
   * set bit, and together they fill the word.
   */
  function Not(x: nat): (r: nat)
    requires x < Word
    ensures r < Word && x + r == Word - 1
    ensures And(x, r) == 0
  {
    NotSplits(x);
    Word - 1 - x
  }

  /** x and ~x split every word y into y & x and y & ~x. */
  lemma NotIsComplement(x: nat, y: nat)
    requires x < Word && y < Word
    ensures And(y, x) + And(y, Not(x)) == y
  {
    NotSplits(x);
  }

  /** The C operator `>>` on an unsigned operand: shifting right by k bits divides by 2^k. */
  function ShiftRight(x: nat, k: nat): (r: nat)
    ensures r == x / Pow2(k)
  {
    if k == 0 then x
    else
      HalveThenDivide(x, Pow2(k - 1));
      ShiftRight(x / 2, k - 1)
  }

  /** Halving and then dividing by q is dividing by 2q. */
  lemma HalveThenDivide(x: nat, q: nat)
    requires q > 0
    ensures (x / 2) / q == x / (2 * q)
  {
    var h := x / 2;
    var a, b := h / q, h % q;
    DivMod(h, q);
    assert x == 2 * h + x % 2;
    assert 2 * h == (2 * q) * a + 2 * b;
    DivModUnique(x, 2 * q, a, 2 * b + x % 2);
  }

  /** BITS_TO_SIZE(n) = (size_t) 1 << n; the shift is defined for n < 64. */
  function BitsToSize(n: nat): (r: nat)
    requires n < WordBits
    ensures r == Pow2(n) && r < Word
  {
    Pow2Monotone(n + 1, WordBits);
    Pow2Word();
    Pow2(n)
  }

  /** BITS_TO_MASK_IN(n) = (1 << n) - 1: the n low bits set. */
  function MaskIn(n: nat): (r: nat)
    requires n < WordBits
    ensures r < Word && r + 1 == Pow2(n)
  {
    BitsToSize(n) - 1
  }

  /** BITS_TO_MASK_OUT(n) = ~BITS_TO_MASK_IN(n): every bit but the n low ones set. */
  function MaskOut(n: nat): (r: nat)
    requires n < WordBits
    ensures r + Pow2(n) == Word
  {
    Pow2Word();
    Not(MaskIn(n))
  }

  // ---------------------------------------------------------------------
  // Powers of two

  lemma {:induction false} Pow2Add(a: nat, b: nat)
    ensures Pow2(a + b) == Pow2(a) * Pow2(b)
  {
    if a > 0 {
      Pow2Add(a - 1, b);
      assert Pow2(a + b) == 2 * Pow2(a - 1 + b);
    }
  }

  lemma Pow2Monotone(a: nat, b: nat)
    requires a <= b
    ensures Pow2(a) <= Pow2(b)
  {
    Pow2Add(a, b - a);
    MulMonotone(Pow2(a), Pow2(b - a));
  }

  lemma MulMonotone(x: nat, k: nat)
    requires k > 0
    ensures x <= x * k
  {
  }

  /** Pow2(a) divides Pow2(b) when a <= b. */
  lemma Pow2Divides(a: nat, b: nat)
    requires a <= b
    ensures Pow2(b) % Pow2(a) == 0
  {
    Pow2Add(a, b - a);
    DivModUnique(Pow2(b), Pow2(a), Pow2(b - a), 0);
  }

  lemma Pow2Word()
    ensures Pow2(64) == Word
  {
    assert Pow2(2) == 4;
    Pow2Add(2, 2);
    assert Pow2(4) == 16;
    Pow2Add(4, 4);
    assert Pow2(8) == 0x100;
    Pow2Add(8, 8);
    assert Pow2(16) == 0x1_0000;
    Pow2Add(16, 16);
    assert Pow2(32) == 0x1_0000_0000;
    Pow2Add(32, 32);
  }

  // ---------------------------------------------------------------------
  // Division facts used by the bit-level lemmas

  /** Multiplying by a larger natural adds at least one more m. */
  lemma {:induction false} MulStep(m: nat, a: nat, b: nat)
    requires a < b
    ensures m * a + m <= m * b
    decreases b - a
  {
    if a + 1 < b {
      MulStep(m, a, b - 1);
    }
    assert m * b == m * (b - 1) + m;
  }

  /** Multiplication by a natural is monotone in the other factor. */
  lemma MulMonotone2(m: nat, a: nat, b: nat)
    requires a <= b
    ensures m * a <= m * b
  {
    if a < b {
      MulStep(m, a, b);
    }
  }

  /** m times (q - 1) is m * q - m. */
  lemma MulPred(m: nat, q: nat)
    requires q > 0
    ensures m * (q - 1) == m * q - m
  {
  }

  /** Euclidean division is determined by its quotient and remainder. */
  lemma DivModUnique(x: nat, m: nat, q: nat, t: nat)
    requires m > 0 && t < m && x == m * q + t
    ensures x / m == q && x % m == t
  {
    var q', t' := x / m, x % m;
    assert x == m * q' + t';
    if q' > q {
      MulStep(m, q, q');
      assert false;
    } else if q' < q {
      MulStep(m, q', q);
      assert false;
    }
  }

  /** The defining equation of Euclidean division. */
  lemma DivMod(x: nat, p: nat)
    requires p > 0
    ensures x == p * (x / p) + x % p && x % p < p
  {
  }

  /** Adding a multiple of p does not change a remainder modulo p. */
  lemma ModAddMultiple(y: nat, p: nat, k: nat)
    requires p > 0
    ensures (p * k + y) % p == y % p
  {
    DivMod(y, p);
    assert p * k + y == p * (k + y / p) + y % p;
    DivModUnique(p * k + y, p, k + y / p, y % p);
  }

  /** An affine map s |-> a * s + c commutes with reduction modulo p. */
  lemma AffineMod(a: nat, c: nat, s: nat, p: nat)
    requires p > 0
    ensures (a * s + c) % p == (a * (s % p) + c) % p
  {
    var q, r := s / p, s % p;
    DivMod(s, p);
    var k: nat := a * q;
    assert a * s + c == p * k + (a * r + c);
    ModAddMultiple(a * r + c, p, k);
  }

  /** Reducing modulo a multiple of p first does not change the remainder modulo p. */
  lemma ModMod(y: nat, p: nat, k: nat)
    requires p > 0 && k > 0
    ensures (y % (p * k)) % p == y % p
  {
    DivMod(y, p * k);
    assert y == p * (k * (y / (p * k))) + y % (p * k);
    ModAddMultiple(y % (p * k), p, k * (y / (p * k)));
  }

  /** A quotient of a value below p * q by q is below p. */
  lemma DivBelow(x: nat, p: nat, q: nat)
    requires q > 0 && x < p * q
    ensures x / q < p
  {
    DivMod(x, q);
    if x / q >= p {
      MulMonotone2(q, p, x / q);
      assert false;
    }
  }

  /** The sum of two multiples of p is a multiple of p. */
  lemma AddMultiples(x: nat, y: nat, p: nat)
    requires p > 0 && x % p == 0 && y % p == 0
    ensures (x + y) % p == 0
  {
    DivMod(x, p);
    DivMod(y, p);
    assert x + y == p * (x / p + y / p);
    DivModUnique(x + y, p, x / p + y / p, 0);
  }

  /** A multiple of m is a multiple of every divisor of m. */
  lemma MultipleOfDivisor(x: nat, m: nat, p: nat)
    requires m > 0 && p > 0 && x % m == 0 && m % p == 0
    ensures x % p == 0
  {
    DivMod(x, m);
    DivMod(m, p);
    var i, j := x / m, m / p;
    assert x == m * i && m == p * j;
    assert x == p * (j * i);
    DivModUnique(x, p, j * i, 0);
  }

  /** Splitting off the lowest bit: x mod 2p is twice (x / 2) mod p plus x's low bit. */
  lemma ModSplit(x: nat, p: nat)
    requires p > 0
    ensures x % (2 * p) == 2 * ((x / 2) % p) + x % 2
  {
    var h := x / 2;
    assert x == 2 * h + x % 2;
    assert h == p * (h / p) + h % p;
    assert x == (2 * p) * (h / p) + (2 * (h % p) + x % 2);
    DivModUnique(x, 2 * p, h / p, 2 * (h % p) + x % 2);
  }

  /** Two multiples of p less than p apart in the given order are ordered. */
  lemma MultiplesOrdered(p: nat, m: nat, r: nat)
    requires p > 0 && m % p == 0 && r % p == 0 && m < r + p
    ensures m <= r
  {
    var i, j := m / p, r / p;
    assert m == p * i + m % p;
    assert r == p * j + r % p;
    if i > j {
      MulStep(p, j, i);
      assert false;
    }
  }

  // ---------------------------------------------------------------------
  // AND with the masks

  /** One step of And: the low bit of the result is the AND of the low bits. */
  lemma AndStep(x: nat, y: nat)
    requires x > 0 && y > 0
    ensures And(x, y) == 2 * And(x / 2, y / 2) + (if x % 2 == 1 && y % 2 == 1 then 1 else 0)
  {
  }

  /** 2^n - 1 halves to 2^(n-1) - 1 and is odd. */
  lemma HalveLowMask(n: nat)
    requires n > 0
    ensures Pow2(n) - 1 > 0 && (Pow2(n) - 1) / 2 == Pow2(n - 1) - 1 && (Pow2(n) - 1) % 2 == 1
  {
  }

  /** 2^n - 2^a halves to 2^(n-1) - 2^(a-1) and is even. */
  lemma HalveHighMask(n: nat, a: nat)
    requires 0 < a < n
    ensures Pow2(a) < Pow2(n) && (Pow2(n) - Pow2(a)) / 2 == Pow2(n - 1) - Pow2(a - 1)
    ensures (Pow2(n) - Pow2(a)) % 2 == 0 && Pow2(a - 1) <= Pow2(n - 1)
  {
    Pow2Monotone(a, n - 1);
  }

  /** x & (2^n - 1) keeps the n low bits: it is x mod 2^n. */
  lemma {:induction false} AndLowBits(x: nat, n: nat)
    ensures And(x, Pow2(n) - 1) == x % Pow2(n)
  {
    if n > 0 && x > 0 {
      var q := Pow2(n - 1);
      HalveLowMask(n);
      AndStep(x, Pow2(n) - 1);
      assert And(x, Pow2(n) - 1) == 2 * And(x / 2, q - 1) + x % 2;
      AndLowBits(x / 2, n - 1);
      LowBitsStep(x, q, And(x / 2, q - 1), Pow2(n));
    } else if n > 0 {
      assert And(x, Pow2(n) - 1) == 0;
      DivModUnique(0, Pow2(n), 0, 0);
    } else {
      assert Pow2(n) == 1 && And(x, 0) == 0;
    }
  }

  /** The step of AndLowBits: the low bit followed by the n - 1 bits above it. */
  lemma LowBitsStep(x: nat, q: nat, a: nat, p: nat)
    requires q > 0 && a == (x / 2) % q && p == 2 * q
    ensures 2 * a + x % 2 == x % p
  {
    ModSplit(x, q);
  }

  /** For x below 2^n, x & (2^n - 2^a) clears the a low bits: it is x minus x mod 2^a. */
  lemma {:induction false} AndHighBits(x: nat, n: nat, a: nat)
    requires a <= n && Pow2(a) <= Pow2(n) && x < Pow2(n)
    ensures And(x, Pow2(n) - Pow2(a)) == x - x % Pow2(a)
  {
    if a == 0 || a == n || x == 0 {
      AndHighBitsBase(x, n, a);
    } else {
      HighBitsHalve(x, n, a);
      AndHighBits(x / 2, n - 1, a - 1);
      HighBitsCombine(x, n, a);
    }
  }

  /** The recursive case of AndHighBits applies to x / 2, n - 1 and a - 1. */
  lemma HighBitsHalve(x: nat, n: nat, a: nat)
    requires 0 < a < n && x < Pow2(n)
    ensures Pow2(a - 1) <= Pow2(n - 1) && x / 2 < Pow2(n - 1)
  {
    HalveHighMask(n, a);
    DivBelow(x, Pow2(n - 1), 2);
  }

  /** The recursive case of AndHighBits: the result for x / 2 gives the result for x. */
  lemma HighBitsCombine(x: nat, n: nat, a: nat)
    requires 0 < a < n && x > 0 && Pow2(a - 1) <= Pow2(n - 1)
    requires And(x / 2, Pow2(n - 1) - Pow2(a - 1)) == x / 2 - (x / 2) % Pow2(a - 1)
    ensures And(x, Pow2(n) - Pow2(a)) == x - x % Pow2(a)
  {
    HalveHighMask(n, a);
    AndStep(x, Pow2(n) - Pow2(a));
    assert And(x, Pow2(n) - Pow2(a)) == 2 * And(x / 2, Pow2(n - 1) - Pow2(a - 1));
    HighBitsStep(x, Pow2(a - 1), Pow2(a));
  }

  /** AndHighBits when the mask is all of the low n bits, or empty, or x is zero. */
  lemma AndHighBitsBase(x: nat, n: nat, a: nat)
    requires a <= n && Pow2(a) <= Pow2(n) && x < Pow2(n) && (a == 0 || a == n || x == 0)
    ensures And(x, Pow2(n) - Pow2(a)) == x - x % Pow2(a)
  {
    if a == 0 {
      AndLowBits(x, n);
      DivModUnique(x, Pow2(n), 0, x);
    } else if a == n {
      DivModUnique(x, Pow2(n), 0, x);
    } else {
      DivModUnique(0, Pow2(a), 0, 0);
    }
  }

  /** The step of AndHighBits: clearing the a - 1 low bits of x / 2 and shifting back clears the a low bits of x. */
  lemma HighBitsStep(x: nat, q: nat, p: nat)
    requires q > 0 && p == 2 * q
    ensures 2 * (x / 2 - (x / 2) % q) == x - x % p
  {
    ModSplit(x, q);
  }

  /** x & BITS_TO_MASK_IN(n) is x mod 2^n. */
  lemma MaskInSelects(x: nat, n: nat)
    requires n < WordBits
    ensures And(x, MaskIn(n)) == x % Pow2(n)
  {
    AndLowBits(x, n);
  }

  /** For a word x, x & BITS_TO_MASK_OUT(n) is x minus x mod 2^n. */
  lemma MaskOutClears(x: nat, n: nat)
    requires n < WordBits && x < Word
    ensures And(x, MaskOut(n)) == x - x % Pow2(n)
  {
    Pow2Word();
    Pow2Monotone(n, 64);
    AndHighBits(x, 64, n);
  }

  /** MASKED_POINTER(x, BITS_TO_MASK_OUT(n)) is the largest multiple of 2^n that is at most x. */
  lemma MaskedPointerIsFloor(x: nat, n: nat)
    requires n < WordBits && x < Word
    ensures var r := And(x, MaskOut(n));
      r % Pow2(n) == 0 && r <= x < r + Pow2(n) &&
      forall m: nat :: m % Pow2(n) == 0 && m <= x ==> m <= r
  {
    var r, p := And(x, MaskOut(n)), Pow2(n);
    MaskOutClears(x, n);
    DivMod(x, p);
    DivModUnique(r, p, x / p, 0);
    forall m: nat | m % Pow2(n) == 0 && m <= x
      ensures m <= r
    {
      MultiplesOrdered(Pow2(n), m, r);
    }
  }

  /** Any multiple of 2^n at most x lies at or below MASKED_POINTER (x, BITS_TO_MASK_OUT (n)). */
  lemma FloorAbove(x: nat, n: nat, m: nat)
    requires n < WordBits && x < Word && m % Pow2(n) == 0 && m <= x
    ensures m <= And(x, MaskOut(n)) <= x && And(x, MaskOut(n)) % Pow2(n) == 0
  {
    MaskedPointerIsFloor(x, n);
  }

  /** MASKED_POINTER(x, BITS_TO_MASK_IN(n)) is zero exactly when x is a multiple of 2^n. */
  lemma MaskedPointerAligned(x: nat, n: nat)
    requires n < WordBits
    ensures And(x, MaskIn(n)) == 0 <==> x % Pow2(n) == 0
  {
    MaskInSelects(x, n);
  }

  /** AND with a multiple of 2^n is a multiple of 2^n, whatever the other operand. */
  lemma {:induction false} AndKeepsMultiple(x: nat, y: nat, n: nat)
    requires y % Pow2(n) == 0
    ensures And(x, y) % Pow2(n) == 0
  {
    if n > 0 && x > 0 && y > 0 {
      var q := Pow2(n - 1);
      assert Pow2(n) == 2 * q;
      HalveMultiple(y, q);
      AndKeepsMultiple(x / 2, y / 2, n - 1);
      AndStep(x, y);
      assert And(x, y) == 2 * And(x / 2, y / 2);
      DoubleMultiple(And(x / 2, y / 2), q);
    } else if n == 0 {
      assert Pow2(0) == 1;
    } else {
      assert And(x, y) == 0;
    }
  }

  /** The step of And holds for every pair of operands, zero included. */
  lemma AndStepAll(x: nat, y: nat)
    ensures And(x, y) == 2 * And(x / 2, y / 2) + (if x % 2 == 1 && y % 2 == 1 then 1 else 0)
  {
    if x == 0 {
      assert And(x / 2, y / 2) == 0;
    } else if y == 0 {
      assert And(x / 2, y / 2) == 0;
    }
  }

  /** x & x is x. */
  lemma {:induction false} AndSelf(x: nat)
    ensures And(x, x) == x
  {
    if x > 0 {
      AndSelf(x / 2);
      AndStep(x, x);
    }
  }

  /**
   * For x below 2^n, the masks x and 2^n - 1 - x (the complement of x in n
   * bits) split the n low bits of every y between them.
   */
  lemma {:induction false} ComplementSplits(y: nat, x: nat, n: nat)
    requires x < Pow2(n)
    ensures And(y, x) + And(y, Pow2(n) - 1 - x) == y % Pow2(n)
  {
    var z := Pow2(n) - 1 - x;
    if n == 0 {
      assert x == 0 && z == 0;
    } else {
      var q := Pow2(n - 1);
      assert Pow2(n) == 2 * q;
      DivBelow(x, q, 2);
      assert x == 2 * (x / 2) + x % 2;
      assert z == 2 * (q - 1 - x / 2) + (1 - x % 2);
      assert z / 2 == q - 1 - x / 2 && z % 2 == 1 - x % 2;
      ComplementSplits(y / 2, x / 2, n - 1);
      AndStepAll(y, x);
      AndStepAll(y, z);
      ModSplit(y, q);
    }
  }

  /** The word complement of x shares no bit with x and splits every word with it. */
  lemma NotSplits(x: nat)
    requires x < Word
    ensures And(x, Word - 1 - x) == 0
    ensures forall y: nat :: y < Word ==> And(y, x) + And(y, Word - 1 - x) == y
  {
    Pow2Word();
    forall y: nat | y < Word
      ensures And(y, x) + And(y, Word - 1 - x) == y
    {
      ComplementSplits(y, x, 64);
      DivModUnique(y, Word, 0, y);
    }
    AndSelf(x);
  }

  lemma HalveMultiple(y: nat, q: nat)
    requires q > 0 && y % (2 * q) == 0
    ensures y % 2 == 0 && (y / 2) % q == 0
  {
    ModSplit(y, q);
  }

  lemma DoubleMultiple(z: nat, q: nat)
    requires q > 0 && z % q == 0
    ensures (2 * z) % (2 * q) == 0
  {
    ModSplit(2 * z, q);
    assert (2 * z) / 2 == z;
  }
}
