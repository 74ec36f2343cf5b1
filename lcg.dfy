/**
 * The library's seeded pseudo-random generator: a linear congruential
 * generator whose state is the global `seed_value` and whose output is the
 * top `bits` bits of the low 31 bits of the state just computed.
 */
module Lcg {
  import opened Bits

  /** RAND_BITS: the generator yields at most 31 bits. */
  const RandBits: nat := 31
  /** RAND_SEED: the multiplier of the recurrence. */
  const Multiplier: nat := 1103515245
  /** RAND_INC: the increment of the recurrence. */
  const Increment: nat := 12345

  /**
   * One step of the recurrence, seed_value = 1103515245u * seed_value + 12345u,
   * in the width of `uint_fast32_t`, which is 64 bits on LP64 glibc.
   */
  function Next(seed: nat): (r: nat)
    ensures r < Word
  {
    (Multiplier * seed + Increment) % Word
  }

  /**
   * The value `rand` returns, (seed & BITS_TO_MASK_IN(31)) >> (31 - bits): the
   * top `bits` bits of the low 31 bits of the state, below 2^bits, and 0 for
   * bits == 0.
   */
  function Output(seed: nat, bits: nat): (r: nat)
    requires bits <= RandBits
    ensures r == (seed % Pow2(RandBits)) / Pow2(RandBits - bits)
    ensures r < Pow2(bits)
    ensures bits == 0 ==> r == 0
  {
    MaskInSelects(seed, RandBits);
    Pow2Add(bits, RandBits - bits);
    DivMod(seed, Pow2(RandBits));
    DivBelow(seed % Pow2(RandBits), Pow2(bits), Pow2(RandBits - bits));
    ShiftRight(And(seed, MaskIn(RandBits)), RandBits - bits)
  }

  /** Only the low 31 bits of the state before a step determine the output after it. */
  lemma StepKeepsLowBits(seed: nat)
    ensures Next(seed) % Pow2(RandBits) == (Multiplier * (seed % Pow2(RandBits)) + Increment) % Pow2(RandBits)
  {
    var p, y := Pow2(RandBits), Multiplier * seed + Increment;
    Pow2Add(RandBits, 33);
    Pow2Word();
    ModMod(y, p, Pow2(33));
    AffineMod(Multiplier, Increment, seed, p);
  }

  /** Two states that agree on their low 31 bits produce the same next output. */
  lemma OutputDependsOnLowBits(s: nat, t: nat, bits: nat)
    requires bits <= RandBits && s % Pow2(RandBits) == t % Pow2(RandBits)
    ensures Output(Next(s), bits) == Output(Next(t), bits)
  {
    StepKeepsLowBits(s);
    StepKeepsLowBits(t);
  }

  /** One step of the recurrence with the state kept in w bits. */
  function StepIn(seed: nat, w: nat): nat
  {
    (Multiplier * seed + Increment) % Pow2(w)
  }

  /**
   * A state kept in a width w from 31 to 64 bits (a 32-bit `uint_fast32_t`,
   * or a state reduced modulo 2^31) that agrees with the 64-bit state on its
   * low 31 bits yields the same output after the next step, and the two
   * states still agree on their low 31 bits after it.
   */
  lemma OutputIndependentOfWidth(s: nat, t: nat, w: nat, bits: nat)
    requires RandBits <= w <= WordBits && bits <= RandBits
    requires s % Pow2(RandBits) == t % Pow2(RandBits)
    ensures Output(StepIn(s, w), bits) == Output(Next(t), bits)
    ensures StepIn(s, w) % Pow2(RandBits) == Next(t) % Pow2(RandBits)
  {
    var y := Multiplier * s + Increment;
    ReductionKeepsLowBits(y, w);
    AffineMod(Multiplier, Increment, s, Pow2(RandBits));
    StepKeepsLowBits(t);
    SameLowBitsSameOutput(y % Pow2(w), Next(t), bits);
  }

  /** The outputs of n successive calls rand (bits) from the state seed kept in w bits. */
  function Draws(seed: nat, w: nat, bits: nat, n: nat): (r: seq<nat>)
    requires bits <= RandBits
    ensures |r| == n
    ensures forall i :: 0 <= i < n ==> r[i] < Pow2(bits)
    decreases n
  {
    if n == 0 then []
    else
      var next := StepIn(seed, w);
      [Output(next, bits)] + Draws(next, w, bits, n - 1)
  }

  /**
   * Over a whole run, a state kept in any width from 31 to 64 bits draws the
   * same values as the 64-bit state, provided the two start out agreeing on
   * their low 31 bits (as the initial seed 0 does in every width).
   */
  lemma {:induction false} DrawsIndependentOfWidth(s: nat, t: nat, w: nat, bits: nat, n: nat)
    requires RandBits <= w <= WordBits && bits <= RandBits
    requires s % Pow2(RandBits) == t % Pow2(RandBits)
    ensures Draws(s, w, bits, n) == Draws(t, WordBits, bits, n)
    decreases n
  {
    if n > 0 {
      var s1, t1 := StepIn(s, w), StepIn(t, WordBits);
      StepInWord(t);
      OutputIndependentOfWidth(s, t, w, bits);
      DrawsIndependentOfWidth(s1, t1, w, bits, n - 1);
      assert Draws(s, w, bits, n) == [Output(s1, bits)] + Draws(s1, w, bits, n - 1);
      assert Draws(t, WordBits, bits, n) == [Output(t1, bits)] + Draws(t1, WordBits, bits, n - 1);
    }
  }

  /** A step in 64 bits is the step of the recurrence. */
  lemma StepInWord(t: nat)
    ensures StepIn(t, WordBits) == Next(t)
  {
    Pow2Word();
  }

  /** Reducing modulo 2^w, for w at least 31, keeps the low 31 bits. */
  lemma ReductionKeepsLowBits(y: nat, w: nat)
    requires RandBits <= w
    ensures (y % Pow2(w)) % Pow2(RandBits) == y % Pow2(RandBits)
  {
    Pow2Add(RandBits, w - RandBits);
    ModMod(y, Pow2(RandBits), Pow2(w - RandBits));
  }

  /** The output reads only the low 31 bits of the state. */
  lemma SameLowBitsSameOutput(s: nat, t: nat, bits: nat)
    requires bits <= RandBits && s % Pow2(RandBits) == t % Pow2(RandBits)
    ensures Output(s, bits) == Output(t, bits)
  {
  }
}
