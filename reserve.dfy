/**
 * The arithmetic of `calculate_reserve`: the extra bytes `malloc` requests
 * beyond the caller's size (header reserve, alignment reserve and random
 * reserve), and the placement of the user pointer inside the raw block.
 */
module Reserves {
  import opened Bits
  import opened Configuration
  import Lcg
  import opened Memory

  /** MALLOC_ALIGN_BITS (and BACKUP_ALIGN_BITS): the standard heap and the backup heap align blocks to 2^4 bytes. */
  const MallocAlignBits: nat := 4
  /** 2^MALLOC_ALIGN_BITS: every block `original_malloc` returns is a multiple of it. */
  const MallocAlignSize: nat := 16

  /** MAX (a, b). */
  function Max(a: nat, b: nat): nat
  {
    if a > b then a else b
  }

  /** MIN (a, b). */
  function Min(a: nat, b: nat): nat
  {
    if a < b then a else b
  }

  /** Part one: (sizeof (block_header_t) + align_size - 1) & align_mask_out. */
  function HeaderReserve(c: Config): nat
  {
    And(HeaderBytes + c.alignSize - 1, c.alignMaskOut)
  }

  /** Part two: align_mask_in & original_align_mask_out. */
  function AlignmentReserve(c: Config, originalMaskOut: nat): nat
  {
    And(c.alignMaskIn, originalMaskOut)
  }

  /** Part three: rand (random_bits) & align_mask_out, for the generator output rnd. */
  function RandomReserve(c: Config, rnd: nat): nat
  {
    And(rnd, c.alignMaskOut)
  }

  /** The value `calculate_reserve` returns when the generator yields rnd. */
  function Reserve(c: Config, originalMaskOut: nat, rnd: nat): nat
  {
    Max(HeaderReserve(c), AlignmentReserve(c, originalMaskOut)) + RandomReserve(c, rnd)
  }

  /** An upper bound (exclusive) on every reserve under configuration c. */
  function ReserveLimit(c: Config): nat
  {
    Max(HeaderBytes, c.alignSize) + Pow2(c.randomBits)
  }

  /** The header reserve is the smallest multiple of align_size that holds a header: max(16, align_size). */
  lemma HeaderReserveIsSmallestMultiple(c: Config)
    requires Valid(c)
    ensures HeaderReserve(c) == Max(HeaderBytes, c.alignSize)
    ensures HeaderReserve(c) % c.alignSize == 0
    ensures HeaderBytes <= HeaderReserve(c) < HeaderBytes + c.alignSize
  {
    var a, p := c.alignBits, c.alignSize;
    Pow2Word();
    Pow2Monotone(a + 1, WordBits);
    MaskOutClears(HeaderBytes + p - 1, a);
    if a <= MallocAlignBits {
      SmallHeaderRemainder(a);
    } else {
      LargeHeaderRemainder(a);
    }
  }

  /** For 2^a <= 16: 2^a divides 16, and 16 + 2^a - 1 leaves 2^a - 1. */
  lemma SmallHeaderRemainder(a: nat)
    requires a <= MallocAlignBits
    ensures var p := Pow2(a);
      p <= HeaderBytes && HeaderBytes % p == 0 && (HeaderBytes + p - 1) % p == p - 1
  {
    var p := Pow2(a);
    Pow2Add(a, MallocAlignBits - a);
    assert Pow2(MallocAlignBits) == HeaderBytes;
    var q := Pow2(MallocAlignBits - a);
    assert HeaderBytes == p * q;
    DivModUnique(HeaderBytes + p - 1, p, q, p - 1);
    DivModUnique(HeaderBytes, p, q, 0);
    MulMonotone(p, q);
  }

  /** For 2^a > 16: 2^a is at least 32, and 16 + 2^a - 1 leaves 15. */
  lemma LargeHeaderRemainder(a: nat)
    requires a > MallocAlignBits
    ensures var p := Pow2(a);
      p >= 2 * HeaderBytes && p % p == 0 && (HeaderBytes + p - 1) % p == HeaderBytes - 1
  {
    var p := Pow2(a);
    Pow2Monotone(MallocAlignBits + 1, a);
    assert Pow2(MallocAlignBits + 1) == 2 * HeaderBytes;
    DivModUnique(HeaderBytes + p - 1, p, 1, HeaderBytes - 1);
    DivModUnique(p, p, 1, 0);
  }

  /**
   * With original_align_mask_out = ~(2^b - 1), the alignment reserve is the
   * worst-case gap 2^a - 2^b when a >= b and 0 when a < b.
   */
  lemma AlignmentReserveValue(c: Config, b: nat)
    requires Valid(c) && b < WordBits
    ensures AlignmentReserve(c, MaskOut(b)) == if c.alignBits >= b then c.alignSize - Pow2(b) else 0
  {
    var a := c.alignBits;
    var x := Pow2(a) - 1;
    assert c.alignMaskIn == x && c.alignSize == Pow2(a);
    MaskOutClears(x, b);
    if a >= b {
      LowMaskRemainder(a, b);
    } else {
      Pow2Monotone(a, b);
      DivModUnique(x, Pow2(b), 0, x);
    }
  }

  /** 2^a - 1 leaves the remainder 2^b - 1 modulo 2^b when b <= a. */
  lemma LowMaskRemainder(a: nat, b: nat)
    requires b <= a
    ensures (Pow2(a) - 1) % Pow2(b) == Pow2(b) - 1
  {
    var p, q := Pow2(b), Pow2(a - b);
    Pow2Add(b, a - b);
    MulPred(p, q);
    DivModUnique(Pow2(a) - 1, p, q - 1, p - 1);
  }

  /** The random reserve is the generator output rounded down to a multiple of align_size. */
  lemma RandomReserveValue(c: Config, rnd: nat)
    requires Valid(c) && rnd < Word
    ensures RandomReserve(c, rnd) % c.alignSize == 0
    ensures RandomReserve(c, rnd) <= rnd < RandomReserve(c, rnd) + c.alignSize
  {
    MaskedPointerIsFloor(rnd, c.alignBits);
  }

  /** The generator width keeps every drawn value below 2^31 and below a word. */
  lemma RandomWidth(c: Config)
    requires Valid(c)
    ensures Pow2(c.randomBits) <= Pow2(Lcg.RandBits) < Word
  {
    Pow2Monotone(c.randomBits, Lcg.RandBits);
    Pow2Monotone(Lcg.RandBits + 1, WordBits);
    Pow2Word();
  }

  /**
   * The alignment reserve never exceeds the header reserve, so the reserve is
   * the header reserve plus the random reserve: at least 16, a multiple of
   * align_size, and below ReserveLimit. With no alignment and no
   * randomization it is exactly one header.
   */
  lemma ReserveValue(c: Config, b: nat, rnd: nat)
    requires Valid(c) && b < WordBits && rnd < Pow2(c.randomBits)
    ensures AlignmentReserve(c, MaskOut(b)) < HeaderReserve(c)
    ensures Reserve(c, MaskOut(b), rnd) == HeaderReserve(c) + RandomReserve(c, rnd)
    ensures Reserve(c, MaskOut(b), rnd) % c.alignSize == 0
    ensures HeaderBytes <= Reserve(c, MaskOut(b), rnd) < ReserveLimit(c)
    ensures c.alignBits == 0 && c.randomBits == 0 ==> Reserve(c, MaskOut(b), rnd) == HeaderBytes
  {
    ReserveSplit(c, b, rnd);
    HeaderReserveIsSmallestMultiple(c);
    RandomWidth(c);
    RandomReserveValue(c, rnd);
    AddMultiples(HeaderReserve(c), RandomReserve(c, rnd), c.alignSize);
    if c.alignBits == 0 && c.randomBits == 0 {
      assert rnd == 0;
    }
  }

  /**
   * With 16 alignment bits, no randomization and a baseline of 8 bits, the
   * alignment reserve is 2^16 - 2^8, but the reserve is the larger header
   * reserve, 2^16.
   */
  lemma WideAlignmentReserve(c: Config, rnd: nat)
    requires Valid(c) && c.alignBits == 16 && c.randomBits == 0 && rnd < Pow2(c.randomBits)
    ensures AlignmentReserve(c, MaskOut(8)) == 0x1_0000 - 0x100
    ensures Reserve(c, MaskOut(8), rnd) == 0x1_0000
  {
    Pow2Add(8, 8);
    assert Pow2(8) == 0x100;
    AlignmentReserveValue(c, 8);
    HeaderReserveIsSmallestMultiple(c);
    ReserveValue(c, 8, rnd);
    assert rnd == 0;
  }

  /** A 16-aligned o leaves a remainder modulo a larger multiple p of 16 that is 16-aligned and at most p - 16. */
  lemma AlignedRemainder(o: nat, p: nat)
    requires o % MallocAlignSize == 0 && p % MallocAlignSize == 0 && p >= MallocAlignSize
    ensures o % p % MallocAlignSize == 0 && o % p + MallocAlignSize <= p
  {
    DivMod(o, p);
    DivMod(o, MallocAlignSize);
    DivMod(p, MallocAlignSize);
    var q, r := o / p, o % p;
    var k, m := o / MallocAlignSize, p / MallocAlignSize;
    assert o == MallocAlignSize * k && p == MallocAlignSize * m;
    assert p * q == MallocAlignSize * (m * q);
    assert r == MallocAlignSize * (k - m * q);
    DivModUnique(r, MallocAlignSize, k - m * q, 0);
    MultiplesOrdered(MallocAlignSize, r, p - MallocAlignSize);
  }

  /**
   * The placement in `malloc`: for a 16-aligned raw block o and a reserve R
   * from calculate_reserve (~15), the shifted pointer s = (o + R) & align_mask_out
   * is a multiple of align_size with o + 16 <= s <= o + R, so the header fits
   * between o and s and s + size stays within the o + size + R bytes requested.
   */
  lemma ShiftedBlockLayout(c: Config, o: nat, rnd: nat)
    requires Valid(c) && o % MallocAlignSize == 0 && rnd < Pow2(c.randomBits)
    requires o + Reserve(c, MaskOut(MallocAlignBits), rnd) < Word
    ensures var s := And(o + Reserve(c, MaskOut(MallocAlignBits), rnd), c.alignMaskOut);
      && s % c.alignSize == 0
      && o + HeaderBytes <= s <= o + Reserve(c, MaskOut(MallocAlignBits), rnd)
  {
    var R := Reserve(c, MaskOut(MallocAlignBits), rnd);
    var r := RandomReserve(c, rnd);
    assert R == HeaderReserve(c) + r && r % c.alignSize == 0 by {
      ReserveSplit(c, MallocAlignBits, rnd);
    }
    // A multiple of align_size between o + 16 and o + R bounds the floor from below.
    var m := AlignedBelow(c, o, r);
    FloorAbove(o + R, c.alignBits, m);
  }

  /** The reserve is the header reserve plus the random reserve, a multiple of align_size. */
  lemma ReserveSplit(c: Config, b: nat, rnd: nat)
    requires Valid(c) && b < WordBits && rnd < Pow2(c.randomBits)
    ensures AlignmentReserve(c, MaskOut(b)) < HeaderReserve(c)
    ensures Reserve(c, MaskOut(b), rnd) == HeaderReserve(c) + RandomReserve(c, rnd)
    ensures RandomReserve(c, rnd) % c.alignSize == 0
  {
    HeaderReserveIsSmallestMultiple(c);
    AlignmentReserveValue(c, b);
    RandomWidth(c);
    RandomReserveValue(c, rnd);
  }

  /** There is a multiple of align_size between o + 16 and o plus the header reserve plus r. */
  lemma AlignedBelow(c: Config, o: nat, r: nat) returns (m: nat)
    requires Valid(c) && o % MallocAlignSize == 0 && r % c.alignSize == 0
    ensures m % Pow2(c.alignBits) == 0 && o + HeaderBytes <= m <= o + HeaderReserve(c) + r
  {
    var a, p := c.alignBits, c.alignSize;
    HeaderReserveIsSmallestMultiple(c);
    assert Pow2(MallocAlignBits) == HeaderBytes;
    if a <= MallocAlignBits {
      // The header reserve is 16 and align_size divides 16, so o + 16 + r itself is aligned.
      Pow2Monotone(a, MallocAlignBits);
      assert HeaderReserve(c) == HeaderBytes;
      Pow2Divides(a, MallocAlignBits);
      SmallAlignment(o, p, r);
      m := o + HeaderBytes + r;
    } else {
      // The header reserve is align_size; rounding o down loses at most align_size - 16.
      Pow2Monotone(MallocAlignBits, a);
      assert HeaderReserve(c) == p;
      Pow2Divides(MallocAlignBits, a);
      m := LargeAlignment(o, p, r);
    }
  }

  /**
   * With align_size p dividing both the 16-byte alignment and the 16-byte
   * header, a 16-aligned o plus the header plus a multiple of p is a multiple of p.
   */
  lemma SmallAlignment(o: nat, p: nat, r: nat)
    requires p > 0 && o % MallocAlignSize == 0 && MallocAlignSize % p == 0 && HeaderBytes % p == 0 && r % p == 0
    ensures (o + HeaderBytes + r) % p == 0
  {
    MultipleOfDivisor(o, MallocAlignSize, p);
    AddMultiples(o, HeaderBytes, p);
    AddMultiples(o + HeaderBytes, r, p);
  }

  /**
   * With align_size p a multiple of the 16-byte alignment and at least one
   * header, the multiple of p just past a 16-aligned o, plus r, lies between
   * o + 16 and o + p + r.
   */
  lemma LargeAlignment(o: nat, p: nat, r: nat) returns (m: nat)
    requires p >= HeaderBytes && o % MallocAlignSize == 0 && p % MallocAlignSize == 0 && r % p == 0
    ensures m % p == 0 && o + HeaderBytes <= m <= o + p + r
  {
    AlignedRemainder(o, p);
    DivMod(o, p);
    var f := o - o % p;
    DivModUnique(f, p, o / p, 0);
    DivModUnique(p, p, 1, 0);
    AddMultiples(f, p, p);
    AddMultiples(f + p, r, p);
    m := f + p + r;
  }
}
