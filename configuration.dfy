/**
 * The library configuration: the alignment width with its cached size and
 * masks (`align_bits`, `align_size`, `align_mask_in`, `align_mask_out`) and
 * the randomization width (`random_bits`), with `set_align_bits`,
 * `set_random_bits` and the part of `read_configuration` that applies the
 * two environment values.
 */
module Configuration {
  import opened Bits
  import opened Results
  import Lcg

  datatype Config = Config(alignBits: nat, alignSize: nat, alignMaskIn: nat, alignMaskOut: nat, randomBits: nat)

  /**
   * The cached values agree with the alignment width; both widths are in the
   * range where the shifts in the library are defined.
   */
  predicate Valid(c: Config)
  {
    && c.alignBits < WordBits
    && c.alignSize == BitsToSize(c.alignBits)
    && c.alignMaskIn == MaskIn(c.alignBits)
    && c.alignMaskOut == MaskOut(c.alignBits)
    && c.randomBits <= Lcg.RandBits
  }

  /** The static initial values: no alignment and no randomization. */
  function Initial(): (c: Config)
    ensures Valid(c) && c.alignBits == 0 && c.randomBits == 0 && c.alignSize == 1
  {
    Config(0, BitsToSize(0), MaskIn(0), MaskOut(0), 0)
  }

  /** set_align_bits (ab). */
  function SetAlignBits(c: Config, ab: nat): (r: Config)
    requires ab < WordBits
    ensures c.randomBits <= Lcg.RandBits ==> Valid(r)
    ensures r.alignBits == ab && r.randomBits == c.randomBits
  {
    c.(alignBits := ab, alignSize := BitsToSize(ab), alignMaskIn := MaskIn(ab), alignMaskOut := MaskOut(ab))
  }

  /** set_random_bits (rb). */
  function SetRandomBits(c: Config, rb: nat): (r: Config)
    requires rb <= Lcg.RandBits
    ensures Valid(c) ==> Valid(r)
    ensures r.randomBits == rb && r.alignBits == c.alignBits
  {
    c.(randomBits := rb)
  }

  /**
   * The values of AR_ALIGN_BITS and AR_RANDOM_BITS as `atoi` yields them,
   * None when the variable is unset.
   */
  datatype Environment = Environment(alignBits: Option<nat>, randomBits: Option<nat>)

  predicate EnvironmentValid(env: Environment)
  {
    && (env.alignBits.Some? ==> env.alignBits.value < WordBits)
    && (env.randomBits.Some? ==> env.randomBits.value <= Lcg.RandBits)
  }

  /** read_configuration: each width that the environment sets is applied, the other is kept. */
  function ReadConfiguration(env: Environment, c: Config): (r: Config)
    requires EnvironmentValid(env)
    ensures Valid(c) ==> Valid(r)
  {
    var c1 := if env.alignBits.Some? then SetAlignBits(c, env.alignBits.value) else c;
    if env.randomBits.Some? then SetRandomBits(c1, env.randomBits.value) else c1
  }

  /**
   * After set_align_bits (ab): align_size is 2^ab, align_mask_in is one less,
   * align_mask_out is its complement, and masking a word with align_mask_out
   * gives the largest multiple of align_size that does not exceed it.
   */
  lemma SetAlignBitsMasks(c: Config, ab: nat, x: nat)
    requires ab < WordBits && x < Word
    ensures var r := SetAlignBits(c, ab);
      && r.alignSize == Pow2(ab)
      && r.alignMaskIn == r.alignSize - 1
      && r.alignMaskIn + r.alignMaskOut == Word - 1
      && And(x, r.alignMaskOut) % r.alignSize == 0
      && And(x, r.alignMaskOut) <= x < And(x, r.alignMaskOut) + r.alignSize
      && forall m: nat :: m % r.alignSize == 0 && m <= x ==> m <= And(x, r.alignMaskOut)
  {
    Pow2Word();
    MaskedPointerIsFloor(x, ab);
  }

  /** read_configuration sets exactly the widths whose variables are present. */
  lemma ReadConfigurationApplies(env: Environment, c: Config)
    requires EnvironmentValid(env)
    ensures var r := ReadConfiguration(env, c);
      && r.alignBits == (if env.alignBits.Some? then env.alignBits.value else c.alignBits)
      && r.randomBits == (if env.randomBits.Some? then env.randomBits.value else c.randomBits)
      && (env.alignBits.None? ==> r.alignSize == c.alignSize && r.alignMaskIn == c.alignMaskIn && r.alignMaskOut == c.alignMaskOut)
  {
  }
}
