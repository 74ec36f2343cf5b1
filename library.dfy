/**
 * The library as C runs it: one object whose fields are the static globals
 * of the wrapper (the configuration variables, `seed_value`, `backup_last`,
 * the two flags), plus the process memory and the record of calls to the
 * underlying allocator, updated in place by the entry points in the same
 * order as the C code updates them.
 *
 * Each method is proved against the function of the same name in Allocator
 * (or Configuration): the new fields are the state that function returns,
 * and `exited` is set exactly when it returns Exited. The properties of
 * those functions, proved there, therefore hold of the object.
 */
module Library {
  import opened Bits
  import opened Results
  import opened Configuration
  import Lcg
  import opened Memory
  import opened Reserves
  import opened Allocator

  class Randomizer {
    /** The address of `backup_heap` and the environment, fixed for the life of the process. */
    const env: Env

    var alignBits: nat
    var alignSize: nat
    var alignMaskIn: nat
    var alignMaskOut: nat
    var randomBits: nat
    var seed: nat
    var backupLast: nat
    var initialized: bool
    var initializing: bool
    var mem: Mem
    var calls: seq<Call>
    /** Set when a call ends the process with `_exit (1)`; no entry point runs after that. */
    var exited: bool

    /** The globals as a value of the functional model. */
    function Snapshot(): State
      reads this
    {
      State(Config(alignBits, alignSize, alignMaskIn, alignMaskOut, randomBits),
            seed, backupLast, initialized, initializing, mem, calls)
    }

    /** The invariant of the functional model, read off the fields. */
    ghost predicate Valid()
      reads this
    {
      Allocator.Valid(env, Snapshot())
    }

    /** The call had outcome o: the process exited, or the fields are o's state and p is o's result. */
    ghost predicate Became(o: Outcome<(State, nat)>, p: nat)
      reads this
    {
      match o
      case Exited => exited
      case Returned((st, r)) => !exited && Snapshot() == st && p == r
    }

    /** As Became, for a call without a result. */
    ghost predicate BecameState(o: Outcome<State>)
      reads this
    {
      match o
      case Exited => exited
      case Returned(st) => !exited && Snapshot() == st
    }

    /** The globals at load time. */
    constructor (e: Env)
      requires EnvValid(e)
      ensures env == e && Snapshot() == Allocator.Initial(e) && !exited && Valid()
    {
      env := e;
      alignBits, alignSize, alignMaskIn, alignMaskOut := 0, BitsToSize(0), MaskIn(0), MaskOut(0);
      randomBits := 0;
      seed := 0;
      backupLast := e.backupHeap;
      initialized, initializing := false, false;
      mem := map[];
      calls := [];
      exited := false;
    }

    /** set_align_bits (ab): the width, then its size and both masks. */
    method SetAlignBits(ab: nat)
      requires ab < WordBits
      modifies this
      ensures Snapshot() == old(Snapshot()).(config := Configuration.SetAlignBits(old(Snapshot().config), ab))
      ensures old(Valid()) ==> Valid()
      ensures exited == old(exited)
    {
      alignBits := ab;
      alignSize := BitsToSize(ab);
      alignMaskIn := MaskIn(ab);
      alignMaskOut := MaskOut(ab);
    }

    /** set_random_bits (rb). */
    method SetRandomBits(rb: nat)
      requires rb <= Lcg.RandBits
      modifies this
      ensures Snapshot() == old(Snapshot()).(config := Configuration.SetRandomBits(old(Snapshot().config), rb))
      ensures old(Valid()) ==> Valid()
      ensures exited == old(exited)
    {
      randomBits := rb;
    }

    /** read_configuration: apply each width the environment sets. */
    method ReadConfiguration()
      requires EnvironmentValid(env.environment)
      modifies this
      ensures Snapshot() == old(Snapshot()).(config := Configuration.ReadConfiguration(env.environment, old(Snapshot().config)))
      ensures exited == old(exited)
    {
      if env.environment.alignBits.Some? {
        SetAlignBits(env.environment.alignBits.value);
      }
      if env.environment.randomBits.Some? {
        SetRandomBits(env.environment.randomBits.value);
      }
    }

    /** rand (bits): step the seed, then take the top bits of its low 31 bits; the value is below 2^bits. */
    method Rand(bits: nat) returns (result: nat)
      requires bits <= Lcg.RandBits
      modifies this
      ensures (Snapshot(), result) == Allocator.Rand(old(Snapshot()), bits)
      ensures result < Pow2(bits) && exited == old(exited)
    {
      ghost var st := Snapshot();
      RandSpec(st, bits);
      seed := (Lcg.Multiplier * seed + Lcg.Increment) % Word;
      assert Snapshot() == st.(seed := Lcg.Next(st.seed));
      result := ShiftRight(And(seed, MaskIn(Lcg.RandBits)), Lcg.RandBits - bits);
    }

    /** calculate_reserve (originalMaskOut): the three parts, the generator drawn once. */
    method CalculateReserve(originalMaskOut: nat) returns (reserve: nat)
      requires Configuration.Valid(Snapshot().config)
      modifies this
      ensures (Snapshot(), reserve) == Allocator.CalculateReserve(old(Snapshot()), originalMaskOut)
      ensures exited == old(exited)
    {
      var reserveBlockHeader := And(HeaderBytes + alignSize - 1, alignMaskOut);
      var reserveAlignment := And(alignMaskIn, originalMaskOut);
      var rnd := Rand(randomBits);
      var reserveRandom := And(rnd, alignMaskOut);
      reserve := Max(reserveBlockHeader, reserveAlignment) + reserveRandom;
    }

    /** backup_malloc (size): bump the cursor, exit when it leaves the backup heap, return its old value. */
    method BackupMalloc(size: nat) returns (block: nat)
      requires !exited
      modifies this
      ensures Became(Allocator.BackupMalloc(env, old(Snapshot()), size), block)
    {
      var sizeAligned := And(size + BackupAlignSize - 1, MaskOut(BackupAlignBits));
      block := backupLast;
      backupLast := (backupLast + sizeAligned) % Word;
      if !BackupPointer(env, backupLast) {
        exited := true;
      }
    }

    /** initialize (): exit when already initializing; otherwise read the configuration and set the flags. */
    method Initialize()
      requires EnvironmentValid(env.environment) && !exited
      modifies this
      ensures BecameState(Allocator.Initialize(env, old(Snapshot())))
    {
      if initializing {
        exited := true;
        return;
      }
      initializing := true;
      ReadConfiguration();
      initialized := true;
      initializing := false;
    }

    /**
     * The end of malloc: exit on a null block, otherwise write the header
     * below the aligned, shifted position and return that position.
     */
    method Place(block: nat, size: nat, reserve: nat) returns (p: nat)
      requires !exited
      modifies this
      ensures Became(Allocator.Place(old(Snapshot()), block, size, reserve), p)
    {
      if block == 0 {
        exited := true;
        return 0;
      }
      p := And(block + reserve, alignMaskOut);
      mem := WriteHeader(mem, p, block, size);
    }

    /** malloc while initializing: the reserve for the backup alignment, then backup_malloc. */
    method AllocateBackup(size: nat) returns (p: nat)
      requires Configuration.Valid(Snapshot().config) && !exited
      modifies this
      ensures Became(Allocator.AllocateBackup(env, old(Snapshot()), size), p)
    {
      var reserve := CalculateReserve(MaskOut(BackupAlignBits));
      ghost var st1 := Snapshot();
      assert Allocator.AllocateBackup(env, old(Snapshot()), size) == PlaceBackup(env, st1, size, reserve);
      var block := BackupMalloc(size + reserve);
      if exited {
        return 0;
      }
      p := Place(block, size, reserve);
    }

    /** malloc otherwise: the reserve for the standard alignment, then original_malloc, which answers raw. */
    method AllocateOriginal(size: nat, raw: nat) returns (p: nat)
      requires Configuration.Valid(Snapshot().config) && !exited
      modifies this
      ensures Became(Allocator.AllocateOriginal(old(Snapshot()), size, raw), p)
    {
      var reserve := CalculateReserve(MaskOut(MallocAlignBits));
      calls := calls + [OriginalMalloc(size + reserve, raw)];
      p := Place(raw, size, reserve);
    }

    /**
     * malloc (size), with original_malloc answering raw: initialize when
     * neither flag is set, then allocate from the backup heap while
     * initializing and from original_malloc otherwise. The fields become the
     * state of Allocator.Malloc, and the invariant is kept.
     */
    method Malloc(size: nat, raw: nat) returns (p: nat)
      requires Valid() && !exited
      modifies this
      ensures Became(Allocator.Malloc(env, old(Snapshot()), size, raw), p)
      ensures !exited ==> Valid()
    {
      ghost var st0 := Snapshot();
      MallocUnfold(env, st0, size, raw);
      ReadySpec(env, st0);
      if !initialized && !initializing {
        Initialize();
      }
      if initializing {
        p := AllocateBackup(size);
      } else {
        p := AllocateOriginal(size, raw);
      }
      MallocKeepsValid(env, st0, size, raw);
    }

    /** free (p): the state of Allocator.Free, and the invariant kept. */
    method Free(p: nat)
      requires Valid() && !exited
      modifies this
      ensures BecameState(Allocator.Free(env, old(Snapshot()), p))
      ensures !exited ==> Valid()
    {
      FreeSpec(env, Snapshot(), p);
      if !initialized {
        Initialize();
        if exited {
          return;
        }
      }
      if p == 0 || BackupPointer(env, p) {
        return;
      }
      var address := HeaderAddress(mem, p);
      calls := calls + [OriginalFree(address)];
    }

    /** realloc (p, n): malloc (n), copy min (old size, n) bytes, free (p). */
    method Realloc(p: nat, n: nat, raw: nat) returns (d: nat)
      requires Valid() && !exited
      modifies this
      ensures Became(Allocator.Realloc(env, old(Snapshot()), p, n, raw), d)
      ensures !exited ==> Valid()
    {
      if p == 0 {
        d := Malloc(n, raw);
        return;
      }
      var sourceSize := HeaderSize(mem, p);
      d := Malloc(n, raw);
      if exited {
        return;
      }
      mem := Copy(mem, d, p, Min(sourceSize, n));
      Free(p);
    }

    /** calloc (count, itemSize): malloc of the product modulo 2^64, then memset to zero. */
    method Calloc(count: nat, itemSize: nat, raw: nat) returns (d: nat)
      requires Valid() && !exited
      modifies this
      ensures Became(Allocator.Calloc(env, old(Snapshot()), count, itemSize, raw), d)
      ensures !exited ==> Valid()
    {
      var totalSize := (count * itemSize) % Word;
      d := Malloc(totalSize, raw);
      if exited {
        return;
      }
      mem := Fill(mem, d, 0, totalSize);
    }
  }
}
