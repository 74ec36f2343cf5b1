/**
 * The allocation wrapper as a function of the library state: the seeded
 * generator `rand`, `calculate_reserve`, the backup bump allocator
 * (`backup_pointer`, `backup_malloc`), `initialize` with its two flags, and
 * the interposed `malloc`, `free`, `realloc` and `calloc`.
 *
 * Every operation returns an Outcome: the new state with the C return value,
 * or Exited for a call that ends the process with `_exit (1)`. The underlying
 * allocator is an oracle: `malloc` receives the address `original_malloc`
 * returns as the parameter `raw`, and the calls made to `original_malloc`
 * and `original_free` are recorded in the state, in order.
 */
module Allocator {
  import opened Bits
  import opened Results
  import opened Configuration
  import Lcg
  import opened Memory
  import opened Reserves

  /** BACKUP_SIZE: bytes in the backup heap. */
  const BackupSize: nat := 16384
  /** BACKUP_ALIGN_BITS: the backup heap aligns blocks like the standard heap. */
  const BackupAlignBits: nat := MallocAlignBits
  /** BACKUP_ALIGN_SIZE: BITS_TO_SIZE (BACKUP_ALIGN_BITS), the alignment of `backup_heap` and of every backup block. */
  const BackupAlignSize: nat := BitsToSize(BackupAlignBits)

  /**
   * What is fixed for the life of the process: the address the linker gave
   * `backup_heap` and the values of the two environment variables.
   */
  datatype Env = Env(backupHeap: nat, environment: Environment)

  predicate EnvValid(e: Env)
  {
    && 0 < e.backupHeap
    && e.backupHeap % BackupAlignSize == 0
    && e.backupHeap + BackupSize <= Word
    && EnvironmentValid(e.environment)
  }

  /** A call the wrapper makes into the underlying allocator. */
  datatype Call = OriginalMalloc(size: nat, result: nat) | OriginalFree(address: nat)

  /**
   * The library's globals: the configuration, `seed_value`, `backup_last`,
   * the flags `initialized` and `initializing`, the process memory, and the
   * calls made so far to the underlying allocator.
   */
  datatype State = State(
    config: Config,
    seed: nat,
    backupLast: nat,
    initialized: bool,
    initializing: bool,
    mem: Mem,
    calls: seq<Call>)

  /**
   * The invariant the library keeps: a valid configuration, a 64-bit seed, a
   * 16-aligned backup cursor strictly inside the backup heap, and never both
   * flags set.
   */
  predicate Valid(e: Env, st: State)
  {
    && EnvValid(e)
    && Configuration.Valid(st.config)
    && st.seed < Word
    && e.backupHeap <= st.backupLast < e.backupHeap + BackupSize
    && st.backupLast % BackupAlignSize == 0
    && !(st.initialized && st.initializing)
  }

  /** The invariant does not constrain memory. */
  lemma ValidIgnoresMemory(e: Env, st: State, mem: Mem)
    requires Valid(e, st)
    ensures Valid(e, st.(mem := mem))
  {
  }

  /** The state at load time: static initial values, the cursor at the start of the backup heap. */
  function Initial(e: Env): (st: State)
    requires EnvValid(e)
    ensures Valid(e, st) && !st.initialized && !st.initializing && st.calls == []
  {
    State(Configuration.Initial(), 0, e.backupHeap, false, false, map[], [])
  }

  // ---------------------------------------------------------------------
  // Random generator

  /** rand (bits): one step of the generator, then the top `bits` bits of the low 31 bits of the new seed. */
  function Rand(st: State, bits: nat): (r: (State, nat))
    requires bits <= Lcg.RandBits
    ensures r.0 == st.(seed := r.0.seed) && r.0.seed < Word
    ensures r.1 < Pow2(bits)
  {
    var seed := Lcg.Next(st.seed);
    (st.(seed := seed), Lcg.Output(seed, bits))
  }

  /**
   * rand (bits) yields a value below 2^bits (0 for bits == 0) and changes only
   * the seed, by exactly one step of the recurrence.
   */
  lemma RandSpec(st: State, bits: nat)
    requires bits <= Lcg.RandBits
    ensures Rand(st, bits).0 == st.(seed := Lcg.Next(st.seed))
    ensures Rand(st, bits).1 < Pow2(bits)
    ensures bits == 0 ==> Rand(st, bits).1 == 0
  {

  }

  /**
   * Successive draws: the values n + 1 calls of rand (bits) return from st
   * are the value of the first call followed by those of n calls from the
   * state it leaves.
   */
  lemma RandDraws(st: State, bits: nat, n: nat)
    requires bits <= Lcg.RandBits
    ensures Lcg.Draws(st.seed, WordBits, bits, n + 1) == [Rand(st, bits).1] + Lcg.Draws(Rand(st, bits).0.seed, WordBits, bits, n)
  {
    Lcg.StepInWord(st.seed);
  }

  /** States whose seeds agree on the low 31 bits draw the same value and stay in agreement. */
  lemma RandDependsOnLowBits(st1: State, st2: State, bits: nat)
    requires bits <= Lcg.RandBits && st1.seed % Pow2(Lcg.RandBits) == st2.seed % Pow2(Lcg.RandBits)
    ensures Rand(st1, bits).1 == Rand(st2, bits).1
    ensures Rand(st1, bits).0.seed % Pow2(Lcg.RandBits) == Rand(st2, bits).0.seed % Pow2(Lcg.RandBits)
  {
    Lcg.OutputDependsOnLowBits(st1.seed, st2.seed, bits);
    Lcg.StepKeepsLowBits(st1.seed);
    Lcg.StepKeepsLowBits(st2.seed);
  }

  // ---------------------------------------------------------------------
  // calculate_reserve

  /** The generator value `calculate_reserve` draws in state st. */
  function Drawn(st: State): nat
    requires st.config.randomBits <= Lcg.RandBits
  {
    Lcg.Output(Lcg.Next(st.seed), st.config.randomBits)
  }

  /** The drawn value has random_bits bits. */
  lemma DrawnBound(st: State)
    requires st.config.randomBits <= Lcg.RandBits
    ensures Drawn(st) < Pow2(st.config.randomBits)
  {

  }

  /** calculate_reserve (original_align_mask_out): draws rand (random_bits) and combines the three parts. */
  function CalculateReserve(st: State, originalMaskOut: nat): (State, nat)
    requires Configuration.Valid(st.config)
  {
    var (st1, rnd) := Rand(st, st.config.randomBits);
    (st1, Reserve(st.config, originalMaskOut, rnd))
  }

  /**
   * calculate_reserve (~(2^b - 1)) advances the seed exactly once and returns
   * the header reserve plus the drawn value rounded down to align_size: a
   * multiple of align_size, at least 16, and below ReserveLimit.
   */
  lemma CalculateReserveSpec(st: State, b: nat)
    requires Configuration.Valid(st.config) && b < WordBits
    ensures var (st1, r) := CalculateReserve(st, MaskOut(b));
      && st1 == st.(seed := Lcg.Next(st.seed))
      && Drawn(st) < Pow2(st.config.randomBits)
      && r == Reserve(st.config, MaskOut(b), Drawn(st))
      && r == HeaderReserve(st.config) + RandomReserve(st.config, Drawn(st))
      && r % st.config.alignSize == 0
      && HeaderBytes <= r < ReserveLimit(st.config)
  {
    RandSpec(st, st.config.randomBits);
    ReserveValue(st.config, b, Drawn(st));
  }

  // ---------------------------------------------------------------------
  // Backup allocator

  /** backup_pointer (p): p lies inside the backup heap. */
  predicate BackupPointer(e: Env, p: nat)
  {
    e.backupHeap <= p < e.backupHeap + BackupSize
  }

  /** (size + BACKUP_ALIGN_SIZE - 1) & BACKUP_ALIGN_MASK_OUT. */
  function BackupAligned(size: nat): nat
  {
    And(size + BackupAlignSize - 1, MaskOut(BackupAlignBits))
  }

  /** The aligned size is the smallest multiple of 16 that is at least size. */
  lemma BackupAlignedValue(size: nat)
    requires size + BackupAlignSize - 1 < Word
    ensures BackupAligned(size) % BackupAlignSize == 0
    ensures size <= BackupAligned(size) < size + BackupAlignSize
  {
    MaskedPointerIsFloor(size + BackupAlignSize - 1, BackupAlignBits);
  }

  /**
   * `backup_last += size_aligned`: a pointer addition, so the cursor wraps
   * around modulo 2^64.
   */
  function BackupBump(last: nat, size: nat): (r: nat)
    ensures r < Word
    ensures last + BackupAligned(size) < Word ==> r == last + BackupAligned(size)
  {
    (last + BackupAligned(size)) % Word
  }

  /**
   * backup_malloc (size): bump the cursor by the aligned size and return its
   * old value; exit when the new cursor is not inside the backup heap.
   */
  function BackupMalloc(e: Env, st: State, size: nat): Outcome<(State, nat)>
  {
    var last := BackupBump(st.backupLast, size);
    if !BackupPointer(e, last) then Exited else Returned((st.(backupLast := last), st.backupLast))
  }

  /**
   * backup_malloc returns exactly when the bumped cursor, taken modulo 2^64,
   * lies inside the backup heap; without wrap-around that is when it stays
   * strictly below the end (a cursor landing exactly on the end exits). It
   * then returns the old cursor, a 16-aligned address inside the backup
   * heap, and changes nothing but the cursor. Without wrap-around there are
   * at least size bytes before the new cursor; with it, the new cursor lies
   * below the returned block.
   */
  lemma BackupMallocSpec(e: Env, st: State, size: nat)
    requires Valid(e, st) && size + BackupAlignSize - 1 < Word
    ensures BackupMalloc(e, st, size).Returned? <==> BackupPointer(e, BackupBump(st.backupLast, size))
    ensures st.backupLast + BackupAligned(size) < Word ==>
      (BackupMalloc(e, st, size).Returned? <==> st.backupLast + BackupAligned(size) < e.backupHeap + BackupSize)
    ensures BackupMalloc(e, st, size).Returned? ==>
      var (st1, block) := BackupMalloc(e, st, size).value;
      && block == st.backupLast
      && block % BackupAlignSize == 0 && BackupPointer(e, block)
      && st1 == st.(backupLast := BackupBump(st.backupLast, size))
      && Valid(e, st1)
      && (st.backupLast + BackupAligned(size) < Word ==> block + size <= st1.backupLast < block + size + BackupAlignSize)
      && (st.backupLast + BackupAligned(size) >= Word ==> st1.backupLast < block)
  {
    BackupAlignedValue(size);
    BumpKeepsAlignment(st.backupLast, size);
  }

  /** The bumped cursor of a 16-aligned cursor is 16-aligned, wrapped or not. */
  lemma BumpKeepsAlignment(last: nat, size: nat)
    requires last % BackupAlignSize == 0
    ensures BackupBump(last, size) % BackupAlignSize == 0
  {
    BackupAlignedAligned(size);
    AddMultiples(last, BackupAligned(size), BackupAlignSize);
    var x := last + BackupAligned(size);
    var q := x / Word;
    DivMod(x, Word);
    DivMod(x, BackupAlignSize);
    assert Word * q == BackupAlignSize * (0x1000_0000_0000_0000 * q);
    assert BackupBump(last, size) == BackupAlignSize * (x / BackupAlignSize - 0x1000_0000_0000_0000 * q);
    DivModUnique(BackupBump(last, size), BackupAlignSize, x / BackupAlignSize - 0x1000_0000_0000_0000 * q, 0);
  }

  /**
   * Two successive backup blocks do not overlap exactly when the first bump
   * does not wrap around: the second then starts where the first one's
   * bytes end or later, and otherwise it starts below the first.
   */
  lemma BackupBlocksDisjoint(e: Env, st: State, size1: nat, size2: nat)
    requires Valid(e, st) && size1 + BackupAlignSize - 1 < Word && size2 + BackupAlignSize - 1 < Word
    requires BackupMalloc(e, st, size1).Returned?
    requires BackupMalloc(e, BackupMalloc(e, st, size1).value.0, size2).Returned?
    ensures st.backupLast + BackupAligned(size1) < Word <==>
      BackupMalloc(e, st, size1).value.1 + size1 <= BackupMalloc(e, BackupMalloc(e, st, size1).value.0, size2).value.1
  {
    BackupMallocSpec(e, st, size1);
  }

  /**
   * The wrap-around is reachable: from a valid state 64 bytes into the
   * backup heap, backup_malloc (2^64 - 32) returns, and the cursor moves
   * back to 32 bytes into the heap.
   */
  lemma BackupCursorWraps(e: Env, st: State)
    requires Valid(e, st) && st.backupLast == e.backupHeap + 64
    ensures BackupMalloc(e, st, Word - 32).Returned?
    ensures BackupMalloc(e, st, Word - 32).value == (st.(backupLast := e.backupHeap + 32), e.backupHeap + 64)
  {
    BackupAlignedValue(Word - 32);
    var a := BackupAligned(Word - 32);
    assert a == Word - 32 by {
      DivMod(a, BackupAlignSize);
    }
    DivModUnique(st.backupLast + a, Word, 1, e.backupHeap + 32);
  }

  // ---------------------------------------------------------------------
  // Initialization

  /**
   * The first half of initialize: the compare-and-swap of `initializing` from
   * false to true, which exits when the flag is already set, followed by
   * read_configuration.
   */
  function BeginInitialize(e: Env, st: State): Outcome<State>
    requires EnvironmentValid(e.environment)
  {
    if st.initializing then Exited
    else Returned(st.(initializing := true, config := ReadConfiguration(e.environment, st.config)))
  }

  /** The second half of initialize: set `initialized`, then clear `initializing`. */
  function EndInitialize(st: State): State
  {
    st.(initialized := true, initializing := false)
  }

  /** initialize (); the calls read_configuration and intercept_functions make happen between the two halves. */
  function Initialize(e: Env, st: State): Outcome<State>
    requires EnvironmentValid(e.environment)
  {
    match BeginInitialize(e, st)
    case Exited => Exited
    case Returned(st1) => Returned(EndInitialize(st1))
  }

  /**
   * initialize exits exactly when entered while `initializing` is set; from
   * (initialized, initializing) = (false, false) it passes through (false,
   * true), with the configuration read from the environment, to (true,
   * false), changing nothing else.
   */
  lemma InitializeSpec(e: Env, st: State)
    requires Valid(e, st)
    ensures BeginInitialize(e, st).Exited? <==> st.initializing
    ensures Initialize(e, st).Exited? <==> st.initializing
    ensures !st.initialized && !st.initializing ==>
      var mid := BeginInitialize(e, st).value;
      && !mid.initialized && mid.initializing && Valid(e, mid)
      && mid == st.(initializing := true, config := ReadConfiguration(e.environment, st.config))
      && Initialize(e, st) == Returned(EndInitialize(mid))
      && Initialize(e, st).value.initialized && !Initialize(e, st).value.initializing
      && Valid(e, Initialize(e, st).value)
  {
  }

  // ---------------------------------------------------------------------
  // malloc

  /**
   * What the model assumes of a block size and the oracle's answer: the
   * raw block is 16-aligned, and neither `size + reserve`, `size + 15` nor
   * `block + reserve` wraps around. The backup cursor's own wrap-around is
   * modelled by BackupBump, not excluded here.
   */
  predicate Fits(c: Config, size: nat, raw: nat)
  {
    raw % MallocAlignSize == 0 && raw + size + ReserveLimit(c) + HeaderBytes <= Word
  }

  /**
   * The end of `malloc`: exit on a null raw block, otherwise round the raw
   * block plus the reserve down to align_size and store the header
   * {block, size} just below that position, which is returned.
   */
  function Place(st: State, block: nat, size: nat, reserve: nat): Outcome<(State, nat)>
  {
    if block == 0 then Exited
    else
      var shifted := And(block + reserve, st.config.alignMaskOut);
      Returned((st.(mem := WriteHeader(st.mem, shifted, block, size)), shifted))
  }

  /** While initializing: reserve with BACKUP_ALIGN_MASK_OUT and take the block from backup_malloc. */
  function AllocateBackup(e: Env, st: State, size: nat): Outcome<(State, nat)>
    requires Configuration.Valid(st.config)
  {
    var (st1, reserve) := CalculateReserve(st, MaskOut(BackupAlignBits));
    PlaceBackup(e, st1, size, reserve)
  }

  /** The backup path once the reserve is known: backup_malloc (size + reserve), then Place. */
  function PlaceBackup(e: Env, st: State, size: nat, reserve: nat): Outcome<(State, nat)>
  {
    match BackupMalloc(e, st, size + reserve)
    case Exited => Exited
    case Returned((st1, block)) => Place(st1, block, size, reserve)
  }

  /** Otherwise: reserve with MALLOC_ALIGN_MASK_OUT and call original_malloc, which answers raw. */
  function AllocateOriginal(st: State, size: nat, raw: nat): Outcome<(State, nat)>
    requires Configuration.Valid(st.config)
  {
    var (st1, reserve) := CalculateReserve(st, MaskOut(MallocAlignBits));
    Place(st1.(calls := st1.calls + [OriginalMalloc(size + reserve, raw)]), raw, size, reserve)
  }

  /**
   * malloc (size): initialize when neither flag is set; while initializing,
   * take the block from the backup heap, otherwise from `original_malloc`,
   * whose answer is raw.
   */
  function Malloc(e: Env, st: State, size: nat, raw: nat): Outcome<(State, nat)>
    requires Valid(e, st)
  {
    if !st.initialized && !st.initializing then
      match Initialize(e, st)
      case Exited => Exited
      case Returned(st1) => AllocateOriginal(st1, size, raw)
    else if st.initializing then AllocateBackup(e, st, size)
    else AllocateOriginal(st, size, raw)
  }

  /** The state `malloc` allocates from and `free` releases in: st itself, or st after initialize when neither flag is set. */
  function Ready(e: Env, st: State): State
    requires EnvironmentValid(e.environment)
  {
    if st.initialized || st.initializing then st
    else EndInitialize(st.(initializing := true, config := ReadConfiguration(e.environment, st.config)))
  }

  /** Ready is what initialize leaves behind, and it keeps the invariant. */
  lemma ReadySpec(e: Env, st: State)
    requires Valid(e, st)
    ensures Valid(e, Ready(e, st))
    ensures !st.initializing ==> Ready(e, st).initialized && !Ready(e, st).initializing
    ensures !st.initialized && !st.initializing ==> Initialize(e, st) == Returned(Ready(e, st))
    ensures Ready(e, st) == st.(initialized := Ready(e, st).initialized, initializing := Ready(e, st).initializing, config := Ready(e, st).config)
  {
    InitializeSpec(e, st);
  }

  /** malloc is one of its two allocation paths, from the state initialization leaves. */
  lemma MallocUnfold(e: Env, st: State, size: nat, raw: nat)
    requires Valid(e, st)
    ensures Malloc(e, st, size, raw) ==
      if st.initializing then AllocateBackup(e, st, size) else AllocateOriginal(Ready(e, st), size, raw)
  {
    ReadySpec(e, st);
  }

  /** The backup path with calculate_reserve written out. */
  lemma AllocateBackupUnfold(e: Env, st: State, size: nat)
    requires Configuration.Valid(st.config)
    ensures AllocateBackup(e, st, size) ==
      PlaceBackup(e, st.(seed := Lcg.Next(st.seed)), size, Reserve(st.config, MaskOut(BackupAlignBits), Drawn(st)))
  {
  }

  /** The original path with calculate_reserve written out. */
  lemma AllocateOriginalUnfold(st: State, size: nat, raw: nat)
    requires Configuration.Valid(st.config)
    ensures var reserve := Reserve(st.config, MaskOut(MallocAlignBits), Drawn(st));
      AllocateOriginal(st, size, raw) ==
        Place(st.(seed := Lcg.Next(st.seed), calls := st.calls + [OriginalMalloc(size + reserve, raw)]), raw, size, reserve)
  {
  }

  /**
   * How `malloc` lays out a block: the returned pointer s is a multiple of
   * align_size, the header fits between the raw block and s, the size bytes
   * from s on stay inside the size + reserve bytes requested, the header
   * reads back {block, size}, and no byte outside the header changed.
   */
  ghost predicate Laid(c: Config, before: Mem, after: Mem, block: nat, size: nat, reserve: nat, s: nat)
  {
    && c.alignSize > 0 && s % c.alignSize == 0
    && block + HeaderBytes <= s
    && s + size <= block + size + reserve
    && HeaderAddress(after, s) == block && HeaderSize(after, s) == size
    && forall k: int :: !(s - HeaderBytes <= k < s) ==> Read(after, k) == Read(before, k)
  }

  /** The end of `malloc`: a null raw block exits; otherwise the block is laid out and only memory changes. */
  lemma PlaceSpec(st: State, block: nat, size: nat, rnd: nat)
    requires Configuration.Valid(st.config) && block % MallocAlignSize == 0 && rnd < Pow2(st.config.randomBits)
    requires block + size + Reserve(st.config, MaskOut(MallocAlignBits), rnd) < Word
    ensures var reserve := Reserve(st.config, MaskOut(MallocAlignBits), rnd);
      && (Place(st, block, size, reserve).Exited? <==> block == 0)
      && (block != 0 ==>
        var (st1, s) := Place(st, block, size, reserve).value;
        st1 == st.(mem := st1.mem) && Laid(st.config, st.mem, st1.mem, block, size, reserve, s))
  {
    var reserve := Reserve(st.config, MaskOut(MallocAlignBits), rnd);
    ShiftedBlockLayout(st.config, block, rnd);
    if block != 0 {
      PlaceLaid(st, block, size, reserve);
    }
  }

  /** Place lays out a non-null block whenever the rounded-down position leaves room for the header. */
  lemma PlaceLaid(st: State, block: nat, size: nat, reserve: nat)
    requires block != 0 && block < Word && size < Word && st.config.alignSize > 0
    requires var s := And(block + reserve, st.config.alignMaskOut);
      s % st.config.alignSize == 0 && block + HeaderBytes <= s <= block + reserve
    ensures Place(st, block, size, reserve).Returned?
    ensures var (st1, s) := Place(st, block, size, reserve).value;
      st1 == st.(mem := st1.mem) && Laid(st.config, st.mem, st1.mem, block, size, reserve, s)
  {
    var s := And(block + reserve, st.config.alignMaskOut);
    HeaderRoundTrip(st.mem, s, block, size);
  }

  /**
   * What the backup path does from st with size plus reserve, r being its
   * outcome: it returns exactly when the bumped cursor (modulo 2^64) lies in
   * the backup heap, and then changes only the cursor and the header bytes,
   * keeping the invariant. Without wrap-around it returns exactly when the
   * heap can hold size plus the reserve, and the returned pointer is a backup
   * pointer laid out in the block at the old cursor; with wrap-around the
   * cursor moves backwards.
   */
  ghost predicate BackupPlaced(e: Env, st: State, size: nat, reserve: nat, r: Outcome<(State, nat)>)
  {
    var o := st.backupLast;
    var last := BackupBump(o, size + reserve);
    && (r.Returned? <==> BackupPointer(e, last))
    && (o + BackupAligned(size + reserve) < Word ==> (r.Returned? <==> last < e.backupHeap + BackupSize))
    && (r.Returned? ==> r.value.0 == st.(backupLast := last, mem := r.value.0.mem) && Valid(e, r.value.0))
    && (r.Returned? && o + BackupAligned(size + reserve) < Word ==>
      && BackupPointer(e, r.value.1) && r.value.1 + size <= last
      && Laid(st.config, st.mem, r.value.0.mem, o, size, reserve, r.value.1))
    && (r.Returned? && o + BackupAligned(size + reserve) >= Word ==> last < o)
  }

  /**
   * The backup path, for a reserve drawn from rnd, behaves as BackupPlaced
   * says.
   */
  lemma PlaceBackupSpec(e: Env, st: State, size: nat, rnd: nat)
    requires Valid(e, st) && Fits(st.config, size, 0) && rnd < Pow2(st.config.randomBits)
    ensures BackupPlaced(e, st, size, Reserve(st.config, MaskOut(BackupAlignBits), rnd), PlaceBackup(e, st, size, Reserve(st.config, MaskOut(BackupAlignBits), rnd)))
  {
    var reserve := Reserve(st.config, MaskOut(BackupAlignBits), rnd);
    var o: nat := st.backupLast;
    var a := BackupAligned(size + reserve);
    var last := BackupBump(o, size + reserve);
    var r := PlaceBackup(e, st, size, reserve);
    PlaceBackupUnfold(e, st, size, reserve);
    ReserveValue(st.config, MallocAlignBits, rnd);
    BackupAlignedValue(size + reserve);
    if BackupPointer(e, last) {
      var st2 := st.(backupLast := last);
      BumpKeepsAlignment(o, size + reserve);
      assert Valid(e, st2);
      assert r == Place(st2, o, size, reserve);
      var (st3, s) := r.value;
      assert st3 == st2.(mem := st3.mem);
      ValidIgnoresMemory(e, st2, st3.mem);
      if o + a < Word {
        PlaceSpec(st2, o, size, rnd);
        assert o <= s <= o + reserve <= last < e.backupHeap + BackupSize;
        assert s + size <= last;
      } else {
        DivModUnique(o + a, Word, 1, o + a - Word);
        assert last < o;
      }
    }
    assert BackupPlaced(e, st, size, reserve, r);
  }

  /** The backup path with backup_malloc written out. */
  lemma PlaceBackupUnfold(e: Env, st: State, size: nat, reserve: nat)
    ensures var last := BackupBump(st.backupLast, size + reserve);
      PlaceBackup(e, st, size, reserve) ==
        if BackupPointer(e, last) then Place(st.(backupLast := last), st.backupLast, size, reserve) else Exited
  {
  }

  /**
   * While initializing, the allocation path advances the seed once and
   * otherwise behaves as PlaceBackup with the reserve calculate_reserve
   * draws.
   */
  lemma AllocateBackupSpec(e: Env, st: State, size: nat)
    requires Valid(e, st) && Fits(st.config, size, 0)
    ensures BackupPlaced(e, st.(seed := Lcg.Next(st.seed)), size,
      Reserve(st.config, MaskOut(BackupAlignBits), Drawn(st)), AllocateBackup(e, st, size))
  {
    AllocateBackupUnfold(e, st, size);
    DrawnBound(st);
    PlaceBackupSpec(e, st.(seed := Lcg.Next(st.seed)), size, Drawn(st));
  }

  /**
   * The original path records one call to original_malloc for size plus the
   * reserve, exits exactly when the raw block is null, and otherwise
   * returns a pointer laid out in the raw block; only the seed (one step),
   * the call record and the header bytes change.
   */
  lemma AllocateOriginalSpec(e: Env, st: State, size: nat, raw: nat)
    requires Valid(e, st) && Fits(st.config, size, raw)
    ensures var reserve := Reserve(st.config, MaskOut(MallocAlignBits), Drawn(st));
      var r := AllocateOriginal(st, size, raw);
      && (r.Exited? <==> raw == 0)
      && (raw != 0 ==>
        && r.value.0 == st.(seed := Lcg.Next(st.seed), calls := st.calls + [OriginalMalloc(size + reserve, raw)], mem := r.value.0.mem)
        && Laid(st.config, st.mem, r.value.0.mem, raw, size, reserve, r.value.1)
        && Valid(e, r.value.0))
  {
    AllocateOriginalUnfold(st, size, raw);
    CalculateReserveSpec(st, MallocAlignBits);
    var reserve := Reserve(st.config, MaskOut(MallocAlignBits), Drawn(st));
    var st1 := st.(seed := Lcg.Next(st.seed), calls := st.calls + [OriginalMalloc(size + reserve, raw)]);
    PlaceSpec(st1, raw, size, Drawn(st));
  }

  /**
   * malloc while initializing takes its block from the backup heap: it
   * steps the seed once and then behaves as BackupPlaced says, with the
   * reserve calculate_reserve draws.
   */
  lemma MallocBackupSpec(e: Env, st: State, size: nat, raw: nat)
    requires Valid(e, st) && st.initializing && Fits(st.config, size, 0)
    ensures BackupPlaced(e, st.(seed := Lcg.Next(st.seed)), size,
      Reserve(st.config, MaskOut(BackupAlignBits), Drawn(st)), Malloc(e, st, size, raw))
  {
    MallocUnfold(e, st, size, raw);
    AllocateBackupSpec(e, st, size);
  }

  /**
   * malloc outside initialization (initializing first when neither flag is
   * set) takes its block from `original_malloc`: it records one call for
   * size plus the reserve, exits exactly when the raw block is null, and
   * otherwise returns a pointer laid out in the raw block; beyond
   * initialization only the seed (one step), the call record and the header
   * bytes change.
   */
  lemma MallocOriginalSpec(e: Env, st: State, size: nat, raw: nat)
    requires Valid(e, st) && !st.initializing && Fits(Ready(e, st).config, size, raw)
    ensures var st0 := Ready(e, st);
      var reserve := Reserve(st0.config, MaskOut(MallocAlignBits), Drawn(st0));
      var r := Malloc(e, st, size, raw);
      && st0.initialized && !st0.initializing
      && (r.Exited? <==> raw == 0)
      && (raw != 0 ==>
        && r.value.0 == st0.(seed := Lcg.Next(st.seed), calls := st.calls + [OriginalMalloc(size + reserve, raw)], mem := r.value.0.mem)
        && Laid(st0.config, st.mem, r.value.0.mem, raw, size, reserve, r.value.1)
        && Valid(e, r.value.0))
  {
    MallocUnfold(e, st, size, raw);
    ReadySpec(e, st);
    AllocateOriginalSpec(e, Ready(e, st), size, raw);
  }

  /**
   * Two successive allocations while initializing do not overlap when
   * neither bump of the backup cursor wraps around: the second pointer's
   * header then lies after the first block's bytes.
   */
  lemma BackupAllocationsDisjoint(e: Env, st: State, size1: nat, size2: nat)
    requires Valid(e, st) && st.initializing
    requires Fits(st.config, size1, 0) && Fits(st.config, size2, 0)
    ensures var r1 := Malloc(e, st, size1, 0);
      var reserve1 := Reserve(st.config, MaskOut(BackupAlignBits), Drawn(st));
      r1.Returned? ==>
        && Valid(e, r1.value.0) && r1.value.0.initializing
        && var r2 := Malloc(e, r1.value.0, size2, 0);
          var reserve2 := Reserve(st.config, MaskOut(BackupAlignBits), Drawn(r1.value.0));
          r2.Returned? && st.backupLast + BackupAligned(size1 + reserve1) < Word
            && r1.value.0.backupLast + BackupAligned(size2 + reserve2) < Word ==>
            r1.value.1 + size1 + HeaderBytes <= r2.value.1
  {
    MallocBackupSpec(e, st, size1, 0);
    var r1 := Malloc(e, st, size1, 0);
    if r1.Returned? {
      var st1 := r1.value.0;
      assert st1.config == st.config && st1.initializing;
      MallocBackupSpec(e, st1, size2, 0);
    }
  }

  /**
   * Every malloc that returns keeps the invariant, for any size and any
   * answer of original_malloc: the backup cursor only ever stops on a
   * 16-aligned address strictly inside the backup heap.
   */
  lemma MallocKeepsValid(e: Env, st: State, size: nat, raw: nat)
    requires Valid(e, st)
    ensures Malloc(e, st, size, raw).Returned? ==> Valid(e, Malloc(e, st, size, raw).value.0)
  {
    MallocUnfold(e, st, size, raw);
    ReadySpec(e, st);
    if st.initializing {
      AllocateBackupUnfold(e, st, size);
      PlaceBackupKeepsValid(e, st.(seed := Lcg.Next(st.seed)), size, Reserve(st.config, MaskOut(BackupAlignBits), Drawn(st)));
    } else {
      AllocateOriginalUnfold(Ready(e, st), size, raw);
    }
  }

  /** The backup path keeps the invariant for every reserve. */
  lemma PlaceBackupKeepsValid(e: Env, st: State, size: nat, reserve: nat)
    requires Valid(e, st)
    ensures PlaceBackup(e, st, size, reserve).Returned? ==> Valid(e, PlaceBackup(e, st, size, reserve).value.0)
  {
    PlaceBackupUnfold(e, st, size, reserve);
    BumpKeepsAlignment(st.backupLast, size + reserve);
    var last := BackupBump(st.backupLast, size + reserve);
    if BackupPointer(e, last) {
      assert Valid(e, st.(backupLast := last));
      ValidIgnoresMemory(e, st.(backupLast := last), PlaceBackup(e, st, size, reserve).value.0.mem);
    }
  }

  /** The aligned size is a multiple of 16 for every size, even one past the end of the word. */
  lemma BackupAlignedAligned(size: nat)
    ensures BackupAligned(size) % BackupAlignSize == 0
  {
    AndKeepsMultiple(size + BackupAlignSize - 1, MaskOut(BackupAlignBits), BackupAlignBits);
  }

  // ---------------------------------------------------------------------
  // free

  /** The part of `free` after initialization: null and backup pointers are ignored, everything else goes to original_free. */
  function Release(e: Env, st: State, p: nat): State
  {
    if p == 0 || BackupPointer(e, p) then st
    else st.(calls := st.calls + [OriginalFree(HeaderAddress(st.mem, p))])
  }

  /** free (p): initialize unless `initialized` is set, then release p. */
  function Free(e: Env, st: State, p: nat): Outcome<State>
    requires EnvironmentValid(e.environment)
  {
    if !st.initialized then
      match Initialize(e, st)
      case Exited => Exited
      case Returned(st1) => Returned(Release(e, st1, p))
    else Returned(Release(e, st, p))
  }

  /**
   * free exits exactly when called while initializing (its guard tests only
   * `initialized`, and initialize refuses to be re-entered); otherwise it
   * releases p from the state initialization leaves, keeping the invariant.
   */
  lemma FreeSpec(e: Env, st: State, p: nat)
    requires Valid(e, st)
    ensures Free(e, st, p).Exited? <==> st.initializing
    ensures !st.initializing ==> Free(e, st, p) == Returned(Release(e, Ready(e, st), p)) && Valid(e, Free(e, st, p).value)
  {
    ReadySpec(e, st);
  }

  /**
   * Outside initialization, free of a null or backup pointer changes nothing
   * beyond initializing the library, and free of any other pointer records
   * one call to original_free with the address stored in its header.
   */
  lemma FreeReleases(e: Env, st: State, p: nat)
    requires Valid(e, st) && !st.initializing
    ensures p == 0 || BackupPointer(e, p) ==> Free(e, st, p) == Returned(Ready(e, st))
    ensures st.initialized && (p == 0 || BackupPointer(e, p)) ==> Free(e, st, p) == Returned(st)
    ensures p != 0 && !BackupPointer(e, p) ==>
      Free(e, st, p) == Returned(Ready(e, st).(calls := st.calls + [OriginalFree(HeaderAddress(st.mem, p))]))
  {
    FreeSpec(e, st, p);
    ReadySpec(e, st);
  }

  /**
   * Releasing a block s that malloc took from original_malloc passes exactly
   * the raw block to original_free, once, and changes nothing else. The raw
   * block must lie outside the backup heap.
   */
  lemma FreeAfterMalloc(e: Env, st: State, size: nat, raw: nat)
    requires Valid(e, st) && !st.initializing && raw != 0 && Fits(Ready(e, st).config, size, raw)
    requires raw >= e.backupHeap + BackupSize || raw + size + ReserveLimit(Ready(e, st).config) <= e.backupHeap
    ensures Malloc(e, st, size, raw).Returned?
    ensures var (st1, s) := Malloc(e, st, size, raw).value;
      !BackupPointer(e, s) && Free(e, st1, s) == Returned(st1.(calls := st1.calls + [OriginalFree(raw)]))
  {
    MallocOriginalSpec(e, st, size, raw);
    var st0 := Ready(e, st);
    CalculateReserveSpec(st0, MallocAlignBits);
  }

  /** free reads nothing of memory but the header below p. */
  lemma FreeReadsOnlyHeader(e: Env, st1: State, st2: State, p: nat)
    requires EnvironmentValid(e.environment)
    requires st2 == st1.(mem := st2.mem)
    requires forall k: int :: p - HeaderBytes <= k < p ==> Read(st1.mem, k) == Read(st2.mem, k)
    ensures Free(e, st1, p).Exited? <==> Free(e, st2, p).Exited?
    ensures Free(e, st1, p).Returned? ==> Free(e, st1, p).value.calls == Free(e, st2, p).value.calls
  {
    HeaderFrame(st1.mem, st2.mem, p);
  }

  // ---------------------------------------------------------------------
  // realloc and calloc

  /**
   * realloc (p, n): a null p is malloc (n); otherwise read the old size from
   * the header below p, allocate a new block, copy the smaller of the two
   * sizes from p, and free p. raw is original_malloc's answer to the inner
   * malloc.
   */
  function Realloc(e: Env, st: State, p: nat, n: nat, raw: nat): Outcome<(State, nat)>
    requires Valid(e, st)
  {
    if p == 0 then Malloc(e, st, n, raw)
    else
      var sourceSize := HeaderSize(st.mem, p);
      match Malloc(e, st, n, raw)
      case Exited => Exited
      case Returned((st1, d)) =>
        match Free(e, st1.(mem := Copy(st1.mem, d, p, Min(sourceSize, n))), p)
        case Exited => Exited
        case Returned(st2) => Returned((st2, d))
  }

  /**
   * calloc (count, itemSize): malloc the product, computed in `size_t` and
   * so reduced modulo 2^64, and fill that many bytes with zero.
   */
  function Calloc(e: Env, st: State, count: nat, itemSize: nat, raw: nat): Outcome<(State, nat)>
    requires Valid(e, st)
  {
    var total := (count * itemSize) % Word;
    match Malloc(e, st, total, raw)
    case Exited => Exited
    case Returned((st1, d)) => Returned((st1.(mem := Fill(st1.mem, d, 0, total)), d))
  }

  /** The backup path leaves both flags as they were. */
  lemma AllocateBackupKeepsFlags(e: Env, st: State, size: nat)
    requires Configuration.Valid(st.config)
    ensures var r := AllocateBackup(e, st, size);
      r.Returned? ==> r.value.0.initialized == st.initialized && r.value.0.initializing == st.initializing
  {
    AllocateBackupUnfold(e, st, size);
    PlaceBackupUnfold(e, st.(seed := Lcg.Next(st.seed)), size, Reserve(st.config, MaskOut(BackupAlignBits), Drawn(st)));
  }

  /**
   * realloc of a null pointer is malloc; realloc of any other pointer while
   * initializing exits, in the free that follows the copy.
   */
  lemma ReallocWhileInitializing(e: Env, st: State, p: nat, n: nat, raw: nat)
    requires Valid(e, st)
    ensures Realloc(e, st, 0, n, raw) == Malloc(e, st, n, raw)
    ensures st.initializing && p != 0 ==> Realloc(e, st, p, n, raw).Exited?
  {
    if st.initializing && p != 0 {
      MallocUnfold(e, st, n, raw);
      AllocateBackupKeepsFlags(e, st, n);
    }
  }

  /** realloc of a non-null pointer, once malloc has returned d: the copy, then free. */
  lemma ReallocUnfold(e: Env, st: State, p: nat, n: nat, raw: nat)
    requires Valid(e, st) && p != 0 && Malloc(e, st, n, raw).Returned?
    ensures var (st1, d) := Malloc(e, st, n, raw).value;
      var f := Free(e, st1.(mem := Copy(st1.mem, d, p, Min(HeaderSize(st.mem, p), n))), p);
      Realloc(e, st, p, n, raw) == if f.Exited? then Exited else Returned((f.value, d))
  {
  }

  /**
   * A malloc served by original_malloc leaves alone every byte outside the
   * raw block it asked for, in particular an old block [p - 16, p + k) that
   * lies wholly below or wholly above it.
   */
  lemma MallocKeepsOtherBlock(e: Env, st: State, n: nat, raw: nat, p: nat, k: nat)
    requires Valid(e, st) && !st.initializing && raw != 0 && Fits(Ready(e, st).config, n, raw)
    requires raw + n + ReserveLimit(Ready(e, st).config) + HeaderBytes <= p || p + k <= raw
    ensures Malloc(e, st, n, raw).Returned?
    ensures var (st1, d) := Malloc(e, st, n, raw).value;
      && Valid(e, st1) && st1.initialized && !st1.initializing
      && raw + HeaderBytes <= d && d + n < raw + n + ReserveLimit(Ready(e, st).config)
      && (forall a: int :: p - HeaderBytes <= a < p + k ==> Read(st1.mem, a) == Read(st.mem, a))
      && HeaderAddress(st1.mem, p) == HeaderAddress(st.mem, p)
  {
    MallocOriginalSpec(e, st, n, raw);
    CalculateReserveSpec(Ready(e, st), MallocAlignBits);
    HeaderFrame(Malloc(e, st, n, raw).value.0.mem, st.mem, p);
  }

  /**
   * realloc outside initialization, with original_malloc answering a block
   * disjoint from the old one (which spans its header and the bytes to be
   * copied): it returns the pointer malloc (n) returns, whose first
   * min(old size, n) bytes are the old block's, leaves every other byte as
   * malloc left it, and then releases the old block: nothing happens for a
   * backup pointer, otherwise original_free receives the address in its
   * header.
   */
  lemma ReallocCopies(e: Env, st: State, p: nat, n: nat, raw: nat)
    requires Valid(e, st) && !st.initializing && p != 0 && raw != 0
    requires Fits(Ready(e, st).config, n, raw)
    requires raw + n + ReserveLimit(Ready(e, st).config) + HeaderBytes <= p || p + Min(HeaderSize(st.mem, p), n) <= raw
    ensures var k := Min(HeaderSize(st.mem, p), n);
      var m := Malloc(e, st, n, raw);
      var r := Realloc(e, st, p, n, raw);
      && m.Returned? && r.Returned?
      && r.value.1 == m.value.1
      && (forall a :: m.value.1 <= a < m.value.1 + k ==> Read(r.value.0.mem, a) == Read(st.mem, p + (a - m.value.1)))
      && (forall a :: !(m.value.1 <= a < m.value.1 + k) ==> Read(r.value.0.mem, a) == Read(m.value.0.mem, a))
      && r.value.0 == m.value.0.(mem := r.value.0.mem,
           calls := m.value.0.calls + if BackupPointer(e, p) then [] else [OriginalFree(HeaderAddress(st.mem, p))])
      && Valid(e, r.value.0)
  {
    var k := Min(HeaderSize(st.mem, p), n);
    MallocKeepsOtherBlock(e, st, n, raw, p, k);
    var (st1, d) := Malloc(e, st, n, raw).value;
    ReallocUnfold(e, st, p, n, raw);
    CopyThenFree(e, st1, d, p, k);
  }

  /** The second half of realloc: a copy that misses the old header leaves it for free to release. */
  lemma CopyThenFree(e: Env, st: State, d: nat, p: nat, k: nat)
    requires Valid(e, st) && st.initialized && !st.initializing && p != 0
    requires d + k + HeaderBytes <= p || p <= d
    ensures var mem := Copy(st.mem, d, p, k);
      && Valid(e, st.(mem := mem))
      && Free(e, st.(mem := mem), p) == Returned(st.(mem := mem,
           calls := st.calls + if BackupPointer(e, p) then [] else [OriginalFree(HeaderAddress(st.mem, p))]))
  {
    var mem := Copy(st.mem, d, p, k);
    assert forall a: int :: p - HeaderBytes <= a < p ==> Read(mem, a) == Read(st.mem, a);
    HeaderFrame(mem, st.mem, p);
    ValidIgnoresMemory(e, st, mem);
    assert st.calls + [] == st.calls;
  }

  /**
   * calloc returns what malloc of the wrapped product returns, with that
   * many bytes from the pointer on set to zero and nothing else changed; the
   * product is exact only when it fits in `size_t`.
   */
  lemma CallocZeroes(e: Env, st: State, count: nat, itemSize: nat, raw: nat)
    requires Valid(e, st)
    ensures var total := (count * itemSize) % Word;
      var m := Malloc(e, st, total, raw);
      var r := Calloc(e, st, count, itemSize, raw);
      && total < Word && (count * itemSize < Word ==> total == count * itemSize)
      && (r.Returned? <==> m.Returned?)
      && (r.Returned? ==>
        && r.value.1 == m.value.1 && r.value.0 == m.value.0.(mem := r.value.0.mem)
        && (forall a :: m.value.1 <= a < m.value.1 + total ==> Read(r.value.0.mem, a) == 0)
        && (forall a :: !(m.value.1 <= a < m.value.1 + total) ==> Read(r.value.0.mem, a) == Read(m.value.0.mem, a)))
  {
    WrapBelow(count * itemSize);
    CallocFills(e, st, count, itemSize, raw, (count * itemSize) % Word);
  }

  lemma WrapBelow(x: nat)
    ensures x % Word < Word && (x < Word ==> x % Word == x)
  {
  }

  /** calloc is malloc of total bytes followed by memset of those bytes to zero. */
  lemma CallocFills(e: Env, st: State, count: nat, itemSize: nat, raw: nat, total: nat)
    requires Valid(e, st) && total == (count * itemSize) % Word
    ensures var m := Malloc(e, st, total, raw);
      var r := Calloc(e, st, count, itemSize, raw);
      && (r.Returned? <==> m.Returned?)
      && (r.Returned? ==>
        && r.value.1 == m.value.1 && r.value.0 == m.value.0.(mem := r.value.0.mem)
        && (forall a :: m.value.1 <= a < m.value.1 + total ==> Read(r.value.0.mem, a) == 0)
        && (forall a :: !(m.value.1 <= a < m.value.1 + total) ==> Read(r.value.0.mem, a) == Read(m.value.0.mem, a)))
  {
  }

  /**
   * calloc does not check the product for overflow: 2^32 items of 2^32 + 1
   * bytes return exactly what malloc of 2^32 bytes returns.
   */
  lemma CallocWrappedRequest(e: Env, st: State, raw: nat)
    requires Valid(e, st)
    ensures var r := Calloc(e, st, 0x1_0000_0000, 0x1_0000_0001, raw);
      var m := Malloc(e, st, 0x1_0000_0000, raw);
      && (r.Returned? <==> m.Returned?)
      && (r.Returned? ==> r.value.1 == m.value.1 && r.value.0 == m.value.0.(mem := r.value.0.mem))
  {
    CallocProductWraps();
    CallocZeroes(e, st, 0x1_0000_0000, 0x1_0000_0001, raw);
  }

  /** The product 2^32 * (2^32 + 1) does not fit in `size_t` and wraps to 2^32. */
  lemma CallocProductWraps()
    ensures var count, itemSize := 0x1_0000_0000, 0x1_0000_0001;
      count * itemSize >= Word && (count * itemSize) % Word == 0x1_0000_0000
  {
    var count, itemSize := 0x1_0000_0000, 0x1_0000_0001;
    assert count * itemSize == Word + 0x1_0000_0000;
    DivModUnique(count * itemSize, Word, 1, 0x1_0000_0000);
  }
}
