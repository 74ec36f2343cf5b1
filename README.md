# alloc-randomizer in Dafny

A model of the allocation wrapper in `src/alloc-randomizer.c`. The wrapper is preloaded into a process and
interposes `malloc`, `free`, `realloc` and `calloc`. Every block it hands out
is shifted by a reserve. The reserve gets a block header `{address, size}` in
front of the pointer, the pointer aligned to `2^align_bits` bytes, and a
random number of alignment units of padding, drawn from a seeded linear
congruential generator. While the library initializes itself (reading
`AR_ALIGN_BITS` and `AR_RANDOM_BITS`, resolving the real allocator),
allocations come from a 16 KiB static bump heap instead.

The model fixes the LP64 platform. Pointers and `size_t` are 64 bits, the
header is 16 bytes, little-endian, and the standard and backup alignments are 2^4.

| file | module | contents |
|---|---|---|
| bits.dfy | Bits | `&`, `~`, `>>` on 64-bit words, `BITS_TO_SIZE`, `BITS_TO_MASK_IN`, `BITS_TO_MASK_OUT`, `MASKED_POINTER`, and their arithmetic meaning |
| lcg.dfy | Lcg | the recurrence of `rand` and its output |
| results.dfy | Results | `Option`, and `Outcome` (a returned value, or `_exit (1)`) |
| configuration.dfy | Configuration | the five configuration globals, `set_align_bits`, `set_random_bits`, and `read_configuration` applied to the two environment values |
| memory.dfy | Memory | memory as a map from address to byte, `memcpy`, `memset`, and the block header |
| reserve.dfy | Reserves | the three parts of `calculate_reserve` and the placement of the shifted pointer |
| allocator.dfy | Allocator | the library state as a value, and every entry point as a function of it, with the lemmas |
| library.dfy | Library | class `Randomizer`: the globals as fields, updated in place by methods proved equal to the Allocator functions |

How the model is built:
- **Outcomes.** Every entry point returns an `Outcome`: the new state and the C return value, or `Exited` where the C code calls `_exit (1)`.
- **The real allocator is an oracle.** The address `original_malloc` returns is a parameter, `raw`. The state records, in order, every call made to `original_malloc` and `original_free`.
- **Where the properties live.** They are proved as lemmas about the Allocator functions. Each `Randomizer` method ensures that its new fields are the state the matching function returns, so they carry over to the class.

Two consequences of the code are worth stating:
- **The reserve.** `calculate_reserve` takes the larger of the header reserve and the alignment reserve, and the header reserve, `max(16, align_size)`, is always the larger. So 16 alignment bits over an 8-bit baseline give `2^16` (`Reserves.WideAlignmentReserve`), and with 4 or fewer alignment bits the reserve is 16 plus the random part (`Reserves.ReserveValue`). The unit tests in `src/test-application.c` expect other values: `2^16 - 2^oa` for 16 alignment bits, and `2^ab - 1` with no baseline alignment. The model follows the code.
- **realloc of a backup pointer.** After initialization, `realloc` copies the block and then `free` ignores the backup pointer (`Allocator.ReallocCopies`). During initialization, every `realloc` of a non-null pointer exits, backup pointer or not, because the `free` it ends with calls `initialize`, which refuses to be re-entered (`Allocator.ReallocWhileInitializing`).

## Model

| member | source | states |
|---|---|---|
| Bits.And | src/alloc-randomizer.c:35 | the C `&` on unsigned operands, bit by bit; the result never exceeds its first operand |
| Bits.ShiftRight | src/alloc-randomizer.c:72 | the C `>>` on an unsigned operand: shifting by k divides by 2^k |
| Bits.MaskIn | src/alloc-randomizer.c:38 | `BITS_TO_MASK_IN(n)` is 2^n - 1 and fits in a word |
| Bits.MaskOut | src/alloc-randomizer.c:39 | `BITS_TO_MASK_OUT(n)` is the word complement of the low mask: adding 2^n gives 2^64 |
| Bits.BitsToSize | src/alloc-randomizer.c:37 | `BITS_TO_SIZE(n)` is 2^n, below 2^64 for n < 64 |
| Bits.MaskInSelects | src/alloc-randomizer.c:35-38 | masking with `BITS_TO_MASK_IN(n)` keeps x mod 2^n |
| Bits.MaskOutClears | src/alloc-randomizer.c:35-39 | masking a word with `BITS_TO_MASK_OUT(n)` subtracts x mod 2^n |
| Bits.MaskedPointerIsFloor | src/alloc-randomizer.c:35-39 | `MASKED_POINTER(x, BITS_TO_MASK_OUT(n))` is the largest multiple of 2^n not above x |
| Bits.MaskedPointerAligned | src/alloc-randomizer.c:35-38 | `MASKED_POINTER(x, BITS_TO_MASK_IN(n))` is zero exactly when x is 2^n-aligned, the form of the alignment asserts in malloc |
| Bits.AndKeepsMultiple | src/alloc-randomizer.c:189 | AND with a multiple of 2^n gives a multiple of 2^n, for any other operand |
| Bits.AndLowBits | src/alloc-randomizer.c:38 | x & (2^n - 1) is x mod 2^n, for every natural x |
| Bits.AndHighBits | src/alloc-randomizer.c:39 | for x below 2^n, x & (2^n - 2^a) is x with its a low bits cleared |
| Bits.Not | src/alloc-randomizer.c:39 | `~` on a word is the bitwise complement: x & ~x is 0, and x and ~x together fill the word |
| Bits.NotIsComplement | src/alloc-randomizer.c:39 | x and ~x split every word y: (y & x) + (y & ~x) is y |
| Lcg.StepIn | src/alloc-randomizer.c:71 | the recurrence with the state kept in w bits; `Lcg.StepInWord` shows that for w = 64 it is `Lcg.Next` |
| Lcg.Next | src/alloc-randomizer.c:71 | one step of the recurrence in a 64-bit `uint_fast32_t` stays below 2^64 |
| Lcg.Output | src/alloc-randomizer.c:72 | `(seed & BITS_TO_MASK_IN(31)) >> (31 - bits)` is the top `bits` bits of the low 31 bits of the seed: below 2^bits, and 0 for bits = 0 |
| Lcg.StepKeepsLowBits | src/alloc-randomizer.c:71 | the low 31 bits after a step depend only on the low 31 bits before it |
| Lcg.OutputDependsOnLowBits | src/alloc-randomizer.c:68-75 | two seeds that agree on their low 31 bits produce the same next output |
| Lcg.OutputIndependentOfWidth | src/alloc-randomizer.c:65-72 | a state kept in any width from 31 to 64 bits that agrees with the 64-bit state on its low 31 bits gives the same output after one step, and the two still agree on their low 31 bits |
| Lcg.Draws | src/alloc-randomizer.c:65-75 | the values of n successive `rand (bits)` calls with the state kept in w bits: n values, each below 2^bits |
| Lcg.DrawsIndependentOfWidth | src/alloc-randomizer.c:65-75 | over a whole run, a state kept in any width from 31 to 64 bits draws the same values as the 64-bit state, when the two start with the same low 31 bits |
| Configuration.Initial | src/alloc-randomizer.c:83-89 | the static initial configuration is valid, with no alignment (size 1) and no randomization |
| Configuration.SetAlignBits | src/alloc-randomizer.c:96-102 | `set_align_bits (ab)` sets the width to ab, keeps `random_bits`, and leaves a valid configuration |
| Configuration.SetRandomBits | src/alloc-randomizer.c:109-112 | `set_random_bits (rb)` sets the width to rb, keeps the alignment, and keeps validity |
| Configuration.SetAlignBitsMasks | src/alloc-randomizer.c:96-102 | after `set_align_bits (ab)`: `align_size` is 2^ab, `align_mask_in` is one less, `align_mask_out` is its complement, and x & `align_mask_out` is the largest multiple of `align_size` not above x |
| Configuration.ReadConfiguration | src/alloc-randomizer.c:121-131 | applying the environment keeps the configuration valid |
| Configuration.ReadConfigurationApplies | src/alloc-randomizer.c:121-131 | each width whose variable is set takes its value, the other width is kept, and without `AR_ALIGN_BITS` the masks are unchanged |
| Memory.Store | src/alloc-randomizer.c:326-329 | a store writes exactly the bytes of [a, a + n) and nothing else |
| Memory.Copy | src/alloc-randomizer.c:275 | `memcpy (dst, src, n)` puts the n source bytes at dst and changes nothing outside [dst, dst + n) |
| Memory.Fill | src/alloc-randomizer.c:288 | `memset (dst, v, n)` sets [dst, dst + n) to v and changes nothing else |
| Memory.DecodeEncode | src/alloc-randomizer.c:205-211 | a header field written as 8 little-endian bytes reads back as the value |
| Memory.EncodeDecode | src/alloc-randomizer.c:205-211 | 8 bytes read as a field and written back are the same bytes |
| Memory.WriteHeader | src/alloc-randomizer.c:326-329 | the stores `block_header->address` and `block_header->size` below s; stated by HeaderRoundTrip |
| Memory.HeaderAddress | src/alloc-randomizer.c:346-347 | the `address` field read from below s, a value below 2^64 |
| Memory.HeaderSize | src/alloc-randomizer.c:271-272 | the `size` field read from below s, a value below 2^64 |
| Memory.HeaderRoundTrip | src/alloc-randomizer.c:326-329 | the header written below s reads back `{address, size}`, and no byte outside it changes |
| Memory.HeaderFrame | src/alloc-randomizer.c:346-347 | the header below s depends only on the 16 bytes below s |
| Reserves.HeaderReserve | src/alloc-randomizer.c:245 | part one of `calculate_reserve`, `(sizeof (block_header_t) + align_size - 1) & align_mask_out`; its value is stated by HeaderReserveIsSmallestMultiple |
| Reserves.AlignmentReserve | src/alloc-randomizer.c:249 | part two, `align_mask_in & original_align_mask_out`; its value is stated by AlignmentReserveValue |
| Reserves.RandomReserve | src/alloc-randomizer.c:253 | part three, `rand (random_bits) & align_mask_out` for the drawn value; its value is stated by RandomReserveValue |
| Reserves.Max | src/alloc-randomizer.c:33 | the `MAX` macro; the larger of its two operands |
| Reserves.Reserve | src/alloc-randomizer.c:256 | `MAX (header, alignment) + random`; its value is stated by ReserveValue |
| Reserves.HeaderReserveIsSmallestMultiple | src/alloc-randomizer.c:245-247 | the header reserve is max(16, `align_size`): the smallest multiple of `align_size` that holds a header |
| Reserves.AlignmentReserveValue | src/alloc-randomizer.c:249-251 | `align_mask_in & ~(2^b - 1)` is 2^a - 2^b when a >= b and 0 when a < b |
| Reserves.RandomReserveValue | src/alloc-randomizer.c:253-255 | the random reserve is the drawn value rounded down to a multiple of `align_size` |
| Reserves.ReserveValue | src/alloc-randomizer.c:241-259 | the alignment reserve is below the header reserve, so the reserve is header plus random reserve: a multiple of `align_size`, at least 16, below max(16, `align_size`) + 2^`random_bits`, and exactly 16 with no alignment and no randomization |
| Reserves.WideAlignmentReserve | src/alloc-randomizer.c:241-259 | 16 alignment bits over an 8-bit baseline give an alignment reserve of 2^16 - 2^8 but a reserve of 2^16 |
| Reserves.ShiftedBlockLayout | src/alloc-randomizer.c:322-327 | for a 16-aligned raw block o, s = (o + reserve) & `align_mask_out` is `align_size`-aligned with o + 16 <= s <= o + reserve, so the header lies inside the raw block and s + size stays inside the requested bytes |
| Allocator.Initial | src/alloc-randomizer.c:176-177 | the load-time state (static configuration, seed 0, cursor at the start of `backup_heap`, both flags clear, no calls made) keeps the invariant |
| Allocator.Rand | src/alloc-randomizer.c:68-75 | `rand (bits)` on the library state: changes nothing but the seed, which stays a 64-bit value, and returns a value below 2^bits |
| Allocator.CalculateReserve | src/alloc-randomizer.c:241-259 | `calculate_reserve` on the library state: one draw, then the three parts combined; its properties are stated by CalculateReserveSpec |
| Allocator.RandSpec | src/alloc-randomizer.c:68-75 | `rand (bits)` changes only the seed, by exactly one step, and returns a value below 2^bits, 0 for bits = 0 |
| Allocator.RandDraws | src/alloc-randomizer.c:68-75 | the values of n + 1 successive `rand (bits)` calls (`Lcg.Draws` in 64 bits) are the first call's value followed by those of n calls from the state it leaves |
| Allocator.RandDependsOnLowBits | src/alloc-randomizer.c:68-75 | states whose seeds agree on the low 31 bits draw the same value and still agree afterwards |
| Allocator.CalculateReserveSpec | src/alloc-randomizer.c:241-259 | `calculate_reserve (~(2^b - 1))` advances the seed exactly once and returns header reserve plus random reserve: a multiple of `align_size`, at least 16, below the bound |
| Allocator.BackupPointer | src/alloc-randomizer.c:181-184 | `backup_pointer (p)`: p lies in [backup_heap, backup_heap + 16384) |
| Allocator.BackupAligned | src/alloc-randomizer.c:189 | `(size + 15) & ~15`; its value is stated by BackupAlignedValue and BackupAlignedAligned |
| Allocator.BackupBump | src/alloc-randomizer.c:192 | `backup_last += size_aligned` as a 64-bit pointer addition: the bumped cursor is below 2^64, and it is the plain sum when that sum does not wrap |
| Allocator.BackupMalloc | src/alloc-randomizer.c:187-197 | `backup_malloc` on the library state; its behaviour is stated by BackupMallocSpec, BackupBlocksDisjoint and BackupCursorWraps |
| Allocator.BackupAlignedValue | src/alloc-randomizer.c:189 | the aligned size is the smallest multiple of 16 not below size |
| Allocator.BackupMallocSpec | src/alloc-randomizer.c:187-197 | `backup_malloc` returns exactly when the bumped cursor, modulo 2^64, lies inside the backup heap. When it returns, it returns the old cursor, 16-aligned and inside the heap, changes only the cursor and keeps the invariant. Without wrap-around: it returns exactly when the cursor stays strictly below the heap's end (landing on the end exits), and the block is followed by at least size bytes, the cursor growing by under size + 16. With wrap-around: the new cursor lies below the returned block |
| Allocator.BumpKeepsAlignment | src/alloc-randomizer.c:189-192 | a 16-aligned cursor stays 16-aligned after the bump, wrapped or not |
| Allocator.BackupCursorWraps | src/alloc-randomizer.c:187-197 | the wrap is reachable: 64 bytes into the heap, `backup_malloc (2^64 - 32)` returns the old cursor and moves the cursor back to 32 bytes into the heap |
| Allocator.BackupBlocksDisjoint | src/alloc-randomizer.c:187-197 | two successive backup blocks do not overlap exactly when the first bump does not wrap around; after a wrap, the second block starts before the first one's bytes end |
| Allocator.Initialize | src/alloc-randomizer.c:218-231 | `initialize` on the library state, as BeginInitialize (the compare-and-swap and `read_configuration`) then EndInitialize; its behaviour is stated by InitializeSpec |
| Allocator.BeginInitialize | src/alloc-randomizer.c:221-223 | the compare-and-swap of `initializing` (exit when already set) and `read_configuration`; stated by InitializeSpec |
| Allocator.EndInitialize | src/alloc-randomizer.c:227-229 | `initialized = true`, then `initializing = false`; stated by InitializeSpec |
| Allocator.InitializeSpec | src/alloc-randomizer.c:218-231 | `initialize` exits exactly when `initializing` is set; from (F, F) it passes through (F, T), with the configuration read, to (T, F), changing nothing else |
| Allocator.Ready | src/alloc-randomizer.c:297 | the state after the initialization guard of `malloc` (and of `free`, line 337, when not initializing); stated by ReadySpec |
| Allocator.ReadySpec | src/alloc-randomizer.c:297 | the state malloc and free work in after their initialization guard keeps the invariant, has the flags (T, F) unless initializing, and differs from the caller's state only in flags and configuration |
| Allocator.Place | src/alloc-randomizer.c:319-331 | the end of `malloc`: exit on a null block, otherwise the shifted, rounded pointer with the header written below it; stated by PlaceSpec |
| Allocator.Malloc | src/alloc-randomizer.c:294-332 | `malloc` on the library state with `original_malloc`'s answer as a parameter; stated by MallocBackupSpec, MallocOriginalSpec and MallocKeepsValid |
| Allocator.PlaceSpec | src/alloc-randomizer.c:319-331 | the end of malloc exits exactly on a null block; otherwise it lays the block out (aligned pointer, header inside the raw block, header reads back `{block, size}`) and changes only the header bytes |
| Allocator.AllocateBackup | src/alloc-randomizer.c:304-310 | the backup branch of `malloc`: `calculate_reserve (BACKUP_ALIGN_MASK_OUT)`, then PlaceBackup; stated by AllocateBackupSpec |
| Allocator.PlaceBackup | src/alloc-randomizer.c:307-331 | `backup_malloc (size + reserve)`, then the end of `malloc`; stated by PlaceBackupSpec |
| Allocator.AllocateOriginal | src/alloc-randomizer.c:311-331 | the other branch: `calculate_reserve (MALLOC_ALIGN_MASK_OUT)`, one recorded `original_malloc (size + reserve)`, then the end of `malloc`; stated by AllocateOriginalSpec |
| Allocator.PlaceBackupSpec | src/alloc-randomizer.c:307-331 | the backup path with a given reserve satisfies BackupPlaced. It returns exactly when the bumped cursor, modulo 2^64, lies in the backup heap, and then changes only the cursor and the header and keeps the invariant. Without wrap-around: it exits exactly when the heap cannot hold size plus reserve, and otherwise returns a backup pointer laid out in the old cursor's block. With wrap-around: the cursor moves backwards |
| Allocator.AllocateBackupSpec | src/alloc-randomizer.c:304-331 | as PlaceBackupSpec for the reserve `calculate_reserve` draws, with the seed advanced once |
| Allocator.AllocateOriginalSpec | src/alloc-randomizer.c:311-331 | the original path records one `original_malloc (size + reserve)` call, exits exactly on a null answer, otherwise lays the block out in the raw block and changes only seed, call record and header |
| Allocator.MallocBackupSpec | src/alloc-randomizer.c:294-332 | malloc while initializing steps the seed once and then behaves as PlaceBackupSpec states, for the drawn reserve. It allocates from the backup heap and returns a backup pointer, exiting exactly when the heap is full, unless the cursor wraps around; in that case the cursor moves backwards |
| Allocator.MallocOriginalSpec | src/alloc-randomizer.c:294-332 | malloc otherwise initializes if needed, asks `original_malloc` for size plus reserve, exits exactly on null, and lays out the returned block |
| Allocator.BackupAllocationsDisjoint | src/alloc-randomizer.c:294-331 | two successive mallocs while initializing, neither of whose cursor bumps wraps around, return pointers whose blocks do not overlap, header included |
| Allocator.MallocKeepsValid | src/alloc-randomizer.c:294-332 | every malloc that returns keeps the invariant, for any size and any oracle answer |
| Allocator.BackupAlignedAligned | src/alloc-randomizer.c:189 | the aligned size is a multiple of 16 for every size |
| Allocator.Release | src/alloc-randomizer.c:339-349 | the part of `free` after its initialization guard; stated by FreeReleases |
| Allocator.Free | src/alloc-randomizer.c:335-350 | `free` on the library state; stated by FreeSpec, FreeReleases and FreeAfterMalloc |
| Allocator.FreeSpec | src/alloc-randomizer.c:335-350 | free exits exactly when called while initializing; otherwise it releases p from the initialized state and keeps the invariant |
| Allocator.FreeReleases | src/alloc-randomizer.c:335-350 | free of a null or backup pointer changes nothing but initialization; free of any other pointer records one `original_free` of the address in its header |
| Allocator.FreeAfterMalloc | src/alloc-randomizer.c:294-350 | outside initialization, for a raw block outside the backup heap: malloc returns, and freeing its pointer passes exactly the raw block to `original_free`, once, and changes nothing else |
| Allocator.FreeReadsOnlyHeader | src/alloc-randomizer.c:346-349 | free reads no memory but the 16 header bytes below p |
| Allocator.Realloc | src/alloc-randomizer.c:262-279 | `realloc` on the library state; stated by ReallocWhileInitializing and ReallocCopies |
| Allocator.Calloc | src/alloc-randomizer.c:282-291 | `calloc` on the library state; stated by CallocZeroes |
| Allocator.ReallocWhileInitializing | src/alloc-randomizer.c:262-276 | `realloc (NULL, n)` is `malloc (n)`; during initialization `realloc` of any other pointer exits |
| Allocator.ReallocCopies | src/alloc-randomizer.c:262-279 | after initialization: realloc returns malloc's pointer, whose first min(old size, n) bytes are the old block's, leaves the other bytes as malloc left them, then frees the old block (no call for a backup pointer, `original_free` of its raw address otherwise), keeping the invariant |
| Reserves.Min | src/alloc-randomizer.c:32 | the `MIN` macro; the smaller of its two operands |
| Allocator.CopyThenFree | src/alloc-randomizer.c:275-276 | a copy that misses the old header leaves it for free, which releases the old block |
| Allocator.CallocZeroes | src/alloc-randomizer.c:282-291 | calloc is malloc of the product modulo 2^64 with those bytes set to zero and nothing else changed; the product is exact only when it fits in `size_t` |
| Allocator.CallocProductWraps | src/alloc-randomizer.c:286 | the arithmetic only: the `size_t` product 2^32 * (2^32 + 1) does not fit in 64 bits and wraps to 2^32 |
| Allocator.CallocWrappedRequest | src/alloc-randomizer.c:282-291 | calloc of 2^32 items of 2^32 + 1 bytes returns exactly when malloc of 2^32 bytes returns, with the same pointer and the same state apart from memory: the overflow goes unnoticed |
| Library.Randomizer.constructor | src/alloc-randomizer.c:83-89 | the object starts in the load-time state |
| Library.Randomizer.SetAlignBits | src/alloc-randomizer.c:96-102 | the four alignment fields become those of `set_align_bits (ab)`, nothing else changes, and the invariant is kept |
| Library.Randomizer.SetRandomBits | src/alloc-randomizer.c:109-112 | only `random_bits` changes, and the invariant is kept |
| Library.Randomizer.ReadConfiguration | src/alloc-randomizer.c:121-131 | the fields become the configuration read from the environment |
| Library.Randomizer.Rand | src/alloc-randomizer.c:68-75 | the seed steps once and the result is Allocator.Rand's, below 2^bits |
| Library.Randomizer.CalculateReserve | src/alloc-randomizer.c:241-259 | the result and new seed are Allocator.CalculateReserve's |
| Library.Randomizer.BackupMalloc | src/alloc-randomizer.c:187-197 | the cursor is bumped; the process exits exactly when Allocator.BackupMalloc does, otherwise the block is its result |
| Library.Randomizer.Initialize | src/alloc-randomizer.c:218-231 | the flags and configuration become Allocator.Initialize's, or the process exits |
| Library.Randomizer.Place | src/alloc-randomizer.c:319-331 | the header is written, or the process exits on a null block |
| Library.Randomizer.AllocateBackup | src/alloc-randomizer.c:304-310 | the backup path of malloc, as Allocator.AllocateBackup |
| Library.Randomizer.AllocateOriginal | src/alloc-randomizer.c:311-317 | the original path of malloc, as Allocator.AllocateOriginal |
| Library.Randomizer.Malloc | src/alloc-randomizer.c:294-332 | the fields and the pointer are Allocator.Malloc's, or the process exits; the invariant is kept |
| Library.Randomizer.Free | src/alloc-randomizer.c:335-350 | the fields are Allocator.Free's, or the process exits; the invariant is kept |
| Library.Randomizer.Realloc | src/alloc-randomizer.c:262-279 | the fields and the pointer are Allocator.Realloc's, or the process exits; the invariant is kept |
| Library.Randomizer.Calloc | src/alloc-randomizer.c:282-291 | the fields and the pointer are Allocator.Calloc's, or the process exits; the invariant is kept |

## Left out

- `getenv` and `atoi` in `read_configuration`: the two environment values are inputs (`Configuration.Environment`), already parsed, with `AR_ALIGN_BITS` below 64 and `AR_RANDOM_BITS` at most 31. Larger shift counts are undefined in C.
- `intercept_functions` and `dlsym`: the real allocator is an oracle. `original_malloc`'s answer is the parameter `raw`, and the calls to `original_malloc` and `original_free` are recorded in order. `original_realloc`, `original_calloc` and `original_pthread_create` are resolved but never called by the modelled code.
- Calls back into the wrapper from inside `initialize`: `read_configuration` and `intercept_functions` (`getenv`, `dlsym`) may call `malloc`, `calloc`, `realloc` or `free` while `initializing` is set, which is why the backup heap exists. The model does not interleave such calls inside `Allocator.Initialize`, which is one step, or inside `Library.Randomizer.Initialize`. It covers them only as the entry-point functions applied to the (initialized, initializing) = (false, true) state that `Allocator.BeginInitialize` returns (`Allocator.MallocBackupSpec`, `Allocator.FreeSpec`, `Allocator.ReallocWhileInitializing`). It does not capture the order of those calls relative to the configuration being read.
- Spin locks, `__sync_bool_compare_and_swap`, `__sync_synchronize` and `volatile`: every entry point is one atomic, sequential step. Concurrent interleavings are not modelled.
- `assert` in `malloc` and `free`: these are debug checks, not branches, and the model does not model an abort. It proves what the asserts at lines 309, 324, 325, 327 and 348 check (`Reserves.ShiftedBlockLayout`, `Allocator.PlaceSpec`, `Allocator.BackupMallocSpec`). The assert at line 316, that `original_malloc`'s block is 16-aligned, is not proved: it is a hypothesis of the malloc lemmas, through `Allocator.Fits`.
- `size_t` and pointer wrap-around in `size + reserve`, `size + 15` and `block + reserve`: the malloc lemmas assume `Allocator.Fits` (a 16-aligned raw block and no wrap in these three sums). The functions take unbounded sizes as they are. The backup cursor's `backup_last += size_aligned` (line 192) is different: it is modelled modulo 2^64 (`Allocator.BackupBump`), and `Allocator.Fits` does not exclude its wrap.
- Allocator.MallocOriginalSpec, Allocator.ReallocCopies: they hold only under `Allocator.Fits`. For sizes close to 2^64, the C sums wrap and these lemmas say nothing.
- Allocator.MallocBackupSpec, Allocator.AllocateBackupSpec, Allocator.PlaceBackupSpec: they hold only under `Allocator.Fits`. When the backup cursor's bump wraps around, they state only that the call returns exactly when the wrapped cursor lies in the backup heap, and then the new state and that the cursor moved backwards; they give no layout of the returned pointer.
- Allocator.BackupAllocationsDisjoint: it promises disjointness only when neither cursor bump wraps around. After a wrap, the C's next backup block overlaps the previous one (`Allocator.BackupBlocksDisjoint`, `Allocator.BackupCursorWraps`).
- Allocator.ReallocCopies: the raw block must not overlap the old block. This freshness of `original_malloc`'s answer is a hypothesis of the lemma.
- Allocator.BackupMalloc: on exit, the function drops the bumped cursor. The C stores it and then calls `_exit`, so nothing can observe it. The class stores it as the C does.
- Memory: a byte never written reads as 0. Reading uninitialized memory is undefined in C and is not distinguished.
- `calloc`'s product is computed modulo 2^64, as the C `size_t` multiplication does. An overflowing product is not detected, as in the source.
- `pthread_create` and stack randomization: no wrapper exists in the modelled code, only the unused pointer.
- `src/test-application.c` is not part of this model. Its unit tests of `calculate_reserve` expect values (0, 2^ab - 1, 2^16 - 2^oa) that leave out the header reserve, and some pass a bit count where a mask is expected.
