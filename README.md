# A verified model of a first-fit `sbrk` allocator

`malloc.c` implements `malloc`, `free`, `realloc` and `calloc` on top of
`sbrk`. Each block of memory is preceded by a `struct block_meta` header
(`size`, `next`, `free`). The headers form a singly linked list that starts
at `global_base` and is appended to, in creation order, whenever the heap
grows. `malloc` takes the first block in the list that is marked free and
large enough, without splitting it. Failing that, it moves the program
break by the header size plus the request and formats a new header there.
`free` only sets the header's flag, after asserting that it was clear.
`realloc` keeps a block that is large enough, and otherwise allocates,
copies and frees. `calloc` allocates `nelem * elsize` bytes in `size_t`
arithmetic and zero-fills them.

The project has two layers.

* `MallocSpec` (`malloc_spec.dfy`) describes the heap as a value.
  * A `State` holds the initial break, the list of blocks (address, size,
    flag) in list order, the current break, and the payload bytes that hold
    a value.
  * Every entry point is a function from a `State` to an `Outcome`. The
    outcome is either the new state with the value the C function returns,
    or `Aborted` when one of the source's `assert`s fails.
* `Malloc` (`malloc.dfy`) is the heap as the C code keeps it, in the class
  `Heap`.
  * Its fields are `global_base`, a map from addresses to headers whose
    `next` fields link the list, the break, and the byte map.
  * Its methods mirror the C functions statement by statement:
    * `FindFreeBlock` is the `while` loop that writes `last`.
    * `RequestSpace` makes two `sbrk` calls, checks them, links the new
      header after the tail and formats it.
    * `Malloc`, `Free`, `Realloc` and `Calloc` follow the C entry points.
  * Each method is proved to produce the reply and the new heap that the
    matching `MallocSpec` function gives for the old one.

`MallocProps` (`malloc_props.dfy`) proves properties of the value layer:
* the first-fit choice;
* the exact result of each call;
* the layout invariant: blocks tile the heap from the initial break to the
  current one, in list order;
* the list invariant: blocks are only appended, never unlinked, and only
  `free` ever changes.

`MallocScenarios` (`malloc_scenarios.dfy`) works through concrete runs.

Modelling choices:
* `sbrk` is an oracle. The parameter `os` says whether the OS grants the
  extension; `sbrk(0)` always succeeds.
* `META_SIZE` is 24, the LP64 size of `struct block_meta`.
* `NULL` is address 0, and `(void *) -1` is `SBRK_FAILED`.
* `size_t` values are integers below 2^64.

### Behaviours of the code as written

These follow from the code itself and are modelled as it is written.
* A free-list hit returns the block with `free` still set. malloc's only
  `block->free = 0` (malloc.c:104) is on the path that creates a new block,
  and `request_space` has already cleared the flag there. So a reused block
  can be handed out again by a later `malloc`, and freeing it aborts at the
  assert of malloc.c:130 (`ReusedBlockStaysFree`). Growing it with
  `realloc` therefore aborts (`ReallocOfReusedBlockAborts`).
* The assert at malloc.c:48 compares the old break with `sbrk`'s result
  before the `-1` test of malloc.c:50. A refused extension therefore aborts
  the process instead of returning NULL (`RefusedExtensionAborts`).
  * This is why `malloc` of a nonzero size never returns NULL (`MallocOk`).
  * The NULL branches at malloc.c:50-53, 82-85, 97-100 and 153-156 are
    unreachable. A `realloc` whose `malloc` fails aborts rather than
    returning NULL with the old block intact (`ReallocGrowAborts`).
* `calloc` runs `memset` on whatever `malloc` returned. The only NULL it can
  get is for a zero product. The product wraps modulo 2^64
  (`CallocProductWraps`).

## Model

| member | source | states |
|---|---|---|
| MallocSpec.Range | malloc.c:158 | the address set of an `n`-byte region is exactly [lo, lo + n) |
| MallocSpec.Copy | malloc.c:158 | after `memcpy(dst, src, n)` each of the n destination bytes holds the source byte at the same offset, and every other byte keeps its value |
| MallocSpec.Fill | malloc.c:171 | after `memset(dst, v, n)` the n bytes at dst hold v, every other byte keeps its value, and n = 0 changes nothing |
| MallocSpec.Init | malloc.c:20 | before the first call `global_base` is NULL and the break is still at its starting position |
| MallocSpec.Payload | malloc.c:109 | `block + 1` lies just past the header, and the payload of `size` bytes runs from there to the end of the block |
| MallocSpec.GetBlockPtr | malloc.c:114-117 | `(struct block_meta *)ptr - 1` lies below `ptr`, and a header at that address has its payload at `ptr`: it undoes `block + 1` |
| MallocSpec.GlobalBase | malloc.c:20 | `global_base` is the first block's address once a block exists (set at line 87); on a well-formed heap it is NULL exactly when there is no block |
| MallocSpec.IndexOf | malloc.c:128-130 | dereferencing the header that `ptr - 1` points at finds a block: the index names a block at that address, and no earlier block has it |
| MallocSpec.Fits | malloc.c:30 | the loop stops at a block exactly when it is free and its payload holds the requested bytes |
| MallocSpec.FirstFit | malloc.c:26-37 | the choice is a block that is free with size ≥ the request, and every earlier block fails that test; no choice means no block passes it |
| MallocSpec.RequestSpace | malloc.c:41-65 | a completed request keeps the initial break and the bytes, and extends the list by at most one block, leaving old blocks untouched |
| MallocSpec.Appended | malloc.c:55-62 | the heap after a new header is formatted at the old break and linked after the tail: the same blocks plus one used block of the requested size at the end, the break just past it, bytes unchanged |
| MallocSpec.Malloc | malloc.c:68-110 | a completed malloc keeps the initial break and the bytes, and extends the list by at most one block, leaving old blocks untouched |
| MallocSpec.CallocSize | malloc.c:168 | the `size_t` product: equal to `nelem * elsize` when that fits in 64 bits, and always congruent to it modulo 2^64 |
| MallocSpec.Realloc | malloc.c:136-163 | a completed realloc keeps the initial break, never removes a block and adds at most one |
| MallocSpec.Calloc | malloc.c:166-174 | a completed calloc keeps the initial break and extends the list by at most one block, leaving old blocks untouched |
| MallocSpec.Free | malloc.c:120-133 | a completed free keeps the initial break, the bytes, the break and the number of blocks |
| MallocProps.Ordered | malloc.c:45-47 | along the list, each block ends at or before the address of any later block |
| MallocProps.BlockBounds | malloc.c:45-47 | every block, header and payload, lies between the initial break and the current break |
| MallocProps.BreakAboveStart | malloc.c:45-50 | the break never falls below the initial break, so it is neither NULL nor `(void *) -1` |
| MallocProps.Disjoint | malloc.c:45-47 | two different blocks do not overlap |
| MallocProps.HeaderOfPayload | malloc.c:109-117 | `get_block_ptr(block + 1)` is `block`: the returned pointer is non-NULL, accepted by free and realloc, and maps back to that block |
| MallocProps.FlagKeepsInv | malloc.c:132 | writing a block's `free` flag (here, and at line 104) keeps the heap well formed |
| MallocProps.MemWriteKeepsInv | malloc.c:158-171 | a write (memcpy or memset) that stays inside one block's payload keeps the heap well formed |
| MallocProps.InitInv | malloc.c:20 | before the first call the heap is well formed and `global_base` is NULL |
| MallocProps.AppendedInv | malloc.c:55-62 | appending a block at the break keeps the heap well formed; the first block becomes `global_base`, otherwise `global_base` stays |
| MallocProps.RequestSpaceResult | malloc.c:41-65 | with the OS granting, the new block (size = request, not free) goes at the old break, the break advances by size + META_SIZE and the old break is returned; with the OS refusing, the assert at line 48 aborts |
| MallocProps.MallocZero | malloc.c:73-76 | malloc(0) returns NULL and changes nothing |
| MallocProps.MallocResult | malloc.c:78-109 | on a hit malloc returns the first-fit block's payload, with the heap unchanged and the flag still set; on a miss it appends a new block at the break and returns its payload, or aborts if the OS refuses |
| MallocProps.MallocFirstCall | malloc.c:78-88 | the first nonzero malloc creates the first block at the initial break and makes it `global_base` |
| MallocProps.MallocOk | malloc.c:68-110 | a completed malloc keeps the heap well formed and `global_base` once set; it returns NULL exactly for size 0; any other result is the payload of a block of at least the requested size |
| MallocProps.MallocGrowth | malloc.c:68-110 | malloc never lowers the break |
| MallocProps.FreeNull | malloc.c:122-125 | free(NULL) does nothing |
| MallocProps.FreeResult | malloc.c:120-133 | free of a block's payload aborts exactly when the block is already free; otherwise only that block's flag is set, and the heap stays well formed |
| MallocProps.FreeThenMallocReuses | malloc.c:120-133 | after freeing a block, a malloc (whose scan is at lines 26-37) of at most its size changes nothing and returns that block or an earlier one, and exactly that block when no earlier block fits |
| MallocProps.ReallocNull | malloc.c:138-141 | realloc(NULL, n) is malloc(n) |
| MallocProps.ReallocInPlace | malloc.c:143-148 | when the block already holds the requested size, realloc returns the same pointer and changes nothing |
| MallocProps.ReallocGrows | malloc.c:150-162 | otherwise realloc calls malloc, copies the old size's bytes into the new block, then frees the old block: it aborts if malloc aborts or the old block was already free |
| MallocProps.ReallocAfterCopy | malloc.c:158-162 | after the copy the heap is well formed, the old block is unchanged, and realloc's outcome is that of freeing the old pointer |
| MallocProps.ReallocGrowAborts | malloc.c:150-162 | a growing realloc aborts exactly when malloc aborts or the old block is already free, and never returns NULL |
| MallocProps.ReallocMovedState | malloc.c:150-162 | a completed growing realloc had a completed malloc and an old block not yet free, and leaves malloc's heap with the old bytes copied to the new pointer and the old block marked free |
| MallocProps.MovedHeapFacts | malloc.c:158-160 | copying into another block's payload and freeing the old block keeps the heap well formed, and the new pointer still finds its block |
| MallocProps.ReallocMovesInv | malloc.c:150-162 | a completed growing realloc keeps the heap well formed and does not lower the break |
| MallocProps.ReallocMovesTarget | malloc.c:150-162 | a completed growing realloc returns the payload of a different block of at least the new size |
| MallocProps.ReallocMovesExtends | malloc.c:150-162 | a completed growing realloc marks the old block free and appends at most one block |
| MallocProps.ReallocCopies | malloc.c:158 | a completed growing realloc leaves the old block's bytes at the new pointer and every other byte as it was |
| MallocProps.CallocResult | malloc.c:166-174 | calloc requests (nelem * elsize) mod 2^64 bytes and aborts exactly when that malloc does; it returns malloc's pointer and blocks; NULL (a zero product) leaves the heap as it was; otherwise that many bytes are zero and the rest unchanged |
| MallocProps.MallocKeepsShape | malloc.c:68-110 | malloc keeps the list invariant |
| MallocProps.FreeKeepsShape | malloc.c:120-133 | free keeps the list invariant |
| MallocProps.ReallocKeepsShape | malloc.c:136-163 | realloc keeps the list invariant |
| MallocProps.ReallocMovesKeepsShape | malloc.c:150-162 | a growing realloc keeps the list invariant |
| MallocProps.CallocKeepsShape | malloc.c:166-174 | calloc keeps the list invariant |
| MallocProps.CallKeepsShape | malloc.c:55-62 | any completed call (whose only later header writes, apart from the tail link at line 57, are the flags at lines 104 and 132) keeps the heap well formed, never lowers the break, only appends blocks (at most one), never changes an existing block's address or size, and keeps `global_base` once set |
| MallocScenarios.FirstMallocCreatesA | malloc.c:78-88 | malloc(400) on a fresh heap creates block A at the initial break and returns A + 24 |
| MallocScenarios.SecondMallocCreatesB | malloc.c:91-109 | malloc(4) then finds nothing free and appends block B right after A |
| MallocScenarios.FreeAThenB | malloc.c:120-133 | free(A), then free(B), each set only their own flag |
| MallocScenarios.MallocReusesA | malloc.c:91-109 | with A and B free, malloc(4) returns A, the first block that fits, not B, and changes nothing |
| MallocScenarios.ReusedBlockStaysFree | malloc.c:91-109 | a reused block keeps its flag set: two malloc(4) calls both return it, and freeing it aborts at the assert of line 130 |
| MallocScenarios.ReallocOfReusedBlockAborts | malloc.c:150-160 | growing a block that malloc reused aborts in the final free |
| MallocScenarios.RefusedExtensionAborts | malloc.c:45-53 | a refused extension aborts the first malloc instead of returning NULL |
| MallocScenarios.CallocProductWraps | malloc.c:168-171 | 2^32 × 2^32 wraps to 0, so calloc returns NULL and changes nothing; (2^32 + 1) × 2^32 asks for only 2^32 bytes |
| Malloc.Increasing | malloc.c:45-47 | header addresses increase along the list and lie strictly between NULL and the break |
| Malloc.LinkedAppend | malloc.c:55-62 | linking a new header above all others after the tail, and formatting it, spells out the list with that block appended |
| Malloc.LinkedSetFree | malloc.c:132 | setting one header's flag spells out the list with that block marked free |
| Malloc.Heap.constructor | malloc.c:20 | a fresh heap is valid and is the initial state |
| Malloc.Heap.Sbrk | malloc.c:45-47 | a granted request returns the old break and advances it by the increment; a refused one returns `(void *) -1` and leaves it |
| Malloc.Heap.FindFreeBlock | malloc.c:26-37 | the loop returns the first-fit block's header and the header before it in `last`; on a miss it returns NULL with `last` at the tail |
| Malloc.Heap.RequestSpace | malloc.c:41-65 | the reply and new heap are the model's; a new header (size, NULL, not free) sits at the old break and the old tail's `next` points to it; an abort changes nothing |
| Malloc.Heap.Malloc | malloc.c:68-110 | the reply and new heap are the model's malloc, and the heap stays valid |
| Malloc.Heap.HeaderOf | malloc.c:114-117 | the header at `ptr - 1` is in the map and agrees with its block |
| Malloc.Heap.Free | malloc.c:120-133 | it aborts exactly when the model's free does, leaving the heap unchanged; otherwise the new heap is the model's |
| Malloc.Heap.Realloc | malloc.c:136-163 | the reply and new heap are the model's realloc |
| Malloc.Heap.Calloc | malloc.c:166-174 | the reply and new heap are the model's calloc |

## Left out

- `main` (malloc.c:177-186) is a usage example and is not modelled.
- The `sbrk` system call is not modelled. Each extension is granted or refused by the `os` parameter, and `sbrk(0)` is taken to succeed.
- Nothing else moves the break between `sbrk(0)` and `sbrk(size + META_SIZE)`. So a granted extension always starts at the old break, and the assert at malloc.c:48 fails only on a refusal. The other case that assert guards against, a break moved by other code in between, cannot be represented.
- The `NDEBUG` build, in which the asserts vanish, is not modelled. An assert that fails is the `Aborted` outcome.
- MallocSpec.RequestSpace: the sum `size + META_SIZE` (malloc.c:47) is neither wrapped modulo 2^64 nor converted to `sbrk`'s signed `intptr_t` argument. For `size` from 2^63 - 24 to 2^64 - 25 the `intptr_t` increment is negative, which would shrink the heap or be refused. From `size` = 2^64 - 24 up the `size_t` sum wraps to 0..23, so `sbrk` grants fewer bytes than the header, the assert at malloc.c:48 passes, and malloc.c:60-62 write the header past the new break while it records a size near 2^64. The model instead treats every request as an ordinary extension by `size + META_SIZE` bytes.
- MallocSpec.Appended: the new break `brk + META_SIZE + size` is unbounded, for the same reason. The source's negative `intptr_t` increment for `size` from 2^63 - 24 to 2^64 - 25, and its wrapped increment of 0..23 bytes from 2^64 - 24 up (header written past the new break), are not represented.
- Malloc.Heap.RequestSpace: passes `META_SIZE + size` to `Sbrk` unwrapped and as a non-negative increment, for the same reason.
- Alignment (the TODO at malloc.c:71): addresses are integers and no alignment is stated.
- Threads: the code has no locking, and the model is sequential.
- Overlapping `memcpy` regions: `MallocSpec.Copy` reads every source byte from the map as it was before the copy, so on overlapping regions it would give `memmove`'s result, not memcpy's undefined one. In `realloc` the regions never overlap: the new block differs from the old one (`ReallocMovesTarget`) and different blocks share no byte (`Disjoint`).
- Pointers that the allocator never issued: `Free` and `Realloc` require NULL or the payload of an existing block. Anything else is undefined behaviour in C.
- Header bytes are not in the byte map, so a write through a payload pointer cannot overwrite a header.
- Bytes that hold no value (fresh `sbrk` memory) have no entry in the byte map; `Load` reports them as None.
