# flint_arena, modelled in Dafny

flint_arena is a bump-pointer memory arena. An `FlArena` keeps a chain of
blocks obtained from an injected allocation callback (`alloc_fn`), a cursor
into the newest block and the number of bytes left in it. `fl_arena_init`
configures an empty arena. `fl_arena_alloc` carves regions at the cursor and
obtains a new block of `max(block_size, size)` usable bytes plus a
one-pointer header when the current block is too small. `fl_arena_free`
hands every block to the release callback (`free_fn`) and leaves the arena
empty and reusable.

The project has two modules.

- `ArenaSpec` (arena_spec.dfy) is the value-level model. `State` holds the
  chain as a sequence of `Block(id, capacity)` records, newest first, with
  the cursor `current`, `sizeLeft` and `blockSize`. `Inv` is the arena
  invariant: no block twice in the chain; an empty chain has a null cursor
  and nothing left; otherwise the cursor is in the head block and its offset
  plus `sizeLeft` is the head block's capacity. `Alloc` is one
  `fl_arena_alloc` step. It takes the callback's answer as a parameter.
  `Run` is a series of allocations. `Releases` is the call sequence of
  `fl_arena_free`. The lemmas about them live here too.
- `FlintArena` (arena.dfy) holds two classes. `Arena` has the fields of
  `FlArena`. Its methods `Init`, `Alloc` and `Free` update them in place and
  are proved to follow the `ArenaSpec` functions. `BlockSource` stands for
  the callback pair. Its `Obtain` may fail or hand out a block id that is not
  live. Its `Release` takes back a live block. A ghost trace `calls` records
  every callback call, and a ghost set `live` holds the blocks obtained and
  not yet released.

Pointers are `Ptr = Null | At(block, offset)`. The offset is counted from the
start of a block's usable area, just behind its header. `BLOCK_OVERHEAD` is
`sizeof(char *)`, taken as 8 (a 64-bit target).

Where the code and its documentation differ, the model follows the code:

- The header comment says behaviour is undefined if `alloc_fn` returns NULL.
  In fact `fl_arena_alloc` checks for NULL, returns 0 and changes nothing.
  That failure path is modelled.
- The release order is newest first, as the `while (block)` walk does it.

No positive block size is required: neither the code nor its documentation
of `block_size` (flint_arena.h:105-107) asks for one.

Helpers without contracts of their own, which the rows below rely on:
`ArenaSpec.Inv` is the invariant behind flint_arena.h:136-138, 165 and
169-170; `ArenaSpec.Carve` is the bump of lines 168-170;
`ArenaSpec.RequestSize` is `block_node_size` of line 154; `Ptr.Plus` is the
cursor advance `current += size` of line 170.

## Model

| member | source | states |
|---|---|---|
| `FlintArena.Arena.Init` | flint_arena.h:130-142 | The arena holds no block, the cursor is null and nothing is left; the callbacks and block size are stored. Only the arena changes, so no release callback runs and blocks held before stay live in their old source: re-init leaks them. |
| `FlintArena.Arena.constructor` | flint_arena.h:130-142 | A new arena passed through `Init` is valid and empty, with the given callbacks and block size. |
| `FlintArena.Arena.Alloc` | flint_arena.h:144-172 | The new fields and the returned pointer are exactly `ArenaSpec.Alloc` of the old fields and the callback's answer. The callback is called, for exactly `max(block_size, size) + BLOCK_OVERHEAD` bytes, if and only if `size_left < size`. A new block becomes live only on success, and it was not live before. The arena invariant is kept and `size_left` never goes below zero. |
| `FlintArena.Arena.Free` | flint_arena.h:174-186 | The calls made are exactly one release per chained block, newest first, and nothing else. Those blocks stop being live. Afterwards there are no blocks, a null cursor and `size_left == 0`, with the same callbacks and block size. |
| `FlintArena.BlockSource.Obtain` | flint_arena.h:98-100 | The allocation callback either fails and changes nothing, or hands out a block that was not live and is live afterwards. The call is recorded. |
| `FlintArena.BlockSource.Release` | flint_arena.h:102-103 | The release callback accepts only a live block. That block stops being live and the call is recorded. |
| `FlintArena.Client` | flint_arena.h:41-47 | The usage example's call sequence (init, alloc, alloc, free, alloc, free) on a 64-byte arena leaves no block live in the source. Its body asserts, from the method contracts alone, that two 10-byte regions land at offsets 0 and 10 of one block with 44 bytes left, that free empties the arena, and that the next allocation gets a 64-byte block that was not live before it. |
| `ArenaSpec.Empty` | flint_arena.h:136-138 | The state left by init and free satisfies the arena invariant: no blocks, a null cursor, nothing left, the given block size. |
| `ArenaSpec.BlockCapacity` | flint_arena.h:149-151 | A new block's usable size is the maximum of the block size and the request: at least each of them, and equal to one of them. |
| `ArenaSpec.Alloc` | flint_arena.h:144-172 | The step keeps the arena invariant when the answer is a block not already chained. The block size never changes. Fast path (`size <= size_left`): same chain, the old cursor is returned, the cursor moves by `size` and `size_left` drops by `size`. Failure: null is returned and the state is unchanged. Success: the new block of `max(block_size, size)` bytes is pushed at the head, the region starts at that block's usable area, and `size_left` ends at `max(block_size, size) - size`. |
| `ArenaSpec.ZeroSizeRequest` | flint_arena.h:148-171 | A zero-byte request never uses the callback's answer. The state is unchanged and the cursor is returned, which is null on an empty arena. |
| `ArenaSpec.Contiguous` | flint_arena.h:168-170 | Two successful allocations where the second fits in what the first left are contiguous: the second starts exactly `n1` bytes after the first, in the same chain. |
| `ArenaSpec.AllocKeepsAccounted` | flint_arena.h:148-171 | One allocation keeps every region handed out so far inside a chained block, below the cursor in the head block and apart from every other region, with the new region added. |
| `ArenaSpec.RunKeepsAccounted` | flint_arena.h:144-172 | Any series of allocations with fresh callback answers keeps the invariant and keeps all regions handed out inside the chain and pairwise apart. |
| `ArenaSpec.RegionsApart` | flint_arena.h:168-170 | Starting from an empty arena, all regions handed out before the next free are pairwise disjoint and each lies inside some chained block. |
| `ArenaSpec.Releases` | flint_arena.h:176-181 | The release walk makes exactly one call per chained block, in chain order (newest first), each releasing that block. |
| `ArenaSpec.ReleasesEachBlockOnce` | flint_arena.h:176-181 | With no block chained twice, every chained block is released exactly once (multiset count 1), and nothing outside the chain is released. |
| `ArenaSpec.Scenario64` | flint_arena.h:144-172 | The 64-byte example: regions at offsets 0 and 10 of the first block, 44 bytes left; a 100-byte request gets its own 100-byte block at the head; releasing walks the new block, then the old one. |

## Left out

- The in-band "previous block" header, read back through pointer casts. The chain is an explicit sequence of block records. Only the `BLOCK_OVERHEAD` extra bytes in every request are kept.
- What `alloc_fn` and `free_fn` actually do (malloc/free are foreign calls). `BlockSource` models them abstractly: `Obtain` fails or succeeds nondeterministically, and the ids it hands out are never reused, even after release. The two function pointers are modelled as one object, which meets the requirement that `free_fn` accepts exactly what `alloc_fn` returned.
- `size_t` width: sizes are unbounded naturals. The wrap-around of `block_size + BLOCK_OVERHEAD` for a request near `SIZE_MAX` is not modelled.
- `BLOCK_OVERHEAD` is fixed at 8 bytes; targets with other pointer sizes are not modelled.
- The usage example inside `#if 0` (lines 19-49), with its `printf` and `malloc` output. `Client` follows only its call sequence.
- Alignment (the code does none), thread safety (the code has no synchronization) and the contents of allocated memory (the arena never reads them).
