# ArceOS early allocator and minimal HashMap, in Dafny

This project models two small parts of ArceOS.

- **The early allocator `EarlyAllocator<PAGE_SIZE>`** (module `BumpAllocator`, `bump_allocator.dfy`). It carves one region `[start, end)` from both ends:
  - byte allocations bump `b_next` upward under a ceiling `b_end`, which grows one page at a time;
  - page allocations bump `p_next` downward above a floor `p_end`;
  - each side counts its live allocations and resets its frontier when the count reaches zero.
- **The bit-mask alignment helpers `align_up` and `align_down`.** The bitwise AND and the 64-bit NOT are spelt out in module `Bits` (`bits.dfy`).
- **The chained-bucket `HashMap` of `axstd`** (module `Collections`, `collections.dfy`): sixteen buckets of key/value pairs, an entry counter and a seeded djb2-style hash.

Each part has two layers:

- **Pure layer.** Value-level functions say what each operation does to a snapshot of the fields. For the allocator these are `AllocatorState` and the `…Step` functions. For the map they are `TableInsert` and `TableRemove`, together with the views `Flatten` and `ToMap`.
- **Imperative layer.** The classes `EarlyAllocator` and `HashMap` hold the source's fields and update them in place. Each method's postcondition ties the new fields to the pure layer.

The properties are proved as lemmas about the pure layer.

The allocator is modelled **as written**. The class `EarlyAllocator` follows the code line for line, including the places where it does not keep its zones apart; the lemmas under "What the code does not keep" show them. Beside it, `AllocFixed` and `AllocPagesFixed` are corrected growth rules with the intended layout proved. They are not wired into the class (see "## Findings").

Every `usize` overflow or underflow that would panic in the source (as a debug build does) is a `requires`. This includes the intermediate sum `pos + align` in `align_up`, which must stay below 2^64 even though the final result is `pos + align - 1`. The `unwrap` of a null address in `alloc` is a `requires` too. The only wrapping arithmetic that is modelled is that of the hash, which the source intends (`wrapping_add`, and `<<` dropping high bits).

## Model

| member | source | states |
|---|---|---|
| BumpAllocator.AlignDown | arceos/modules/bump_allocator/src/lib.rs:166-168 | for a power-of-two `align`, `pos & !(align-1)` is a multiple of `align`, at most `pos`, and less than `align` below it |
| BumpAllocator.AlignUp | arceos/modules/bump_allocator/src/lib.rs:170-172 | for a power-of-two `align`, `(pos+align-1) & !(align-1)` is a multiple of `align`, at least `pos`, and less than `align` above it |
| BumpAllocator.AlignDownGreatest | arceos/modules/bump_allocator/src/lib.rs:166-168 | every multiple of `align` that is at most `pos` is at most `align_down(pos, align)`: it is the greatest such multiple |
| BumpAllocator.AlignUpLeast | arceos/modules/bump_allocator/src/lib.rs:170-172 | every multiple of `align` that is at least `pos` is at least `align_up(pos, align)`: it is the least such multiple |
| Bits.MaskLow | arceos/modules/bump_allocator/src/lib.rs:166-172 | for powers of two `a <= m` and `x < m`, masking `x` with `m - a` (the complement of `a-1` in `m` bits) clears exactly `x % a` |
| Bits.WordIsPow2 | arceos/modules/bump_allocator/src/lib.rs:166-172 | 2^64, the modulus of the `usize` NOT, is a power of two |
| BumpAllocator.InitState | arceos/modules/bump_allocator/src/lib.rs:69-78 | `init(start, size)` gives `start = start`, `end = start+size`, `b_next = b_end = start`, `p_next = p_end = start+size` and both counters 0 |
| BumpAllocator.InitEstablishesInv | arceos/modules/bump_allocator/src/lib.rs:69-78 | the state after `init` satisfies the reachable-state invariant `Inv`, and all six accounting getters report 0 there |
| BumpAllocator.ZeroedInv | arceos/modules/bump_allocator/src/lib.rs:33-44 | the all-zero fields of `new()` satisfy `Inv` |
| BumpAllocator.IncreaseBytesStep | arceos/modules/bump_allocator/src/lib.rs:46-54 | succeeds exactly when one more page stays at or below the floor; it then raises the ceiling by exactly one page, and otherwise fails with `NoMemory` and changes nothing |
| BumpAllocator.IncreasePagesStep | arceos/modules/bump_allocator/src/lib.rs:56-64 | succeeds exactly when `p_end - PAGE_SIZE * total_pages()` is at or above `b_end`; it then sets the floor to that value and changes nothing else, and otherwise fails with `NoMemory` and changes nothing |
| BumpAllocator.IncreasePagesIsNoop | arceos/modules/bump_allocator/src/lib.rs:56-64 | in every reachable state the floor's step `PAGE_SIZE * total_pages()` is 0, so `increase_pages` succeeds and changes nothing |
| BumpAllocator.AllocStep | arceos/modules/bump_allocator/src/lib.rs:88-97 | fails with `NoMemory`, changing nothing, iff `align_up(b_next)+size >= b_end` and one more page passes the floor; otherwise returns a multiple of `align` within `align` above `b_next`, sets `b_next` to its end, adds one to `b_alloc`, and grows `b_end` by one page exactly when the end reaches it |
| BumpAllocator.AllocKeepsInv | arceos/modules/bump_allocator/src/lib.rs:88-97 | `alloc` keeps `Inv`, never lowers `b_end` and leaves the region and the page side unchanged |
| BumpAllocator.AllocAccounting | arceos/modules/bump_allocator/src/lib.rs:88-97 | after a successful `alloc`, `used_bytes` grows by the alignment padding plus `size`, `total_bytes` does not shrink, and the page getters are unchanged |
| BumpAllocator.DeallocStep | arceos/modules/bump_allocator/src/lib.rs:100-105 | `dealloc` takes one from `b_alloc`, resets `b_next` to `start` exactly when the count reaches 0, and changes nothing else |
| BumpAllocator.DeallocAccounting | arceos/modules/bump_allocator/src/lib.rs:100-120 | `dealloc` keeps `Inv` and `total_bytes`; `used_bytes` becomes 0 when the last allocation goes and is unchanged otherwise |
| BumpAllocator.ByteZoneRestartsAtStart | arceos/modules/bump_allocator/src/lib.rs:89-105 | after the last live byte allocation is released, the next successful `alloc` returns `align_up(start, align)` |
| BumpAllocator.PageZoneRestartsAtEnd | arceos/modules/bump_allocator/src/lib.rs:128-148 | after the last live page allocation is released, the next `alloc_pages` with a valid alignment returns `align_down(end - n*PAGE_SIZE, align/PAGE_SIZE)` |
| BumpAllocator.AllocPagesStep | arceos/modules/bump_allocator/src/lib.rs:128-140 | an alignment that is not a multiple of `PAGE_SIZE` gives `InvalidParam` and changes nothing; otherwise the call returns `Ok` with the greatest multiple of `align/PAGE_SIZE` at most `p_next - n*PAGE_SIZE`, sets `p_next` to it, and adds one to `p_alloc` |
| BumpAllocator.AllocPagesKeepsInv | arceos/modules/bump_allocator/src/lib.rs:128-140 | `alloc_pages` keeps `Inv` and leaves the floor, the region and the byte side unchanged |
| BumpAllocator.AllocPagesNeverNoMemory | arceos/modules/bump_allocator/src/lib.rs:134-136 | from a reachable state, `alloc_pages` never returns `NoMemory` |
| BumpAllocator.AllocPagesAccounting | arceos/modules/bump_allocator/src/lib.rs:128-163 | after a successful `alloc_pages`, `used_pages` grows by at least the pages requested, and `total_pages` and the byte getters are unchanged |
| BumpAllocator.DeallocPagesStep | arceos/modules/bump_allocator/src/lib.rs:143-148 | `dealloc_pages` takes one from `p_alloc`, resets `p_next` to `end` exactly when the count reaches 0, and changes nothing else |
| BumpAllocator.Apply | arceos/modules/bump_allocator/src/lib.rs:81-148 | any one call (`alloc`, `dealloc`, `alloc_pages`, `dealloc_pages`, `add_memory`) whose preconditions hold keeps `Inv` |
| BumpAllocator.RunKeepsInv | arceos/modules/bump_allocator/src/lib.rs:46-148 | across any sequence of calls, `Inv` holds throughout (including `start <= b_next` and `b_end <= p_end`), the region never changes, `b_end` never decreases and `p_end` never moves |
| BumpAllocator.PageFloorFixedAfterInit | arceos/modules/bump_allocator/src/lib.rs:56-64 | for any region that fits in a `usize`, after `init(start, size)` and any calls, `p_end` is still `start+size`, `total_pages` is 0, and `alloc_pages` cannot return `NoMemory` |
| BumpAllocator.ByteCeilingOverrun | arceos/modules/bump_allocator/src/lib.rs:89-95 | a request reaching more than a page past `b_end` succeeds when one page of room is left, and leaves `b_next` above the new `b_end` (and above `end` when it reaches past the region) |
| BumpAllocator.PageFrontierBelowFloor | arceos/modules/bump_allocator/src/lib.rs:133-138 | every page allocation of at least one page leaves `p_next` below `p_end`, which stays at `end` |
| BumpAllocator.PagesOverlapBytes | arceos/modules/bump_allocator/src/lib.rs:133-139 | a page request reaching below `b_end` succeeds and returns an address below the byte ceiling `b_end` |
| BumpAllocator.PagesLeaveRegion | arceos/modules/bump_allocator/src/lib.rs:133-139 | a page request reaching below `start` succeeds and returns an address below `start`, outside the region |
| BumpAllocator.PagesLeaveRegionExample | arceos/modules/bump_allocator/src/lib.rs:133-139 | with 4096-byte pages, `init(4096, 8192)` then `alloc_pages(3, 4096)` returns address 0 |
| BumpAllocator.PageAlignmentIgnored | arceos/modules/bump_allocator/src/lib.rs:132-133 | when `p_next - n*PAGE_SIZE` is a multiple of `align/PAGE_SIZE` but not of `align`, it is returned as it is, not aligned to `align` |
| BumpAllocator.CoverCeiling | arceos/modules/bump_allocator/src/lib.rs:46-54 | the ceiling a request needs: `b_end` when the request fits, otherwise `b_end` plus whole pages, the fewest that reach the request's end (less than one page to spare) |
| BumpAllocator.AllocFixed | arceos/modules/bump_allocator/src/lib.rs:46-54 | corrected `alloc`: succeeds exactly when `CoverCeiling` stays at or below the floor; it then returns `align_up(b_next, align)`, raises the ceiling to `CoverCeiling`, moves `b_next` to the end and counts one more allocation, and otherwise fails with `NoMemory` and changes nothing; the zones stay apart |
| BumpAllocator.AllocPagesFixed | arceos/modules/bump_allocator/src/lib.rs:56-64 | corrected `alloc_pages`: `InvalidParam` and no change for an alignment that is not a multiple of `PAGE_SIZE`; otherwise succeeds exactly when `n` pages fit below `p_next` and `align_down(p_next - n*PAGE_SIZE, align)` is at or above `b_end`, returning that address, setting `p_next` to it and the floor to at most it; otherwise `NoMemory` and no change; the zones stay apart |
| BumpAllocator.DeallocsKeepZonesApart | arceos/modules/bump_allocator/src/lib.rs:100-105 | `dealloc` and `dealloc_pages` as written keep the intended zone layout |
| BumpAllocator.FixedAllocationsDisjoint | arceos/modules/bump_allocator/src/lib.rs:9-19 | under the corrected rules, a byte allocation and a following page allocation never overlap |
| BumpAllocator.AllocatorState.TotalBytes | arceos/modules/bump_allocator/src/lib.rs:108-110 | `total_bytes`: the granted byte zone `[start, start + r)` ends at the ceiling `b_end` |
| BumpAllocator.AllocatorState.UsedBytes | arceos/modules/bump_allocator/src/lib.rs:113-115 | `used_bytes`: the used byte zone `[start, start + r)` ends at the frontier `b_next` |
| BumpAllocator.AllocatorState.AvailableBytes | arceos/modules/bump_allocator/src/lib.rs:118-120 | `available_bytes`: `b_next + r` is the ceiling `b_end` |
| BumpAllocator.AllocatorState.TotalPages | arceos/modules/bump_allocator/src/lib.rs:151-153 | `total_pages`: `r` is the number of whole pages between the floor and `end` (`r` pages fit, `r + 1` do not) |
| BumpAllocator.AllocatorState.UsedPages | arceos/modules/bump_allocator/src/lib.rs:156-158 | `used_pages`: `r` is the number of whole pages between `p_next` and `end` |
| BumpAllocator.AllocatorState.AvailablePages | arceos/modules/bump_allocator/src/lib.rs:161-163 | `available_pages`: `r` is the number of whole pages between the floor and `p_next` |
| BumpAllocator.EarlyAllocator.constructor | arceos/modules/bump_allocator/src/lib.rs:33-44 | `new()`: every field zero, invariant established |
| BumpAllocator.EarlyAllocator.Init | arceos/modules/bump_allocator/src/lib.rs:69-78 | from any state, the fields become `InitState(start, size)` and `Valid` holds |
| BumpAllocator.EarlyAllocator.AddMemory | arceos/modules/bump_allocator/src/lib.rs:81-83 | always `Ok(())`, and no field may change |
| BumpAllocator.EarlyAllocator.IncreaseBytes | arceos/modules/bump_allocator/src/lib.rs:46-54 | fields and result are those of `IncreaseBytesStep` |
| BumpAllocator.EarlyAllocator.IncreasePages | arceos/modules/bump_allocator/src/lib.rs:56-64 | fields and result are those of `IncreasePagesStep` |
| BumpAllocator.EarlyAllocator.Alloc | arceos/modules/bump_allocator/src/lib.rs:88-97 | keeps `Valid`; fields and result are those of `AllocStep` |
| BumpAllocator.EarlyAllocator.Dealloc | arceos/modules/bump_allocator/src/lib.rs:100-105 | keeps `Valid`; fields become `DeallocStep` of the old ones |
| BumpAllocator.EarlyAllocator.AllocPages | arceos/modules/bump_allocator/src/lib.rs:128-140 | keeps `Valid`; fields and result are those of `AllocPagesStep` |
| BumpAllocator.EarlyAllocator.DeallocPages | arceos/modules/bump_allocator/src/lib.rs:143-148 | keeps `Valid`; fields become `DeallocPagesStep` of the old ones |
| BumpAllocator.EarlyAllocator.TotalBytes | arceos/modules/bump_allocator/src/lib.rs:108-110 | the same as `AllocatorState.TotalBytes`, read from the object's fields |
| BumpAllocator.EarlyAllocator.UsedBytes | arceos/modules/bump_allocator/src/lib.rs:113-115 | the same as `AllocatorState.UsedBytes`, read from the object's fields |
| BumpAllocator.EarlyAllocator.AvailableBytes | arceos/modules/bump_allocator/src/lib.rs:118-120 | the same as `AllocatorState.AvailableBytes`, read from the object's fields |
| BumpAllocator.EarlyAllocator.TotalPages | arceos/modules/bump_allocator/src/lib.rs:151-153 | the same as `AllocatorState.TotalPages`, read from the object's fields |
| BumpAllocator.EarlyAllocator.UsedPages | arceos/modules/bump_allocator/src/lib.rs:156-158 | the same as `AllocatorState.UsedPages`, read from the object's fields |
| BumpAllocator.EarlyAllocator.AvailablePages | arceos/modules/bump_allocator/src/lib.rs:161-163 | the same as `AllocatorState.AvailablePages`, read from the object's fields |
| Collections.HashStep | arceos/ulib/axstd/src/collections.rs:77 | one hash round, `(h << 5).wrapping_add(h) ^ byte`, is `h * 33 mod 2^64` xor the byte |
| Collections.Djb2 | arceos/ulib/axstd/src/collections.rs:74-78 | the fold from the seed: the empty key leaves the seed and a one-byte key takes one round (the fold over longer keys is `Djb2Concat`) |
| Collections.Djb2Concat | arceos/ulib/axstd/src/collections.rs:74-78 | hashing `a + b` from a seed is hashing `b` from the hash of `a`: the fold reads the bytes in order |
| Collections.BucketOf | arceos/ulib/axstd/src/collections.rs:80 | the bucket index, the hash reduced modulo the table length, is below the table length |
| Collections.Position | arceos/ulib/axstd/src/collections.rs:58-61 | `position` returns the first index whose key matches, or `None` when no key matches |
| Collections.BucketInsert | arceos/ulib/axstd/src/collections.rs:33-41 | overwrite-or-append: the bucket grows by one exactly when the key was absent, holds `(k, v)`, and keeps every entry with another key at its index |
| Collections.BucketRemove | arceos/ulib/axstd/src/collections.rs:57-67 | removing the first match: the bucket shrinks by one exactly when the key was present, gains no entry, and keeps every entry with another key |
| Collections.BucketInsertEffect | arceos/ulib/axstd/src/collections.rs:33-41 | after overwrite-or-append on a bucket, the key is found with the new value, and every other key is found and counted as before; the bucket grows by one exactly when the key was absent |
| Collections.BucketRemoveEffect | arceos/ulib/axstd/src/collections.rs:57-67 | removing the first match from a bucket with no duplicate of the key leaves the key absent and every other key as before; the bucket shrinks by one exactly when the key was present |
| Collections.LookupInOwnBucket | arceos/ulib/axstd/src/collections.rs:44-53 | when every entry sits in the bucket its key hashes to, searching all entries gives what searching the key's own bucket gives |
| Collections.MapFromBucket | arceos/ulib/axstd/src/collections.rs:44-53 | in a well-formed table, a key is in the map iff `position` finds it in its own bucket, with that entry's value |
| Collections.ToMapFind | arceos/ulib/axstd/src/collections.rs:83-85 | the map view of the entries and the first-match search agree on every key |
| Collections.ToMapSize | arceos/ulib/axstd/src/collections.rs:83-85 | with no repeated key, the map has exactly as many keys as there are entries |
| Collections.Flatten | arceos/ulib/axstd/src/collections.rs:83-85 | the flattened table contains every bucket's entries, with their multiplicity |
| Collections.TableInsert | arceos/ulib/axstd/src/collections.rs:28-42 | `insert` on the table changes only the key's own bucket, which then holds `(k, v)` |
| Collections.TableRemove | arceos/ulib/axstd/src/collections.rs:55-68 | `remove` on the table changes only the key's own bucket, which loses no entry of another key and gains none |
| Collections.InsertKeepsOk | arceos/ulib/axstd/src/collections.rs:28-42 | `insert` keeps every entry in the bucket its key hashes to and no key repeated in a bucket |
| Collections.RemoveKeepsOk | arceos/ulib/axstd/src/collections.rs:55-68 | `remove` keeps every entry in the bucket its key hashes to and no key repeated in a bucket |
| Collections.InsertKeepsTable | arceos/ulib/axstd/src/collections.rs:28-42 | `insert(k, v)` keeps both invariants (placement by hash, no repeated key), maps `k` to `v`, leaves other keys alone, and adds one entry exactly when `k` was absent |
| Collections.RemoveKeepsTable | arceos/ulib/axstd/src/collections.rs:55-68 | `remove(k)` keeps both invariants, drops `k` from the map, leaves other keys alone, and removes one entry exactly when `k` was present |
| Collections.TableUnique | arceos/ulib/axstd/src/collections.rs:83-85 | in a well-formed table no key occurs twice across all buckets |
| Collections.EntryInMap | arceos/ulib/axstd/src/collections.rs:83-85 | each entry of a list with no repeated key carries the value the map gives its key |
| Collections.HashMap.constructor | arceos/ulib/axstd/src/collections.rs:20-26 | `new()`: sixteen empty buckets, `size = 0`, the seed 1145141919810, the empty map |
| Collections.HashMap.Hash | arceos/ulib/axstd/src/collections.rs:70-81 | the loop computes the djb2 fold of the key from `stamp`; the index returned is that fold modulo the table length, so it is below the table length |
| Collections.HashMap.Get | arceos/ulib/axstd/src/collections.rs:44-53 | returns the value the map gives `key`, or `None` when it has none |
| Collections.HashMap.Insert | arceos/ulib/axstd/src/collections.rs:28-42 | keeps `Valid`; the map becomes `old[key := value]`; `size` grows by one exactly when `key` was absent; the table is `TableInsert` of the old one |
| Collections.HashMap.Remove | arceos/ulib/axstd/src/collections.rs:55-68 | keeps `Valid`; returns the old value of `key` or `None`; the map loses `key`; `size` shrinks by one exactly when `key` was present |
| Collections.HashMap.Iter | arceos/ulib/axstd/src/collections.rs:83-85 | yields exactly `size` items, which is the number of keys; no key twice; each item is a key with its mapped value |

## Left out

- The traits `BaseAllocator`, `ByteAllocator` and `PageAllocator`, and the types `Layout`, `NonNull` and `AllocError` of the external `allocator` crate. The model has one class that takes `size` and `align` as integers, and a local `AllocResult`.
- Panics are preconditions and are not modelled as behaviour. They are: `usize` overflow (`start + size`, `b_end + PAGE_SIZE`, `b_alloc += 1`), underflow (`p_next - n*PAGE_SIZE`, `b_alloc -= 1`), and `unwrap` on a null address in `alloc`.
- `Layout` guarantees that `align` is a power of two. This is a precondition of `alloc`. `alloc_pages` has no such check, so the model requires `align_pow2 / PAGE_SIZE` to be a power of two.
- Memory contents and address validity: addresses are plain integers, and nothing is read or written through them.
- The accounting getters require their `usize` subtraction not to underflow. `PageFrontierBelowFloor` shows that `available_pages` does underflow after any page allocation.
- Wrapping (release-build) `usize` arithmetic in the allocator is not modelled: a sum or product that would overflow is excluded by a `requires`.
- `AllocFixed` and `AllocPagesFixed` are not used by the class `EarlyAllocator`, which keeps the behaviour as written.
- The re-export `pub use alloc::collections` (collections.rs:1-3) has no logic.
- Generic keys: keys are fixed to byte sequences, because the hash reads only `as_ref()` bytes. Key equality is sequence equality. Values stay generic.
- Collections.HashMap.Insert: the resize branch (`hash >= tab.len()`, collections.rs:30-32) is not in the method. `Hash` is proved to return an index below the table length, so the branch is never taken and the table stays at sixteen buckets.
- `iter` returns a lazy iterator. The model returns the flattened sequence it yields.
- Collections.HashMap.Hash: the loop body calls `HashStep`, which is the source's expression `(h << 5).wrapping_add(h) ^ byte` as a function; its contract relates it to multiplication by 33.
- Collections.Djb2: its own contract covers keys of up to one byte only; the fold over longer keys is stated by `Djb2Concat`, because a contract that mentions `Djb2` again would make every use of the function unfold without end.
- Collections.Flatten: its contract states that every bucket's entries are in the flattened table; that it holds nothing else, and in which order, follows from its definition and is used by `LookupInOwnBucket` and `ToMapFind`.
- A 64-bit `usize` is assumed throughout (`WORD = 2^64`, and the hash is `bv64`). The seed 1145141919810 needs it.
- Concurrency: the source has none. Both objects are used through `&mut self`.

## Findings

| source | as written | input that shows it | evidently intended | confidence | as-written member | corrected member |
|---|---|---|---|---|---|---|
| arceos/modules/bump_allocator/src/lib.rs:91-95 | when the request's end reaches `b_end`, `alloc` grows the ceiling by one page whatever the request's size, then succeeds | with 4096-byte pages, `init(4096, 8192)` then `alloc(65536, 8)` returns 4096 with `b_next` 69632, above `b_end` 8192 and `end` 12288 | grow the ceiling by enough whole pages to cover the request, or fail | not executed | BumpAllocator.ByteCeilingOverrun | BumpAllocator.AllocFixed |
| arceos/modules/bump_allocator/src/lib.rs:56-64, 134 | the floor's step is `PAGE_SIZE * total_pages()`, which is 0 while `p_end = end`, so `p_end` never moves and page allocations are never checked against the byte ceiling | with 4096-byte pages, `init(4096, 8192)`, `alloc(8, 8)` and `alloc_pages(2, 4096)` both return 4096 | move the floor down to each page allocation and fail with `NoMemory` when it would cross `b_end` | not executed | BumpAllocator.PagesOverlapBytes | BumpAllocator.FixedAllocationsDisjoint |
| arceos/modules/bump_allocator/src/lib.rs:133-139 | nothing checks the page frontier against `start` either, so a page request can return an address outside the region | with 4096-byte pages, `init(4096, 8192)` then `alloc_pages(3, 4096)` returns 0, below `start` 4096 | fail with `NoMemory` when the pages would cross `b_end`, which is at or above `start` | not executed | BumpAllocator.PagesLeaveRegionExample | BumpAllocator.AllocPagesFixed |
| arceos/modules/bump_allocator/src/lib.rs:132-133 | the byte alignment is divided by `PAGE_SIZE` before a byte address is aligned to it | with 4096-byte pages, `init(4096, 12288)` then `alloc_pages(1, 8192)` returns 12288, not a multiple of 8192 | align the address to `align_pow2` bytes | not executed | BumpAllocator.PageAlignmentIgnored | BumpAllocator.AllocPagesFixed |
