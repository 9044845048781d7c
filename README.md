# rlsf test support: shadow allocator, flex test sources and the random test

This project models, in Dafny, the test support that `rlsf` uses to cross-check its
TLSF allocator. It has three parts.

- **The shadow allocator** (`ShadowAllocator`, module `Shadow`, `shadow.dfy`). It is an
  interval map from addresses to one of three states, `Free`, `Used` or `Invalid`. It is
  stored as an ordered map `map<nat, Region>` from a start address to the state that holds
  up to the next key. The abstract meaning of the map is the total function
  `StateOf(m, a)`: the value at the greatest key at or below `a`.
  - The representation invariant is `WellFormed`: key 0 is present and every other key
    marks a real change of state. It is proved equivalent to "adjacent entries differ".
  - It is proved canonical: two well-formed maps with the same states are the same map.
  - `convert_range` is a method that changes the class's `regions` field. The methods
    built on it are `insert_free_block`, `append_free_block`, `allocate` and `deallocate`.
  - A Rust panic is modelled as a returned `Panic(reason)`, with the map untouched. Every
    panic in the source comes before any update.
- **The flexible memory sources** (module `FlexSources`, `flex_sources.dfy`).
  - `CgFlexSource` is a bump-pointer source over a 32 KiB `array<bv8>`. A ghost list of
    the ranges handed out so far tiles `[base, base + allocated)`.
  - `TrackingFlexSource` forwards each call to that source. After each successful call it
    records the returned memory in its shadow allocator as `Free`. Its invariant: the
    shadow marks `Invalid` exactly the addresses the inner source has not handed out.
- **`random_inner`** (module `RandomTest`, `random_test.dfy`). It decodes a byte code into
  allocate, deallocate and reallocate calls, replays each into the shadow, and keeps the
  vector of live allocations.
  - The TLSF allocator itself is not part of this model. Its behaviour is the parameter
    `tlsf: nat -> TlsfReply`. `tlsf(n)` is the allocator's reply to its `n`-th allocate or
    reallocate call: the pool requests it sends to its source, then the pointer it returns
    or `None`.
  - The shadow's whole state follows from the pool's byte count and the live list
    (`Describes`): `Invalid` outside the pool, `Used` where a live allocation lies, `Free`
    elsewhere. Each step is proved to keep this description.
  - The proved result: the verdict and live list of a run are exactly those of `Replay`, which
    decodes the instructions and checks each reply against the described shadow. The run
    stops early only on the panics the source raises. Whenever a run ends without a panic,
    the live allocations are pairwise disjoint, aligned, and have the layouts the decoder can
    produce.

Addresses and lengths are `nat`. The shadow's state is the map, not the bytes. The
capability flags of `CgFlexSource` are constant functions, as in the source:
`IsContiguousGrowable` and `SupportsReallocInplaceGrow` are `true`, and `MinAlign` is 1.

Consequence of the canonical form, proved as `Shadow.InvalidBoundaryIsKey`: when the map
has a key at `start > 0` holding `Invalid`, the entry before it is never `Invalid`. So the
second assertion of `append_free_block` can only fail when `start` is 0 (there is no
previous entry).

## Model

| member | source | states |
|---|---|---|
| Shadow.LastKeyAtOrBelow | crates/rlsf/src/tests.rs:46 | the entry found by `range(0..=a).rev().next()` is a key at or below `a`, with no key between it and `a` |
| Shadow.CanonicalIffNeighboursDiffer | crates/rlsf/src/tests.rs:63-80 | "every key marks a change from the state just below it" holds exactly when no two consecutive entries hold the same state (both directions) |
| Shadow.UniformHasNoBoundary | crates/rlsf/src/tests.rs:46-48 | in a well-formed map, a range that is uniformly one state has no key strictly inside it |
| Shadow.BoundaryBreaksUniform | crates/rlsf/src/tests.rs:46-48 | a key strictly inside a range means the range is not uniformly any state, which is why the discontinuity check suffices |
| Shadow.UniformBelowLastKey | crates/rlsf/src/tests.rs:46-54 | when the last key below `end` is at or before `start`, the whole range holds that key's state |
| Shadow.CanonicalUnique | crates/rlsf/src/tests.rs:63-80 | two well-formed maps that give every address the same state are equal |
| Shadow.ConvertBackRestores | crates/rlsf/src/tests.rs:108-130 | converting a uniform range to another state and back restores the exact original map |
| Shadow.RenormalisedIsConverted | crates/rlsf/src/tests.rs:56-80 | the map after re-normalising both boundaries is well-formed, maps `[start, end)` to the new state and leaves every other address as it was |
| Shadow.InvalidBoundaryIsKey | crates/rlsf/src/tests.rs:89-103 | for `start > 0`, a key at `start` holding `Invalid` exists exactly when `start` is `Invalid` and `start - 1` is not |
| Shadow.ShadowAllocator.constructor | crates/rlsf/src/tests.rs:22-26 | the map is `{0 ↦ Invalid}` and every address is `Invalid` |
| Shadow.ShadowAllocator.ConvertRange | crates/rlsf/src/tests.rs:28-81 | an empty range changes nothing; otherwise it succeeds exactly when the states differ and the range is uniformly the old state. The panic reasons match the source's three panics, and the reason is fixed by the old states: a discontinuity when the range's states differ, otherwise a mismatch naming the state they share (`ConflictAt`). On success exactly `[start, end)` changes, the map stays well-formed, and on a panic it is unchanged |
| Shadow.ShadowAllocator.SetBoundaries | crates/rlsf/src/tests.rs:56-80 | the in-place key updates at `start` and `end` keep the map well-formed and convert exactly `[start, end)` |
| Shadow.ShadowAllocator.InsertFreeBlock | crates/rlsf/src/tests.rs:83-87 | a block is accepted exactly when it is empty or uniformly `Invalid`, and then becomes `Free` |
| Shadow.ShadowAllocator.AppendFreeBlock | crates/rlsf/src/tests.rs:89-106 | accepted exactly when there is a boundary into `Invalid` at `start` with a non-`Invalid` state before it, and the block is `Invalid`. It then becomes `Free`. The missing-boundary panic happens exactly when there is no `(start, Invalid)` entry. The no-previous-block panic happens exactly when `start` is 0 and address 0 is `Invalid` |
| Shadow.ShadowAllocator.Allocate | crates/rlsf/src/tests.rs:108-118 | panics exactly on a misaligned start; otherwise the range must be uniformly `Free`, the panic reason is `ConflictAt` of the old map, and on success the range becomes `Used` |
| Shadow.ShadowAllocator.Deallocate | crates/rlsf/src/tests.rs:120-130 | panics exactly on a misaligned start; otherwise the range must be uniformly `Used`, the panic reason is `ConflictAt` of the old map, and on success the range becomes `Free` |
| FlexSources.TilesAppend | crates/rlsf/src/flex/tests.rs:108-114 | a range starting where the handed-out ranges end extends the tiling |
| FlexSources.TilesInOrder | crates/rlsf/src/flex/tests.rs:108-114 | the ranges handed out lie inside `[base, base + allocated)`, in increasing address order and without overlap |
| FlexSources.CgFlexSource.constructor | crates/rlsf/src/flex/tests.rs:97-104 | a 32 KiB buffer with nothing handed out. The capability flags of flex/tests.rs:126-136 are the constant functions `IsContiguousGrowable` (`true`), `SupportsReallocInplaceGrow` (`true`) and `MinAlign` (1), which carry no contract |
| FlexSources.CgFlexSource.Alloc | crates/rlsf/src/flex/tests.rs:107-115 | `None`, with nothing changed, exactly when `allocated + min_size` exceeds the buffer; otherwise the range `pool[allocated..allocated + min_size]`, with `allocated` advanced and `allocated <= pool.len()` kept |
| FlexSources.CgFlexSource.ReallocInplaceGrow | crates/rlsf/src/flex/tests.rs:117-124 | on success returns `min_new_len` and hands out the extra bytes at the old `allocated`, so the grown range is contiguous when `ptr` was handed out last; on failure nothing changes |
| FlexSources.TrackingFlexSource.constructor | crates/rlsf/src/flex/tests.rs:10-14 | a fresh shadow (`{0 ↦ Invalid}`) over a fresh inner source |
| FlexSources.TrackingFlexSource.Alloc | crates/rlsf/src/flex/tests.rs:30-36 | the inner result is passed through; on success the new range was `Invalid` in the shadow and becomes `Free`, and the shadow never panics |
| FlexSources.TrackingFlexSource.ReallocInplaceGrow | crates/rlsf/src/flex/tests.rs:38-51 | the inner result is passed through. On success the shadow accepts the tail `[end(ptr), end(ptr) + new_len - len(ptr))` exactly when `ptr` ends where the handed-out memory ended and something had been handed out. The tail then becomes `Free`. Otherwise the shadow is unchanged, and the panic is "no previous block" exactly when the tail starts at address 0 and address 0 is outside the pool, and "no boundary" in every other case |
| FlexSources.AppendAcceptedAtTop | crates/rlsf/src/flex/tests.rs:44-49 | against a shadow mirroring `[lo, hi)`, a tail appended at `e` is accepted exactly when `e == hi` and `lo < hi` |
| RandomTest.MaxAllocSize | crates/rlsf/src/flex/tests.rs:166 | the bound is below `0x10000` and differs from the raw value by a multiple of `0x10000` |
| RandomTest.Opcode | crates/rlsf/src/flex/tests.rs:186-217 | `byte % 8` in 0–2 is allocate, 3–5 deallocate, 6–7 reallocate |
| RandomTest.LeU24 | crates/rlsf/src/flex/tests.rs:188-193 | three little-endian bytes read as a number below `2^24` |
| RandomTest.LeU24Bytes | crates/rlsf/src/flex/tests.rs:188-193 | three bytes read as `n` exactly when they are `n`'s little-endian bytes |
| RandomTest.ScaledBelow | crates/rlsf/src/flex/tests.rs:194 | a 24-bit number times `max`, shifted right by 24, is below `max` |
| RandomTest.DecodeLen | crates/rlsf/src/flex/tests.rs:194 | the 64-bit product cannot overflow; the length is 0 when `max` is 0 and below `max` otherwise |
| RandomTest.DecodeLenReachesAll | crates/rlsf/src/flex/tests.rs:194 | every length below `max` is decoded from some three bytes |
| RandomTest.Pow2 | crates/rlsf/src/flex/tests.rs:195 | `1 << e` is a power of two |
| RandomTest.Pow2Monotone | crates/rlsf/src/flex/tests.rs:195 | `1 << e` grows with `e` |
| RandomTest.PowerOfTwoLog | crates/rlsf/src/flex/tests.rs:195 | every power of two is `1 << e` for some `e` |
| RandomTest.DecodeAlign | crates/rlsf/src/flex/tests.rs:195 | the alignment is a power of two from 1 to 32 |
| RandomTest.DecodeAlignReachesAll | crates/rlsf/src/flex/tests.rs:195 | every power of two from 1 to 32 is decoded from some byte |
| RandomTest.SwapRemove | crates/rlsf/src/flex/tests.rs:210 | `swap_remove` drops exactly the element at `i` (as a multiset), keeps the others in place and moves the last one to `i` |
| RandomTest.UsedFreeApart | crates/rlsf/src/flex/tests.rs:202-205 | a range that is all `Used` and one that is all `Free` share no byte |
| RandomTest.TrackPush | crates/rlsf/src/flex/tests.rs:202-205 | pushing a newly allocated block that was `Free` and is now `Used` keeps the live list disjoint, well-decoded and `Used` |
| RandomTest.TrackRemove | crates/rlsf/src/flex/tests.rs:207-215 | freeing one live allocation and swap-removing it keeps the rest disjoint, well-decoded and `Used` |
| RandomTest.TrackReplace | crates/rlsf/src/flex/tests.rs:234-239 | freeing the old range and marking the new one `Used` keeps the list tracked after the entry is rewritten in place |
| RandomTest.GrowthExtends | crates/rlsf/src/flex/tests.rs:30-51 | one more range turned from `Invalid` to `Free` keeps the shadow differing from its start only by `Invalid` bytes that became `Free` |
| RandomTest.GrownKeepsUsed | crates/rlsf/src/flex/tests.rs:30-51 | such growth leaves every live allocation `Used` |
| RandomTest.PoolGrowthBounded | crates/rlsf/src/flex/tests.rs:107-124 | serving pool requests never decreases the number of bytes handed out and never exceeds the 32 KiB buffer |
| RandomTest.ConversionKeepsMirror | crates/rlsf/src/flex/tests.rs:204 | turning `Free` into `Used` or back keeps the shadow mirroring the source's handed-out memory |
| RandomTest.ServePoolRequests | crates/rlsf/src/flex/tests.rs:30-51 | the source ends with exactly the byte count `PoolGrowth` gives, and the verdict is exactly the one `PoolGrowth`'s stop gives: a length underflow when a grow request underflows, a shadow panic with `PoolGrowth`'s reason when a tail is rejected. When all requests are served, the shadow is still described by `Describes` with the new byte count, the shadow differs only by `Invalid` bytes that became `Free`, the source stays valid, and live allocations stay `Used` |
| RandomTest.AllocStep | crates/rlsf/src/flex/tests.rs:199-205 | a returned pointer pushes exactly one allocation. The shadow panics exactly when the pointer is misaligned or its bytes were not all `Free`. The same conditions and the panic reason are also stated on the described shadow (`FreeIn`, `ExpectedConflict`). Otherwise exactly `[ptr, ptr + size)` becomes `Used`, every other address keeps its state, and the shadow is described with the pushed list; a zero size or `None` changes nothing |
| RandomTest.DeallocStep | crates/rlsf/src/flex/tests.rs:207-216 | exactly the chosen allocation is swap-removed, its bytes become `Free`, the shadow is described with the shortened list, and the shadow never panics |
| RandomTest.ReallocStep | crates/rlsf/src/flex/tests.rs:217-244 | on failure nothing changes. On success the entry is rewritten with the new pointer and length and the old alignment. The shadow panics exactly when the new pointer is misaligned or a new byte is neither `Free` nor part of the old allocation. The same condition and the panic reason are also stated on the described shadow without the old allocation (`FreeIn`, `ExpectedConflict` over `SwapRemove(allocs, i)`). Otherwise the new range is `Used`, the rest of the old allocation is `Free`, every other address keeps its state, and the shadow is described with the rewritten list |
| RandomTest.DescribesGrowth | crates/rlsf/src/flex/tests.rs:30-51 | new pool memory keeps the shadow described, with the larger byte count |
| RandomTest.DescribesPush | crates/rlsf/src/flex/tests.rs:202-205 | marking a `Free` range `Used` and pushing it keeps the shadow described |
| RandomTest.DescribesRemove | crates/rlsf/src/flex/tests.rs:209-215 | marking a live allocation `Free` and swap-removing it keeps the shadow described |
| RandomTest.DescribesReplace | crates/rlsf/src/flex/tests.rs:236-239 | once the old allocation is released, marking the new range `Used` in its place keeps the shadow described |
| RandomTest.Released | crates/rlsf/src/flex/tests.rs:236 | after the old allocation is released, the new range is all `Free` exactly when each byte was `Free` or part of the old allocation, exactly when the shadow described without that allocation has it `Free`; the panic reason agrees with the description too |
| RandomTest.Replaced | crates/rlsf/src/flex/tests.rs:237-239 | after the new range is marked `Used`, the shadow mirrors the same pool, tracks and describes the rewritten list, and differs from the start only on the old and new bytes |
| RandomTest.AllocInstruction | crates/rlsf/src/flex/tests.rs:199-205 | serving the pool requests and then replaying the returned pointer ends exactly as `AllocNext` says: the verdict, the live list and the new byte count |
| RandomTest.ReallocInstruction | crates/rlsf/src/flex/tests.rs:228-243 | serving the pool requests and then replaying the reallocated pointer ends exactly as `ReallocNext` says |
| RandomTest.RandomInner | crates/rlsf/src/flex/tests.rs:165-249 | the verdict and the live list are exactly those `Replay` computes from the decoded instructions and the allocator's replies. `Replay` stops only when the bytes run out, when a pool request underflows or is rejected, or when a returned pointer is misaligned or lands on bytes that are not free; it gives the panic reason in each case. A run that finishes leaves the live allocations pairwise disjoint, aligned, and with decodable layouts |

## Left out

- `FlexTlsf` and `Tlsf` (`allocate`, `deallocate`, `reallocate`, `source_mut_unchecked`) are not part of this model. Their replies are the parameter `tlsf`; `deallocate` has no observable result.
- `GlobalAllocAsFlexSource` and the system allocator are foreign code and are left out.
- `ShadowAllocator::remove_pool`, `assert_no_pools` and `TrackingFlexSource`'s `Drop` and `dealloc` are left out. Their shadow side is not part of the modelled source, and `CgFlexSource` does not support deallocation.
- `TrackingFlexSource::{min_align, is_contiguous_growable, supports_dealloc, supports_realloc_inplace_grow}` only forward to the inner source and are left out.
- `CgFlexSource.IsContiguousGrowable` and `CgFlexSource.SupportsReallocInplaceGrow` are constant `true` functions with no contract of their own.
- The `minimal` test, logging, `env_logger`, the quickcheck harness and the `gen_test!` instantiations are test plumbing, not logic.
- Raw pointers (`NonNull`, `slice_from_raw_parts`) are reduced to addresses and lengths. `Layout::from_size_align(..).unwrap()` cannot fail for the decoded sizes and alignments.
- FlexSources.CgFlexSource.ReallocInplaceGrow: requires `ptr.len <= minNewLen`, so the underflow panic of `min_new_len - len(ptr)` is a precondition here rather than a modelled outcome.
- FlexSources.TrackingFlexSource.ReallocInplaceGrow: same precondition. The underflow is modelled one level up: `RandomTest.ServePoolRequests` checks for it and stops the run with the `LengthUnderflow` verdict.
- Shadow.ShadowAllocator.ConvertRange: addresses are unbounded, so the `usize` overflow of `start + len` in `insert_free_block`, `allocate` and `deallocate` is not modelled.
- The contents of the source's buffer are not modelled: nothing reads or writes them.
- RandomTest.ServePoolRequests: the order in which the allocator interleaves its pool requests with its own bookkeeping is not modelled. All of a call's requests are served before its result is replayed.
- RandomTest.RandomInner: a run ended by a shadow panic returns that panic and the live list at that moment. The Rust test would abort instead.
