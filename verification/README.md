# Verified models of the RaftKeeper base components

This project models the self-contained cores of the repository in Dafny and proves what they
promise, for all inputs, all widths and all interleavings. `dafny verify dfyconfig.toml` checks it.

**ArrayCache** is a cache and an allocator in one. `Tape.dfy` describes how regions tile chunks;
`CacheRegions.dfy`, `CacheAllocate.dfy` and `CacheHolders.dfy` are a value model of every operation
with the structural invariant `Valid`; `CacheTheorems.dfy`, `CacheEviction.dfy` and
`CacheAccounting.dfy` say what `allocate`, its evictions and the counters promise. `ArrayCache.dfy` is the imperative form: mutable region records
linked into four containers, each method proved to refine the value model. `CacheProtocol.dfy` is
`getOrSet` as a step system, one step per critical section, for any number of threads; calls of
`get_size` and `initialize` may return or throw, and allocation may fail.
`CacheProtocolProof.dfy` proves that every step keeps the invariant and
`CacheProtocolTheorems.dfy` draws the conclusions over all runs; `CacheProtocolCaching.dfy` says
that a value once computed is found until it is evicted, which regions are evicted first, and how
calls are answered.

**PCG generators.** `PcgEngine.dfy` holds the number theory of the linear congruential core:
jumping, stepping back, the discrete logarithm of `distance`, the period. `PcgRandom.dfy` is the
generator object and `PcgOutput.dfy` the RXS-M-XS output permutation with its inverse.
`Uint128.dfy` is the fallback 128-bit integer, with the shifts of `Words32.dfy`.

**Wide integers** are rows of 64-bit items of any length (`WideWords.dfy`): addition, subtraction and
comparison (`WideAdd.dfy`), shifts (`WideShift.dfy`), both multiplications (`WideMul.dfy`), unsigned
division (`WideDiv.dfy`), parsing and printing (`WideText.dfy`). Signed division runs the same loops on
two's complement numbers: `SignedDivision.dfy` follows the runs on the numbers, `WideSignedDiv.dfy` the
items.

**Printing** of built-in integers is in `Itoa.dfy`; `Decimals.dfy` is the decimal notation that both
printers are measured against.

**Arenas.** `Arena.dfy` has the bump allocator with its padding, extension and reallocation, and the
arena allocators; `FreeLists.dfy` the arena with free lists. Addresses the system hands out are
parameters (`at`), required to be unused.

**JSON.** `Json.dfy` says what the skip functions compute on any text, `JsonReader.dfy` has their
loops, `JsonTexts.dfy` says exactly which texts they accept, well-formed or not, and
`JsonGrammar.dfy` relates them to the grammar of sections 3 to 7 of RFC 8259.

**CompactArray** (`CompactArray.dfy`) packs cells of 1 to 7 bits into bytes.

`Arith.dfy`, `Bits.dfy` and `Lists.dfy` are the mathematics the others share. Machine words are
natural numbers with every reduction modulo 2^w written out.

Where the code does not do what it is meant to do, the code was followed, the exact condition is
stated and an input outside it is given: the allocation counter of the cache (`CounterExactIff`,
`CounterDrifts`), `backstep` for multipliers that are not odd (`BackstepUndoesIff`, `EvenLoses`),
order and equality with shorter signed operands (`WideOrderIff`, `ReadBeyond`, `BuiltinOrderIff`,
`EqualityIff`), the arithmetic right shift of negative wide integers (`ShiftRight`, `SignLost`),
the 256-bit product of two wide integers (`MultiplyWide256`, `ItemOneLost`), signed division
(`EndsIff`, `QuotientIff`, `RemainderIff`, `LargeNumerators`), JSON exponents with a plus sign
(`ValueSkips`, `PlusIsCut`) and the sequential reader of compact arrays (`ReaderIff`).

## Model

| member | source | states |
|---|---|---|
| `CacheRegions.FreeRegion` | src/Common/ArrayCache.h:335-378 | freeing a region keeps the whole structural invariant (regions tile the chunks, the size multimap lists exactly the free regions in order, no two neighbours of a chunk are both free, the LRU list lists exactly the idle regions, the key map agrees); only free neighbours are swallowed, nothing else changes |
| `CacheRegions.MergedLeftApart` | src/Common/ArrayCache.h:347-360 | after the left merge no free region of the same chunk is left of the region |
| `CacheRegions.MergedRightLeft` | src/Common/ArrayCache.h:362-373 | the right merge leaves the left side apart |
| `CacheRegions.MergedRightApart` | src/Common/ArrayCache.h:362-373 | after both merges the region has no free neighbour in its chunk on either side |
| `CacheRegions.InsertSorted` | src/Common/ArrayCache.h:377 | inserting into the size multimap keeps it ordered by size |
| `CacheRegions.InsertLast` | src/Common/ArrayCache.h:377 | among free regions of equal size the new one comes last |
| `CacheAllocate.EvictRegion` | src/Common/ArrayCache.h:381-394 | eviction keeps the invariant, leaves the region free and takes exactly one region off the LRU list; the allocation counter drops by the size of the region |
| `CacheAllocate.EvictRegionFrame` | src/Common/ArrayCache.h:381-394 | eviction changes no pinned region, frees only the region it was given, and removes keys only |
| `CacheAllocate.EvictFrom` | src/Common/ArrayCache.h:401-426 | evicting to the right ends, keeps the invariant, returns a free region, and shortens the LRU list |
| `CacheAllocate.EvictFromFrame` | src/Common/ArrayCache.h:401-426 | the whole chain of evictions changes no pinned region and keeps chunks and budget |
| `CacheAllocate.AllocateFromFreeRegion` | src/Common/ArrayCache.h:464-491 | taking a region whole or carving its front off keeps the structural invariant |
| `CacheAllocate.AllocateFromFreeRegionGrants` | src/Common/ArrayCache.h:464-491 | the region returned has exactly the requested size, is new to its user and overlaps nothing that was pinned |
| `CacheAllocate.AddChunkValid` | src/Common/ArrayCache.h:430-461 | a new chunk spanned by one free region keeps the invariant, provided the mapping overlaps no other chunk and the budget holds it |
| `CacheAllocate.EvictUntilFits` | src/Common/ArrayCache.h:519-533 | the eviction loop of `allocate` terminates (the LRU list shrinks) and returns a free region that is large enough, or nothing |
| `CacheAllocate.EvictUntilFitsFrame` | src/Common/ArrayCache.h:519-533 | the loop gives up only when nothing is left to evict and every free region is too small; pinned regions never change |
| `CacheAllocate.Allocate` | src/Common/ArrayCache.h:495-534 | `allocate` keeps the structural invariant for every request; what it grants, refuses and evicts is said by AllocateResult, AllocateRefusesIff, ServedBestFit, ServedNewChunk, ServedEviction and AllocateOrder |
| `CacheTheorems.BestFit` | src/Common/ArrayCache.h:499-504 | the region served from the size multimap is the smallest free one that fits |
| `CacheTheorems.AllocateResult` | src/Common/ArrayCache.h:494-534 | a granted region is new, pinned by nobody else and exactly the request rounded up to 16; the chunks never exceed the maximum; a refusal means the budget is used up, nothing is evictable and every free region is too small |
| `CacheTheorems.AllocateRefusesIff` | src/Common/ArrayCache.h:494-534 | null is returned if and only if the chunks and one more of `need` bytes exceed the maximum and every window of `size` bytes in every chunk meets a pinned region, so eviction and coalescing never miss a window that could be served; `size` is the least multiple of 16 from the request on, `need` the larger of 67108864 and the least multiple of the page size from there on |
| `CacheTheorems.AsksFor` | src/Common/ArrayCache.h:497-509 | the request is rounded up to the least multiple of 16, and a chunk for it is 67108864 bytes or the least multiple of the page size that holds it, whichever is more |
| `CacheEviction.ServedBestFit` | src/Common/ArrayCache.h:499-504 | if a free region is large enough, the front of a smallest such region is granted, and nothing is evicted |
| `CacheEviction.ServedNewChunk` | src/Common/ArrayCache.h:506-515 | if none is and the budget admits a chunk for the request, one of exactly that size is mapped and its front is granted; nothing is evicted |
| `CacheEviction.ServedEviction` | src/Common/ArrayCache.h:519-533 | otherwise there are rounds of eviction, each beginning at the head of the LRU list as the one before left it; the front of what the last round freed is granted if it is large enough, and if not, nothing is granted and the LRU list is empty |
| `CacheEviction.EvictRegionOrder` | src/Common/ArrayCache.h:381-394 | exactly the key of the evicted region is lost, exactly that region leaves the LRU list, the rest keep their order, and the freed space starts where a free left neighbour did or else where the region did |
| `CacheEviction.EvictFromRound` | src/Common/ArrayCache.h:401-426 | one round of eviction frees the region and a run of its idle right neighbours, no more of them than it takes, and stops short of the size only at the end of the chunk or at a neighbour that is not idle |
| `CacheEviction.EvictionRounds` | src/Common/ArrayCache.h:519-533 | the eviction loop is a sequence of such rounds: all but the last free too little, and the last frees enough or leaves nothing to evict |
| `CacheEviction.AllocateOrder` | src/Common/ArrayCache.h:495-534 | whatever the request, the idle regions that remain keep their order, and the keys that remain are exactly those whose regions were not evicted |
| `CacheTheorems.RegionsDisjoint` | src/Common/ArrayCache.h:157-162 | two regions of one chunk never overlap |
| `CacheTheorems.ByteInRegion` | src/Common/ArrayCache.h:157-162 | every byte of every chunk belongs to a region of that chunk |
| `CacheTheorems.WindowInOneRegion` | src/Common/ArrayCache.h:335-378 | once everything unpinned is free, coalescing has put any unpinned window inside a single free region |
| `CacheAccounting.Conserved` | src/Common/ArrayCache.h:157-162 | free and allocated bytes add up to the bytes of all chunks |
| `CacheAccounting.CounterIsSum` | src/Common/ArrayCache.h:200-203 | `total_allocated_size` is the sum of the allocated regions plus the drift |
| `CacheAccounting.FreeRegionDrift` | src/Common/ArrayCache.h:338-378 | freeing alone makes the counter drift by the size of the region |
| `CacheAccounting.EvictRegionDrift` | src/Common/ArrayCache.h:381-394 | eviction keeps the counter in step |
| `CacheAccounting.AllocateDrift` | src/Common/ArrayCache.h:495-534 | `allocate` keeps the counter in step, whatever it evicts |
| `CacheHolders.HoldValid` | src/Common/ArrayCache.h:231-236 | taking a holder keeps the structural invariant and the counter |
| `CacheHolders.UnholdValid` | src/Common/ArrayCache.h:238-244 | dropping a holder keeps them too; the last one puts the region at the end of the LRU list |
| `CacheHolders.PublishValid` | src/Common/ArrayCache.h:649-653 | entering a region into the key map keeps the invariant; that the key then leads to the region is InitializePublishes |
| `ArrayCache.ArrayCache.constructor` | src/Common/ArrayCache.h:538-540 | a new cache is empty and valid |
| `ArrayCache.ArrayCache.CoalesceLeft` | src/Common/ArrayCache.h:347-360 | the left half of `freeRegion` on linked records does what the value model says |
| `ArrayCache.ArrayCache.CoalesceRight` | src/Common/ArrayCache.h:362-373 | the right half likewise |
| `ArrayCache.ArrayCache.FreeRegion` | src/Common/ArrayCache.h:338-378 | the method on mutable records refines the value model, record by record and list by list |
| `ArrayCache.ArrayCache.EvictRegion` | src/Common/ArrayCache.h:381-394 | refines the value model of eviction |
| `ArrayCache.ArrayCache.EvictSome` | src/Common/ArrayCache.h:401-426 | the loop over right neighbours refines the value model; null only for an empty LRU list |
| `ArrayCache.ArrayCache.AddNewChunk` | src/Common/ArrayCache.h:430-461 | refines the value model of adding a chunk; the record is new |
| `ArrayCache.ArrayCache.AllocateFromFreeRegion` | src/Common/ArrayCache.h:465-491 | refines the value model; a carved region is a new record linked in front of the rest |
| `ArrayCache.ArrayCache.Allocate` | src/Common/ArrayCache.h:495-534 | lookup, new chunk and eviction loop refine the value model of `allocate` |
| `ArrayCache.ArrayCache.AcquireHolder` | src/Common/ArrayCache.h:231-236 | refines the value model of taking a holder |
| `ArrayCache.ArrayCache.ReleaseHolder` | src/Common/ArrayCache.h:238-244 | refines the value model of dropping one |
| `CacheProtocolProof.BeginHit` | src/Common/ArrayCache.h:570-581 | a hit keeps the protocol invariant |
| `CacheProtocolProof.BeginMiss` | src/Common/ArrayCache.h:583-588 | joining or creating an insert token keeps it |
| `CacheProtocolProof.LockTokenInv` | src/Common/ArrayCache.h:590-605 | locking the token, with or without a value in it, keeps it |
| `CacheProtocolProof.GetSizeInv` | src/Common/ArrayCache.h:607-609 | `get_size` returning or throwing keeps it |
| `CacheProtocolProof.AllocateInv` | src/Common/ArrayCache.h:611-621 | the allocation critical section, granting or refusing, keeps it |
| `CacheProtocolProof.InitializeThrows` | src/Common/ArrayCache.h:631-638 | a throwing `initialize` keeps it; the leaked bytes are recorded |
| `CacheProtocolProof.InitializeSucceeds` | src/Common/ArrayCache.h:641-662 | publishing the value and cleaning the token up keeps it; that the value is found afterwards is ComputedOnce |
| `CacheProtocolProof.LeaveInv` | src/Common/ArrayCache.h:302-320 | the destructor of the token holder keeps it: the last failing thread removes the token |
| `CacheProtocolProof.StepKeepsInv` | src/Common/ArrayCache.h:567-671 | every step of every thread keeps the invariant: structural validity, reference count of each region equal to its live holders, bytes in use equal to the sum over holders, an uncleaned token is the one registered under its key, no key both registered and cached, computing calls own their token |
| `CacheProtocolTheorems.ReachableInv` | src/Common/ArrayCache.h:567-671 | the invariant holds after every interleaving of any number of calls, from the empty cache |
| `CacheProtocolTheorems.ComputesUncached` | src/Common/ArrayCache.h:558-562 | in every reachable state a thread between locking its token and leaving it owns the registered token of its key, and the key is not cached |
| `CacheProtocolTheorems.OneComputes` | src/Common/ArrayCache.h:558-562 | in every reachable state at most one thread is there for a given key |
| `CacheProtocolTheorems.TokenRegistered` | src/Common/ArrayCache.h:277-321 | in every reachable state a token that is not cleaned up is the one in `insert_tokens`, its key is not in `key_map`, it has no value and its count is the number of calls on it |
| `CacheProtocolTheorems.HoldersCounted` | src/Common/ArrayCache.h:229-244 | in every reachable state the reference count of a region is the number of its live holders, and `total_size_in_use` is the sum of region sizes over live holders |
| `CacheProtocolTheorems.ResultIsLive` | src/Common/ArrayCache.h:564-565 | whatever `getOrSet` returns is a live holder on a pinned region with the requested key |
| `CacheProtocolTheorems.ValueStable` | src/Common/ArrayCache.h:596-605 | no step changes the value of a token once it is set |
| `CacheProtocolTheorems.ValueKept` | src/Common/ArrayCache.h:596-605 | nor does any run |
| `CacheProtocolTheorems.WaiterGets` | src/Common/ArrayCache.h:596-605 | after any run, a call that waits on a token with a value and gets its mutex returns exactly that holder, alive and on a region with its key |
| `CacheProtocolTheorems.HeldStable` | src/Common/ArrayCache.h:225-256 | while a holder lives, no step of any thread moves, resizes, rekeys, frees or evicts its region |
| `CacheProtocolTheorems.HeldKept` | src/Common/ArrayCache.h:225-256 | a holder alive at both ends of a run has kept its region throughout, place, size and key included |
| `CacheProtocolTheorems.Progress` | src/Common/ArrayCache.h:567-671 | no deadlock: while any call is running, some thread inside `getOrSet` can take a step |
| `CacheProtocolCaching.InitializePublishes` | src/Common/ArrayCache.h:641-653 | after a successful `initialize` the key leads to the region that was filled, and the new holder holds that region |
| `CacheProtocolCaching.KeyStays` | src/Common/ArrayCache.h:381-394 | a step of any thread leaves a cached key on its region if and only if it is not one that evicts the region |
| `CacheProtocolCaching.CachedUntilEvicted` | src/Common/ArrayCache.h:553-554 | over every run a cached key leads to the same region until that region is evicted |
| `CacheProtocolCaching.HeldNeverEvicted` | src/Common/ArrayCache.h:225-228 | over every run a region that is held at both ends by the same holder is never evicted |
| `CacheProtocolCaching.CachedHit` | src/Common/ArrayCache.h:570-581 | a call with a cached key returns at once with a new holder of exactly that region, and neither registers a call nor touches a token |
| `CacheProtocolCaching.ComputedOnce` | src/Common/ArrayCache.h:553-565 | after a successful `initialize` and any run that does not evict its region, every call with the key returns at once with a holder of the region that was filled: no second `get_size` or `initialize` |
| `CacheProtocolCaching.StepLru` | src/Common/ArrayCache.h:225-244 | the LRU list loses a region that is held again and those that are evicted, gains at its end a region whose last holder is destroyed, and otherwise keeps its order, at every step |
| `CacheProtocolCaching.IdleInOrder` | src/Common/ArrayCache.h:403-410 | after every run of a new cache the LRU list is in the order in which the regions lost their last holder, so eviction begins with the region that has been idle longest |
| `CacheProtocolCaching.FillsWhatWasAsked` | src/Common/ArrayCache.h:609-629 | after every run the region of a call in `initialize` has the size that the same call's `get_size` returned, rounded up to the least multiple of 16 |
| `CacheProtocolCaching.Outcomes` | src/Common/ArrayCache.h:567-671 | an exception leaves `getOrSet` exactly when one of the two functions threw, nothing is returned exactly when `allocate` refused, a holder exactly on a hit, on a token with a value and after `initialize` |
| `CacheProtocolCaching.NothingIff` | src/Common/ArrayCache.h:611-619 | a call is refused if and only if a chunk for its request exceeds the maximum and every window of the rounded size meets a pinned region |
| `CacheProtocolCaching.StepMoves` | src/Common/ArrayCache.h:567-671 | a step moves only the call that takes it, from the stage it was in to the next one, and ends its computation exactly when it answers |
| `CacheProtocolCaching.StepAnswers` | src/Common/ArrayCache.h:567-671 | a step answers a call exactly if the call was waiting for its answer before the step and no longer is after it, and the answer names the key of the call |
| `CacheProtocolCaching.AnsweredOnce` | src/Common/ArrayCache.h:567-671 | over every run the calls a thread has made are those that were answered, once each, and at most one that still waits |
| `CacheProtocolCaching.CallersDecide` | src/Common/ArrayCache.h:567-568 | any idle thread may call with any key, `get_size` and `initialize` may return or throw, and every pointer to a holder may be copied or dropped, in every state of the protocol |
| `CacheProtocolCaching.StepPointers` | src/Common/ArrayCache.h:258 | the pointers to a holder grow by one with a copy and with a call that gets the holder from its token, shrink by one when one is dropped, and change at no other step |
| `CacheProtocolCaching.NewPointer` | src/Common/ArrayCache.h:258 | a new holder starts with one pointer, the one that the step returns |
| `CacheProtocolCaching.DroppedCanGo` | src/Common/ArrayCache.h:238-244 | a holder without pointers can be destroyed as soon as no running call has it as the value of its token |
| `CacheProtocolTheorems.LeakedBy` | src/Common/ArrayCache.h:631-638 | only a throwing `initialize` leaks, by exactly the size of its region |
| `CacheProtocolTheorems.CounterPlusLeaked` | src/Common/ArrayCache.h:200-203 | `total_allocated_size` is the sum of allocated region sizes and of what has leaked |
| `CacheProtocolTheorems.CounterExactIff` | src/Common/ArrayCache.h:200-203 | after any run of a new cache `total_allocated_size` is the sum of allocated region sizes if and only if no step of the run was an `initialize` that threw on a region that is not empty |
| `CacheProtocolTheorems.CounterDrifts` | src/Common/ArrayCache.h:627-638 | a concrete run after which the counter is 16 bytes too high |
| `PcgEngine.AdvanceState` | base/pcg-random/pcg_random.hpp:634-660 | the logarithmic jump equals `delta` single steps modulo 2^k, for every multiplier and increment |
| `PcgEngine.FullCircle` | base/pcg-random/pcg_random.hpp:405-408 | with an odd multiplier 2^k steps are the identity |
| `PcgEngine.BackstepUndoes` | base/pcg-random/pcg_random.hpp:449-457 | stepping back by `delta` undoes stepping forward by it, and the other way round, from any state |
| `PcgEngine.BackstepUndoesIff` | base/pcg-random/pcg_random.hpp:449-457 | `backstep` inverts `advance` for all states and distances if and only if the multiplier is odd |
| `PcgEngine.EvenLoses` | base/pcg-random/pcg_random.hpp:449-457 | with an even multiplier a state that one step back does not recover |
| `PcgEngine.LcgPower` | base/pcg-random/pcg_random.hpp:675-681 | after i doublings an LCG with multiplier 1 mod 4 and odd increment adds 2^i modulo 2^(i+1) |
| `PcgEngine.McgPower` | base/pcg-random/pcg_random.hpp:675-681 | after i doublings an MCG with multiplier 5 mod 8 multiplies by 1 + 2^(i+2) modulo 2^(i+3) |
| `PcgEngine.Flips` | base/pcg-random/pcg_random.hpp:673-678 | round i flips its bit and fixes all lower bits, which is what the assert in the loop relies on |
| `PcgEngine.Distance` | base/pcg-random/pcg_random.hpp:662-683 | the loop ends within the word width, its assert always holds, the result is below the period, and that many steps lead to the target as far as the mask can tell; LCG and MCG |
| `PcgEngine.NoEarlyReturn` | base/pcg-random/pcg_random.hpp:386-389 | no state recurs before 2^period_pow2() steps |
| `PcgEngine.PeriodCloses` | base/pcg-random/pcg_random.hpp:386-389 | after 2^period_pow2() steps the state is back |
| `PcgEngine.VisitsOnce` | base/pcg-random/pcg_random.hpp:386-389 | one period visits every state of the generator, and visits it exactly once |
| `PcgEngine.DefaultsGenerate` | base/pcg-random/pcg_random.hpp:155-172 | the default multiplier and increment of each width, as numbers, satisfy the conditions of the results above, as LCG and as MCG |
| `PcgRandom.StreamIncrementMeans` | base/pcg-random/pcg_random.hpp:321-329 | the increment chosen for a stream is odd, fits, and determines the stream number modulo 2^(k-1) |
| `PcgRandom.Engine.constructor` | base/pcg-random/pcg_random.hpp:476-481 | the seeded state is a state of the generator; an MCG gets the two low bits set and keeps all others |
| `PcgRandom.Engine.WithStream` | base/pcg-random/pcg_random.hpp:485-493 | seeding with a stream selects its increment and makes one step |
| `PcgRandom.Engine.BaseGenerate` | base/pcg-random/pcg_random.hpp:405-421 | one step; the state left or the state entered is handed on |
| `PcgRandom.Engine.Generate` | base/pcg-random/pcg_random.hpp:423-429 | one step of an RXS-M-XS generator returns the output permutation of the state left or entered, which `unoutput` recovers; OutputBits says which word that is |
| `PcgRandom.Engine.Advance` | base/pcg-random/pcg_random.hpp:449-452 | the state after `delta` steps, still a state of the generator |
| `PcgRandom.Engine.Backstep` | base/pcg-random/pcg_random.hpp:454-457 | lands on the only state that `delta` steps take to where it was |
| `PcgRandom.Engine.SetStream` | base/pcg-random/pcg_random.hpp:326-329 | changing the stream keeps the generator valid |
| `PcgRandom.Engine.StepsTo` | base/pcg-random/pcg_random.hpp:685-701 | the difference of two generators is the one number of steps below the period that leads from one to the other, so `distance` inverts `advance` |
| `PcgOutput.UnxorshiftInverts` | base/pcg-random/pcg_extras.hpp:261-279 | `unxorshift` undoes the xorshift of every word, for every shift of at least one and every width |
| `PcgOutput.XorshiftInverts` | base/pcg-random/pcg_extras.hpp:261-279 | and every word is the xorshift of what `unxorshift` makes of it |
| `PcgOutput.MultipliersInvert` | base/pcg-random/pcg_random.hpp:899-914 | the multiplier and unmultiplier of each width are inverse modulo 2^w |
| `PcgOutput.RandomShiftKept` | base/pcg-random/pcg_random.hpp:930-932 | the xorshift leaves the top bits alone that select it |
| `PcgOutput.UnoutputInverts` | base/pcg-random/pcg_random.hpp:917-958 | `unoutput` undoes `output` on every state |
| `PcgOutput.OutputInverts` | base/pcg-random/pcg_random.hpp:917-958 | every word is the output of the state `unoutput` finds: the output function is a permutation |
| `PcgOutput.OutputBits` | base/pcg-random/pcg_random.hpp:917-937 | the output word, bit by bit: a xorshift by the number in the top 2 to 6 bits plus their count, a product with the constant of the width, as a number, and a xorshift by two thirds of the width rounded up |
| `Uint128.AddMeans` | base/pcg-random/pcg_uint128.hpp:186-193 | the carry of `addwithcarry` is exactly what the word cannot hold, carry in included |
| `Uint128.SubMeans` | base/pcg-random/pcg_uint128.hpp:195-202 | likewise for the borrow of `subwithcarry` |
| `Uint128.Plus` | base/pcg-random/pcg_uint128.hpp:564-581 | addition modulo 2^128 |
| `Uint128.Minus` | base/pcg-random/pcg_uint128.hpp:583-600 | subtraction modulo 2^128 |
| `Uint128.Times` | base/pcg-random/pcg_uint128.hpp:520-561 | the carry-chained product of four words is multiplication modulo 2^128 |
| `Uint128.Flog2` | base/pcg-random/pcg_uint128.hpp:429-443 | the logarithm of the whole number, found at its highest word |
| `Uint128.Underestimate` | base/pcg-random/pcg_uint128.hpp:474-493 | the first factor never exceeds the dividend; equal logarithms mean a quotient of one |
| `Words32.ShiftLeft` | base/pcg-random/pcg_uint128.hpp:676-708 | the loop that carries over is multiplication by 2^shift modulo the width, for rows of any length |
| `Words32.ShiftRight` | base/pcg-random/pcg_uint128.hpp:711-744 | the loop that carries down is division by 2^shift |
| `Uint128.ShiftLeft` | base/pcg-random/pcg_uint128.hpp:676-708 | the same on four words |
| `Uint128.ShiftRight` | base/pcg-random/pcg_uint128.hpp:711-744 | the same on four words |
| `Uint128.LessMeans` | base/pcg-random/pcg_uint128.hpp:649-654 | comparing double words from the top is the order of the numbers |
| `Uint128.Narrow` | base/pcg-random/pcg_uint128.hpp:495-501 | the inner loop ends at a factor that does not exceed the dividend and is still the divisor times its power of two while the dividend is not below the divisor |
| `Uint128.Divmod` | base/pcg-random/pcg_uint128.hpp:460-503 | terminates and returns quotient and remainder for every nonzero divisor, computed on the four words |
| `WideAdd.Plus` | base/common/wide_integer_impl.h:450-481 | the sum modulo 2^Bits for every number of items on either side, although carries are resolved in a second pass |
| `WideAdd.Minus` | base/common/wide_integer_impl.h:417-448 | the difference modulo 2^Bits |
| `WideAdd.Tilda` | base/common/wide_integer_impl.h:575-582 | the complement is 2^Bits - 1 minus the number |
| `WideAdd.UnaryMinus` | base/common/wide_integer_impl.h:584-588 | the negative modulo 2^Bits |
| `WideAdd.FirstDifference` | base/common/wide_integer_impl.h:663-669 | the scan that both order operators share finds the highest item that differs, and it decides the order; if there is none the numbers are equal |
| `WideAdd.More` | base/common/wide_integer_impl.h:655-677 | unsigned order, with shorter right operands |
| `WideAdd.Less` | base/common/wide_integer_impl.h:680-702 | unsigned order, with shorter right operands |
| `WideAdd.SignedLess` | base/common/wide_integer_impl.h:680-702 | with whatever `is_negative` answered for the right operand, the answer of the code; it is the order of the two's complement numbers if that answer is true to the operand and the operand is as wide as the left one or not negative |
| `WideAdd.SignedMore` | base/common/wide_integer_impl.h:655-677 | likewise for the opposite order |
| `WideAdd.SignedAnswers` | base/common/wide_integer_impl.h:655-725 | what the comparisons answer if the sign is read truly: a shorter negative right operand counts as smaller than every negative left one |
| `WideAdd.WideOrderIff` | base/common/wide_integer_impl.h:174-181 | `is_negative` reads the sign of a wide right operand at the top item of the left one, past the end of a shorter operand; less and more are right for every left operand and every word found there if and only if both have the same width |
| `WideAdd.ReadBeyond` | base/common/wide_integer_impl.h:174-181 | 0 is not found less than 1 when the word beyond a shorter 1 has its top bit set |
| `WideAdd.BuiltinOrderIff` | base/common/wide_integer_impl.h:165-172 | for a built-in right operand, whose sign is its own, they are right for every left operand if and only if it is not negative or as wide as the left one (the public operators widen it first) |
| `WideAdd.EqualityIff` | base/common/wide_integer_impl.h:705-725 | equality never asks for the sign: it is right for every left operand if and only if the right one has the same width or is not negative |
| `WideAdd.Equal` | base/common/wide_integer_impl.h:705-725 | equality of the numbers without sign, a shorter right operand being read with zeros on top; what this means for signed numbers is `EqualityIff` |
| `WideShift.ShiftLeft` | base/common/wide_integer_impl.h:327-352 | multiplication by 2^n modulo 2^Bits, across item borders |
| `WideShift.ShiftRight` | base/common/wide_integer_impl.h:354-392 | division by 2^n for numbers that are not negative; for negative ones the value that the fill leaves, which is the rounded-down quotient if and only if n < 64, because of the bound of the fill loop; of the items shifted in, those below the number of whole items shifted are all ones and the others zero |
| `WideShift.RightSigned` | base/common/wide_integer_impl.h:377-389 | the same exact condition, for the value alone |
| `WideShift.SignLost` | base/common/wide_integer_impl.h:377-384 | the least 128-bit number shifted by 64 comes out positive |
| `WideMul.Multiply` | base/common/wide_integer_impl.h:531-571 | shift-and-add with the shortcuts for two and three ones is multiplication modulo 2^Bits |
| `WideMul.Multiply256` | base/common/wide_integer_impl.h:487-530 | the 256-bit path is multiplication modulo 2^256 by the number whose low half is `b01` |
| `WideMul.MultiplyWide256` | base/common/wide_integer_impl.h:496-504 | with a wide right operand `b01` is its lowest item only (the integral conversion returns item 0), so the product is right if and only if the left operand times item 1 vanishes modulo 2^192 |
| `WideMul.ItemOneLost` | base/common/wide_integer_impl.h:496-504 | 1 times 2^64 as 256-bit numbers comes out as 0 |
| `WideMul.MultiplyWord` | base/common/wide_integer_impl.h:483-572 | either path is right for a built-in right operand |
| `WideDiv.Amp` | base/common/wide_integer_impl.h:745-760 | bitwise and of the numbers |
| `WideDiv.Pipe` | base/common/wide_integer_impl.h:727-742 | bitwise or of the numbers |
| `WideDiv.IsZero` | base/common/wide_integer_impl.h:764-777 | whether the number is zero |
| `WideDiv.Divide` | base/common/wide_integer_impl.h:779-810 | on unsigned numbers: numerator = quotient * denominator + remainder with remainder < denominator, for every nonzero denominator and every width, numerators with the top bit set included; the error exactly for zero |
| `SignedDivision.EndsIff` | base/common/wide_integer_impl.h:791-807 | on signed numbers the loops end if and only if no number of at least half the range is divided by 1 or -1 |
| `SignedDivision.QuotientIff` | base/common/wide_integer_impl.h:779-825 | the signed quotient is right if and only if the numerator's magnitude is below the largest doubling of the divisor's that leaves the sign bit clear; the least number can be divided by itself only |
| `SignedDivision.RemainderIff` | base/common/wide_integer_impl.h:779-844 | the signed remainder is right under the same condition or if the divisor is half the range, where two errors cancel |
| `SignedDivision.LargeNumerators` | base/common/wide_integer_impl.h:791-807 | half the range divided by 1 never ends; the largest number divided by 2 never comes out right |
| `SignedDivision.Below` | base/common/wide_integer_impl.h:791-807 | below that bound nothing wraps, and the loops are long division |
| `SignedDivision.Above` | base/common/wide_integer_impl.h:791-807 | at or above it the run ends, unless the divisor is 1, with a quotient that is too large |
| `SignedDivision.AboveOne` | base/common/wide_integer_impl.h:791-807 | with the divisor 1 the weight stays negative for ever |
| `WideSignedDiv.OneRound` | base/common/wide_integer_impl.h:797-807 | a round on the items is a round on the numbers |
| `WideSignedDiv.Watch` | base/common/wide_integer_impl.h:779-810 | the loops on the items, for as many rounds as the number has bits, are those on the numbers |
| `WideSignedDiv.Watched` | base/common/wide_integer_impl.h:779-810 | that many rounds are enough: a run that has not ended by then never ends |
| `WideSignedDiv.MakePositive` | base/common/wide_integer_impl.h:193-197 | the magnitude, except that the least number stays negative |
| `WideSignedDiv.Slash` | base/common/wide_integer_impl.h:814-830 | the error exactly for zero, no end exactly as `EndsIff` says, and otherwise the quotient toward zero exactly as `QuotientIff` says |
| `WideSignedDiv.Percent` | base/common/wide_integer_impl.h:833-849 | likewise for the remainder, which has the sign of the numerator |
| `WideText.ParseDigits` | base/common/wide_integer_impl.h:877-916 | the digits read as a numeral modulo 2^Bits, or an error exactly if one of them is not a digit |
| `WideText.FromStr` | base/common/wide_integer_impl.h:871-924 | the integer the text denotes (sign, hexadecimal prefix) modulo 2^Bits, or an error exactly if it denotes none |
| `WideText.SpellingDenotes` | base/common/wide_integer_impl.h:871-924 | a minus sign for signed numbers, `0x` or `0X`, and digits of that base denote the number that the digits spell |
| `WideText.DenotesSpelled` | base/common/wide_integer_impl.h:871-924 | and no other text denotes anything |
| `WideText.NumeralGrows` | base/common/wide_integer_impl.h:877-916 | a digit more multiplies by ten or sixteen and adds what the digit stands for |
| `WideText.DigitTable` | base/common/wide_integer_impl.h:881-908 | the digits of both bases and what they stand for |
| `WideText.Peel` | base/common/wide_integer_to_string.h:24-28 | the loop that takes digits off the low end writes the decimal digits of the number |
| `WideText.ToString` | base/common/wide_integer_to_string.h:10-33 | the canonical decimal notation, the least signed number included |
| `WideText.ShowDenotes` | base/common/wide_integer_to_string.h:10-33 | what is printed denotes the number that was printed |
| `WideText.PrintThenParse` | base/common/wide_integer_to_string.h:10-33 | parsing what was printed gives the same items, signed and unsigned, at every width |
| `Decimals.NoLeadingZero` | base/common/wide_integer_to_string.h:24-28 | no positive number is printed with a leading zero |
| `Decimals.DigitsGrow` | base/common/wide_integer_to_string.h:24-28 | a digit more stands for ten times the number plus the digit, and the digits are 0 to 9 in that order |
| `Itoa.SplitDivides` | base/common/itoa.h:91-129 | each multiplication and shift is true division by 10^N for every value of the type, without overflow, and the remainder fits the half type |
| `Itoa.TailPads` | base/common/itoa.h:199-218 | `tail` writes all 2N digits, leading zeros included |
| `Itoa.HeadPrints` | base/common/itoa.h:171-197 | `head` writes the decimal notation without leading zeros |
| `Itoa.LargePrints` | base/common/itoa.h:220-233 | `large` writes the decimal notation of values of 10^2N and more |
| `Itoa.UitoaPrints` | base/common/itoa.h:235-266 | every unsigned 8, 16, 32 and 64-bit value is written as its decimal notation |
| `Itoa.ItoaPrints` | base/common/itoa.h:279-313 | every signed value is, the least one included |
| `Itoa.Digits10Exact` | base/common/itoa.h:316-347 | the precomputed length is the number of digits, for every number |
| `Itoa.WriteUIntText` | base/common/itoa.h:349-365 | writes exactly the decimal notation into the buffer and nothing outside it |
| `Itoa.MinTextRight` | base/common/itoa.h:375-381 | the literal for the least 128-bit number is its decimal notation |
| `Itoa.WriteSIntText` | base/common/itoa.h:373-389 | the same for signed 128-bit numbers |
| `Arenas.NextSize` | src/Common/Arena.h:88-118 | a new chunk is at least as large as asked for, whole pages, grown by the factor below the threshold and by less than one threshold above it |
| `Arenas.NextSizeIs` | src/Common/Arena.h:88-118 | below the threshold the larger of the request and the grown head chunk, above it the least multiple of the threshold that holds the request, each rounded up to the least multiple of the page |
| `Arenas.Arena.ChunkForIs` | src/Common/Arena.h:121-125 | the chunk that is added has the size so computed from the request with 15 bytes of padding and the size of the head chunk |
| `Arenas.Arena.constructor` | src/Common/Arena.h:131-136 | one chunk, nothing handed out |
| `Arenas.Arena.AddMemoryChunk` | src/Common/Arena.h:121-125 | a new head chunk; sizes add up and live blocks are kept |
| `Arenas.Arena.Alloc` | src/Common/Arena.h:144-153 | the block is apart from all live blocks and its padding is inside the same chunk |
| `Arenas.Arena.AlignedAlloc` | src/Common/Arena.h:156-174 | the block starts at the least aligned address of the head chunk's free space, or of a new chunk exactly if there is no room, and is apart from all live blocks; the loop adds at most one chunk |
| `Arenas.Arena.AlignRoom` | src/Common/Arena.h:161-168 | there is room as soon as any aligned address leaves room for the block |
| `Arenas.Arena.Rollback` | src/Common/Arena.h:187-192 | the end of the last block is given back; all other blocks are kept |
| `Arenas.Arena.AllocContinue` | src/Common/Arena.h:206-264 | the range keeps its bytes and every other live block keeps its own, whether it grows in place or moves |
| `Arenas.Arena.Realloc` | src/Common/Arena.h:267-287 | a new block with the bytes of the old one; no other block changes |
| `Arenas.LastInHead` | src/Common/ArenaAllocator.h:22-23 | a block that ends at the free position is in the head chunk: the padding rules out the end of another chunk |
| `Arenas.PaddingNeeded` | src/Common/Arena.h:37-38 | two adjacent chunks without padding on which that test would be wrong |
| `Arenas.AllocatorRealloc` | src/Common/ArenaAllocator.h:18-33 | both arena allocators: the bytes survive, no other block is touched, alignment is kept, and the last block is extended in place when it fits |
| `FreeLists.ClassFits` | src/Common/ArenaWithFreeLists.h:39-42 | a size class holds the request, is one of 2 to 15, and wastes less than half of a block above 8 bytes |
| `FreeLists.ClassLeast` | src/Common/ArenaWithFreeLists.h:39-42 | the blocks of the class are of the least power of two that is at least 8 and at least the size |
| `FreeLists.PoolApart` | src/Common/ArenaWithFreeLists.h:12-22 | two pool blocks never overlap, in use or on a free list |
| `FreeLists.LargeApart` | src/Common/ArenaWithFreeLists.h:61-62 | nor does a large block overlap a pool block |
| `FreeLists.TakenKeeps` | src/Common/ArenaWithFreeLists.h:67-80 | popping a list keeps every block either in use or on the list of its class, once |
| `FreeLists.GivenKeeps` | src/Common/ArenaWithFreeLists.h:91-98 | pushing a block does |
| `FreeLists.ChainKept` | src/Common/ArenaWithFreeLists.h:91-98 | writing a link into a released block does not disturb any chain |
| `FreeLists.ArenaWithFreeLists.constructor` | src/Common/ArenaWithFreeLists.h:51-57 | nothing in use, all lists empty |
| `FreeLists.ArenaWithFreeLists.Alloc` | src/Common/ArenaWithFreeLists.h:59-84 | a block that was not in use, of the class of the request: the front of its list, or a new one when the list is empty; large requests go to the system |
| `FreeLists.ArenaWithFreeLists.Free` | src/Common/ArenaWithFreeLists.h:86-107 | the block goes to the front of the list of its class; the chains stay acyclic and disjoint from what is in use |
| `JsonGrammar.QuoteIsEscaped` | base/common/JSON.cpp:233-236 | inside a string every quote follows a backslash, so the fast path cannot stop early |
| `JsonGrammar.StringSkips` | base/common/JSON.cpp:223-260 | by either path a string is skipped to just behind its closing quote |
| `JsonGrammar.NumberSkips` | base/common/JSON.cpp:263-287 | a number is skipped to its end if and only if its exponent has no plus sign, and up to that sign otherwise |
| `JsonGrammar.PlusIsCut` | base/common/JSON.cpp:279-284 | the number 1e+5 is cut after two characters |
| `JsonGrammar.ValueSkips` | base/common/JSON.cpp:396-420 | every value of the grammar is skipped to its end if and only if its nesting fits the depth limit and no number in it has a plus sign in its exponent; otherwise an exception, but for a number of that kind, which is cut |
| `JsonGrammar.PairSkips` | base/common/JSON.cpp:316-329 | a name-value pair likewise, its value one level down; `skipElement` on a member does the same |
| `JsonGrammar.ItemsSkip` | base/common/JSON.cpp:332-361 | the loop over array elements ends behind the bracket, or fails exactly if an element is too deep or holds a plus sign in an exponent |
| `JsonGrammar.MembersSkip` | base/common/JSON.cpp:364-393 | the loop over object members likewise |
| `JsonGrammar.IterationVisits` | base/common/JSON.cpp:743-780 | iteration visits the start of every element or member in order, once, if and only if all but the last are skipped to their end and the last raises no exception; otherwise it fails or stops early |
| `JsonTexts.StringIff` | base/common/JSON.cpp:223-260 | on every text: a string is skipped, and up to where, if and only if it is a quote, then units (a character other than quote and backslash, or a backslash and any character), then the first quote behind them |
| `JsonTexts.NumberIff` | base/common/JSON.cpp:263-287 | on every text: a number is skipped up to a position if and only if an optional sign, digits, an optional point with digits and an optional exponent with an optional minus end there, each as long as possible |
| `JsonTexts.PairIff` | base/common/JSON.cpp:316-329 | on every text: a pair is skipped, and up to where, if and only if it is a string, a colon and an element one level down, within 100 levels |
| `JsonTexts.ContainerIff` | base/common/JSON.cpp:332-393 | on every text: a container is skipped, and up to where, if and only if it is the opening bracket and either the closing one or items with commas between them and the closing bracket behind the last |
| `JsonTexts.ElementIff` | base/common/JSON.cpp:396-420 | on every text, malformed ones included: `skipElement` succeeds, and up to where, if and only if the text is one of these or a literal, by its first character |
| `JsonTexts.WalkIff` | base/common/JSON.cpp:743-780 | on every text: iteration visits the positions of a chain of elements linked by commas behind the opening bracket, one level down, and no others |
| `JsonTexts.NeedsColon` | base/common/JSON.cpp:316-329 | a member with a semicolon for its colon is refused |
| `JsonReader.ReadString` | base/common/JSON.cpp:223-260 | the loop computes the skip function, on every input, and so accepts exactly the texts of StringIff |
| `JsonReader.ReadNumber` | base/common/JSON.cpp:263-287 | likewise, the texts of NumberIff |
| `JsonReader.ReadContainer` | base/common/JSON.cpp:332-393 | likewise, the texts of ContainerIff, malformed and truncated input included |
| `JsonReader.ReadPair` | base/common/JSON.cpp:316-329 | likewise, the texts of PairIff |
| `JsonReader.ReadElement` | base/common/JSON.cpp:396-420 | likewise, the texts of ElementIff |
| `JsonReader.Advance` | base/common/JSON.cpp:765-780 | one step of the iterator, end and exceptions included |
| `JsonReader.SizeOf` | base/common/JSON.cpp:423-431 | counts the steps of the iteration, or fails exactly if the iteration does |
| `JsonReader.SizeOfContainer` | base/common/JSON.cpp:423-431 | on a well-formed container the size is the number of its elements if and only if the container is iterable in that sense |
| `CompactArrays.Layout` | src/Common/CompactArray.h:224-239 | a cell is inside one byte or straddles two neighbours, and all byte indices are in range |
| `CompactArrays.BitsetLeast` | src/Common/CompactArray.h:82 | the array has as many bytes as its cells need and none to spare |
| `CompactArrays.CompactArray.constructor` | src/Common/CompactArray.h:31-32 | all cells are zero |
| `CompactArrays.CompactArray.Read` | src/Common/CompactArray.h:34-42 | the cell of the array that the bytes stand for, straddling cells included |
| `CompactArrays.CompactArray.Store` | src/Common/CompactArray.h:193-214 | what every bit of the bytes becomes, those that spill over included |
| `CompactArrays.CompactArray.Write` | src/Common/CompactArray.h:193-214 | exactly one cell changes, to the value written, if and only if the value fits the cell |
| `CompactArrays.Reader.Advance` | src/Common/CompactArray.h:100-138 | moves to the next cell, reads at most one byte, and fails only if the input is shorter than the array |
| `CompactArrays.Reader.Get` | src/Common/CompactArray.h:142-151 | the number of the cell and the contents found where the reader has got to, or the error exactly before the first cell and after the last |
| `CompactArrays.ReaderIff` | src/Common/CompactArray.h:86-151 | the reader finds a cell for every contents of the array if and only if the cell comes before the first one, other than cell 0, that starts on a byte boundary |
| `CompactArrays.BitReplaced` | src/Common/CompactArray.h:198-210 | masking and or-ing a part of a byte changes exactly its bits |

## Left out

- ArrayCache: `size_t` wrap-around of sizes and counters, failing `mmap`, a throwing allocation of metadata or of the shared holder, payloads, statistics, address hints and the destructor. Real mutexes are critical sections, that is, single steps.
- ArrayCache.ArrayCache.Allocate: the address of a new mapping is a parameter required to overlap no other chunk.
- CacheTheorems.AllocateRefusesIff: is stated for requests of at least one byte; an empty window is met by nothing.
- PCG: seed sequences, stream input and output, the extended table generators, `bounded_rand`, and the output functions other than RXS-M-XS, which have no inverse. RXS-M-XS with a result type narrower than the state has none either.
- PcgRandom.Engine.StepsTo: compares generators of the same width, multiplier and kind, as the static assertion demands; the increment is that of the right operand.
- Uint128.Divmod: the divisor must not be zero, which the source leaves undefined. The bitwise operators of the four words and the big-endian branches are not modelled.
- Wide integers: conversions from and to floating point, operands that first have to be widened, and the dispatching operators.
- WideSignedDiv.Watch: the loop is followed for as many rounds as the number has bits; Watched says why nothing can happen later.
- WideShift.ShiftLeft: shifts by the full width or more are answered by the operators before `shift_left` is called; the same holds for ShiftRight.
- Itoa: the table of digit pairs is represented by the digits it holds; the writers of 8 to 64 bits are functions from the value to the text they write.
- Arenas.Arena.AllocContinue: a null range start, which just allocates, is covered by Alloc and AlignedAlloc. The debug assertion that the range starts before the end of the chunk is not required: it fails for an empty range at the very end, and the contract holds there too.
- Arenas.Arena.AlignedAlloc: alignments need not be powers of two.
- Arena: `MixedArenaAllocator` and `ArenaAllocatorWithStackMemory` only choose between allocators; the contents of memory are one function from addresses to bytes.
- FreeLists.ArenaWithFreeLists.Alloc: a place for a new chunk is required even when it turns out not to be needed; the links of released blocks are kept in a map from block addresses beside the bytes of the arena, where the source writes them into the first bytes of the blocks, so that a caller who still writes to a released block is not modelled.
- JSON: whitespace, `searchField` and access by name or index, decoding of strings and numbers.
- CompactArrays.Reader.Advance: says nothing of the reader's state after the exception for truncated input.
- CompactArray: the text form of the bytes.
- Date tables, logging, networking, SIMD string search, queues and simple caches: their invariants would only add easy members.
