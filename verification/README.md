# Formal model of the trading SDK's data structures and arithmetic

A Dafny model of the stateful and arithmetic core of the Solana trading bots and of
`sol-trade-sdk`: lock-free memory structures, SIMD copy routines, bonding-curve quotes, the
fee-strategy table, confirmation polling, bounded histories and caches. Each module follows one
component of the program, and its main theorems speak of every input, every interleaving or every
run. `dafny verify dfyconfig.toml` checks the project.

| file | component |
|---|---|
| `Bits.dfy` | unsigned words as natural numbers: bits, bitwise operators, masks as remainders |
| `SpscRing.dfy` | single-producer single-consumer ring, step by step and as a class |
| `BlockPool.dfy` | bitmap block allocator: the bitmap, its concurrent steps, the pool and manager classes |
| `PoolRuns.dfy` | whole allocator calls: what a failed scan has seen, and what an uninterrupted call takes |
| `SimdMemory.dfy` | size-class copy, compare and clear routines on arrays |
| `ByteRing.dfy` | wrap-around byte ring on top of those copies, call by call |
| `ByteRingSteps.dfy` | the byte ring shared by a writing and a reading thread, byte by byte, with the rounded copies |
| `BlockWrites.dfy` | writing into allocated blocks with the rounded copies |
| `BondingCurve.dfy` | quotes with u128 intermediates, and whole runs of trades |
| `GasFees.dfy` | fee-strategy map, its `rcu` retry loops, threads running programs of calls, and the public calls |
| `Confirmation.dfy` | confirmation polling against an arbitrary RPC node |
| `TradeHistory.dfy` | de-duplicated bounded trade list and the price change read from it |
| `SignatureWindow.dfy` | window of processed signatures |
| `Codecs.dfy` | hex seed and little-endian u64 batch |
| `TokenAccounts.dfy` | address and instruction caches, seeded token accounts |

## How the model reads the program

- Words are natural numbers below 2^64 with the bitwise operators defined in `Bits`. The ring
  counters wrap modulo 2^64, as in a release build, so its theorems hold however long it runs.
- Atomic loads, stores and exchanges are single steps, interleaved in any order. A weak
  compare-exchange may fail spuriously. The classes run the same operations without interruption;
  the methods of the ring and of the block pool are proved to be runs of the step system.
- A pointer is an array and an offset. A copy is modelled with the bytes it really moves, which may
  be more than requested; `ByteRing` therefore keeps 31 bytes of memory after the mapping and after
  the caller's slice.
- Arithmetic overflow, underflow and division by zero in the quotes are the outcome `Trap`. An index
  past the signature list while polling is the outcome `Panicked`; a failed unwrap while creating
  or looking up an account is `None`.
- Prices and tips, floating-point numbers in the program, are reals.
- The file with the initial curve constants is not part of this model: they are parameters.
- `get_cached_pda` takes any closure: an answer is the first success computed for its key
  (`PdaIsFirstSuccess`), which is the derivation the key stands for when every caller passes that
  one (`AgreeingLookups`).
- Hashing, address derivation, the RPC node and the clock are parameters. Redis is a map of lists
  and a map of sets; a JavaScript `Set` is a sequence in insertion order.

## Where the code and the intention differ

The model follows the code. Each point below has a lemma saying, for all inputs, exactly when the
intended property holds; the counterexamples are instances.

- The copy routine moves 8, 16 or a multiple of 32 bytes for sizes in between
  (`CopyIsExactIff`), and the compare of 5 to 7 bytes looks at 8 (`CompareIsExactIff`).
- A write to the byte ring appends exactly its data, for every caller, exactly when the reach of
  its copies ends before the unread bytes (`WriteAppendsIff`), and also leaves the memory after the
  mapping alone exactly when the reach ends before the end of the mapping too (`WriteIsCleanIff`).
  Calls of given lengths are first in, first out at every moment, whatever the bytes, exactly when
  every accepted write keeps to the first of these conditions (`RunIsFifoIff`). Otherwise an accepted
  write can overwrite unread bytes, for instance in `WriteCanDestroyUnreadData`.
- The allocator stores `(block + 1) * 64` as its hint and divides it by 64, so the hint is a block
  number used as a word number. The scan is cyclic, so any hint works (`AllocateBlock`).
- With a second thread a ring used by callers that may write any length is first in, first out in
  every interleaving exactly up to a size of 6 bytes (`AnyLengthsFifoIff`), so not in the 256 MiB
  buffers of the manager. For callers with given lengths it is so exactly when in no interleaving an
  accepted write reaches the bytes unread as it loads the read position (`AlwaysFifoIff`).
- An allocation that returns None has met a moment without a free block, whatever other threads do,
  exactly in pools of at most 64 blocks (`NoneMeansNothingFreeIff`). All three pools of the manager
  are larger (`ManagerPoolsAreLarge`); `NoneDespiteFreeBlocks` is an instance with 128 blocks. In
  pools of any size no single block was free throughout the call (`NoneMeansNoBlockStayedFree`).
- The manager does not refuse requests above 16 MiB: the block holds the request exactly up to
  that size (`BlockHoldsRequest`).
- `get_buy_out_price` prices the real SOL reserve when the amount is below it. The result is then
  the least price exactly when a comparison of products of the reserves holds
  (`BuyOutBelowReserve`); `BuyOutCanOverprice` is an instance where it fails.
- Splitting a sale never pays, on any curve, exactly when the fee is 0 or 10000 basis points
  (`SplittingNeverPaysIff`): for every fee between, the rounding of the fee can be split away.
  `SplitSellCanSaveFee` is an instance.
- `set` is several `rcu` updates. Threads running programs of calls always leave an exclusive table
  exactly when no two of them hold `set` calls for the same service and trade type of which one
  sets Normal and the other a tip strategy (`AlwaysExclusiveIff`);
  `OverlappingSetsBreakExclusive` is an instance.
- A bound of zero trades keeps every trade, because the trim then ends at -1 (`ListIsBoundedIff`).
- A seeded account is derived from the payer, and the getter derives from the wallet it is given:
  however addresses are derived, the owner finds every created account exactly when it is not
  seeded or the payer is the owner (`OwnerFindsIff`).

## Model

| member | source | states |
|---|---|---|
| `SpscRing.PoppedIsPrefixOfPushed` | sol-trade-sdk/src/perf/hardware_optimizations.rs:354-386 | in every reachable state of every interleaving, the popped values are a prefix of the successfully pushed ones and at most capacity - 1 wait, even after the counters wrap |
| `SpscRing.NoSlotRace` | sol-trade-sdk/src/perf/hardware_optimizations.rs:362-382 | a push about to write and a pop about to read never address the same slot |
| `SpscRing.RefusalsAreExact` | sol-trade-sdk/src/perf/hardware_optimizations.rs:357-378 | a push is refused iff capacity - 1 values wait when it loads the tail; a pop finds nothing iff none waits when it loads the head |
| `SpscRing.StepKeepsInv` | sol-trade-sdk/src/perf/hardware_optimizations.rs:354-386 | each load, slot access and store keeps: waiting values are in their slots, counters match the histories, calls in flight hold what they need |
| `SpscRing.StepRefinesQueue` | sol-trade-sdk/src/perf/hardware_optimizations.rs:354-386 | each atomic step is an enqueue, a dequeue of the oldest value, or nothing on the abstract queue |
| `SpscRing.WholePush` | sol-trade-sdk/src/perf/hardware_optimizations.rs:356-369 | an uninterrupted push reaches the state it should by its own four steps, and is refused iff full |
| `SpscRing.WholePop` | sol-trade-sdk/src/perf/hardware_optimizations.rs:373-386 | an uninterrupted pop takes the oldest waiting value by its own four steps, and fails iff none waits |
| `SpscRing.LenIsExact` | sol-trade-sdk/src/perf/hardware_optimizations.rs:390-394 | the masked, wrapping difference of the counters is the number of waiting values |
| `SpscRing.CacheOptimizedRingBuffer.New` | sol-trade-sdk/src/perf/hardware_optimizations.rs:337-352 | succeeds iff the capacity is a power of two; the ring is empty |
| `SpscRing.CacheOptimizedRingBuffer.TryPush` | sol-trade-sdk/src/perf/hardware_optimizations.rs:356-369 | appends iff fewer than capacity - 1 values wait, and is a run of the step system |
| `SpscRing.CacheOptimizedRingBuffer.TryPop` | sol-trade-sdk/src/perf/hardware_optimizations.rs:373-386 | removes the oldest value iff there is one, and is a run of the step system |
| `SpscRing.CacheOptimizedRingBuffer.Len` | sol-trade-sdk/src/perf/hardware_optimizations.rs:390-394 | the number of waiting values |
| `BlockBitmap.InitialBits` | sol-trade-sdk/src/perf/zero_copy_io.rs:61-74 | the initial words have a one bit for exactly the blocks of the pool |
| `BlockBitmap.ClearTakesBlock` | sol-trade-sdk/src/perf/zero_copy_io.rs:104-111 | clearing one bit removes exactly its block from the free set |
| `BlockBitmap.SetReturnsBlock` | sol-trade-sdk/src/perf/zero_copy_io.rs:159-166 | setting one bit adds exactly its block to the free set |
| `ConcurrentPool.NoBlockHasTwoOwners` | sol-trade-sdk/src/perf/zero_copy_io.rs:91-167 | in every run of any number of threads, an owned block is owned once, by one thread, and not free |
| `ConcurrentPool.BlocksAreConserved` | sol-trade-sdk/src/perf/zero_copy_io.rs:91-175 | free + owned + leaked blocks is always the pool size |
| `ConcurrentPool.RestoreIsUnreachable` | sol-trade-sdk/src/perf/zero_copy_io.rs:117-121 | no bit at or above the block count is ever set, so the restoring branch is never taken |
| `ConcurrentPool.StepKeepsInv` | sol-trade-sdk/src/perf/zero_copy_io.rs:91-167 | every atomic step keeps each block of the pool in exactly one place |
| `PoolRuns.NoneSawEveryWordZero` | sol-trade-sdk/src/perf/zero_copy_io.rs:91-149 | an allocation that returns None has found every word zero, each at some moment of the call, whatever other threads do |
| `PoolRuns.NoneMeansNoBlockStayedFree` | sol-trade-sdk/src/perf/zero_copy_io.rs:91-149 | so no block was free throughout the call |
| `PoolRuns.NoneMeansNothingFreeIff` | sol-trade-sdk/src/perf/zero_copy_io.rs:91-149 | for every pool size: every allocation that returns None, in every reachable run, has met a moment without a free block iff the pool has at most 64 blocks |
| `PoolRuns.NoneDespiteFree` | sol-trade-sdk/src/perf/zero_copy_io.rs:91-149 | for every larger pool, a reachable run in which an allocation returns None although some block is free at every moment |
| `PoolRuns.NoneDespiteFreeBlocks` | sol-trade-sdk/src/perf/zero_copy_io.rs:91-149 | an instance with 128 blocks |
| `PoolRuns.ClaimsStayTrue` | sol-trade-sdk/src/perf/zero_copy_io.rs:96-145 | every step keeps: the words a scan has passed were zero, and the value it holds was read |
| `PoolRuns.TakesOne` | sol-trade-sdk/src/perf/zero_copy_io.rs:91-149 | an uninterrupted call takes a block whenever one is free |
| `SharedMemory.AlignedSizeIsLeast` | sol-trade-sdk/src/perf/zero_copy_io.rs:49-52 | the aligned size is the least multiple of 64 that holds a block |
| `SharedMemory.Align` | sol-trade-sdk/src/perf/zero_copy_io.rs:49-52 | the mask expression computes the aligned size |
| `SharedMemory.InitialBitmap` | sol-trade-sdk/src/perf/zero_copy_io.rs:61-74 | the loop over the words leaves exactly the pool's blocks free |
| `SharedMemory.SharedMemoryPool.constructor` | sol-trade-sdk/src/perf/zero_copy_io.rs:49-87 | every block is free and the region holds them all |
| `SharedMemory.SharedMemoryPool.AllocateBlock` | sol-trade-sdk/src/perf/zero_copy_io.rs:91-149 | terminates, succeeds iff a block is free, takes the first free one in the cyclic scan from the hint, stores the next hint, and is a run of the concurrent step system |
| `SharedMemory.SharedMemoryPool.DeallocateBlock` | sol-trade-sdk/src/perf/zero_copy_io.rs:153-167 | frees exactly the block, as one step of the step system; a block of another pool or past the bitmap changes nothing, and only an index past the pool but inside the bitmap makes the pool invalid |
| `SharedMemory.SharedMemoryPool.AvailableBlocks` | sol-trade-sdk/src/perf/zero_copy_io.rs:170-175 | the sum of the words' one bits is the number of free blocks |
| `BlockBitmap.ScanVisits` | sol-trade-sdk/src/perf/zero_copy_io.rs:96-97 | the cyclic scan reaches every word from any start |
| `BlockBitmap.ScanGoesRound` | sol-trade-sdk/src/perf/zero_copy_io.rs:93-97 | the scan goes from each word to the next and from the last to the first |
| `BlockBitmap.NothingLeft` | sol-trade-sdk/src/perf/zero_copy_io.rs:96-148 | a scan that finds only zero words proves that no block is free |
| `BlockBitmap.FirstFreeBlock` | sol-trade-sdk/src/perf/zero_copy_io.rs:96-116 | the lowest one bit of the first word that is not zero is the first free block, and clearing it takes that block only |
| `SharedMemory.BlocksAreDisjoint` | sol-trade-sdk/src/perf/zero_copy_io.rs:123-137 | distinct blocks occupy disjoint 64-byte-aligned ranges inside the region |
| `SharedMemory.HandlesAreApart` | sol-trade-sdk/src/perf/zero_copy_io.rs:123-137 | the handles of distinct blocks name disjoint aligned ranges inside the region |
| `SharedMemory.BlocksFillPool` | sol-trade-sdk/src/perf/zero_copy_io.rs:49-58 | the blocks use up the pool but for less than one block |
| `SharedMemory.BlockHoldsRequest` | sol-trade-sdk/src/perf/zero_copy_io.rs:606-622 | the chosen pool's block holds the request iff it is at most 16 MiB |
| `SharedMemory.ManagerPoolsAreLarge` | sol-trade-sdk/src/perf/zero_copy_io.rs:577-586 | in each of the manager's pools an allocation can return None although some block is free at every moment |
| `BlockWrites.CopyStaysInBlock` | sol-trade-sdk/src/perf/zero_copy_io.rs:217-230 | the rounded copy of data that fits a block ends inside the block |
| `BlockWrites.WriteBytes` | sol-trade-sdk/src/perf/zero_copy_io.rs:217-230 | refuses iff the data exceeds the block, changing nothing; otherwise the block starts with the data, exactly the bytes the rounded copy touches are taken from the caller's memory, and nothing outside the block changes |
| `BlockWrites.ReadBytes` | sol-trade-sdk/src/perf/zero_copy_io.rs:234-240 | the first bytes of the block, or a refusal past its size |
| `BlockWrites.OwnersNeverMeet` | sol-trade-sdk/src/perf/zero_copy_io.rs:91-230 | in every run of any number of threads, writes by two owners never touch a common byte, rounding included |
| `SharedMemory.ZeroCopyMemoryManager.constructor` | sol-trade-sdk/src/perf/zero_copy_io.rs:571-602 | three separate pools, all free: 16384 blocks of 64 KiB, 4096 of 1 MiB and 512 of 16 MiB |
| `SharedMemory.ZeroCopyMemoryManager.Allocate` | sol-trade-sdk/src/perf/zero_copy_io.rs:606-622 | the block is from the pool with the smallest blocks that hold the request, and of 16 MiB for any larger request; None exactly when that pool has no free block; no other pool is touched |
| `SharedMemory.ZeroCopyMemoryManager.Deallocate` | sol-trade-sdk/src/perf/zero_copy_io.rs:626-632 | frees exactly the block in its own pool; an unknown pool, or an index past the pool's bitmap, changes no free block; the manager stays valid for every block of its pools |
| `SimdMemory.MemcpySmall` | sol-trade-sdk/src/perf/hardware_optimizations.rs:38-55 | 1 to 4 bytes exactly, 5 to 8 as one 8-byte word |
| `SimdMemory.MemcpySse` | sol-trade-sdk/src/perf/hardware_optimizations.rs:59-74 | moves 16 bytes |
| `SimdMemory.MemcpyAvx` | sol-trade-sdk/src/perf/hardware_optimizations.rs:78-93 | moves 32 bytes |
| `SimdMemory.MemcpyAvx2` | sol-trade-sdk/src/perf/hardware_optimizations.rs:97-117 | moves the request rounded up to 32 |
| `SimdMemory.MemcpyAvx512` | sol-trade-sdk/src/perf/hardware_optimizations.rs:121-156 | chunks of 64 and a tail move the request rounded up to 32 |
| `SimdMemory.MemcpyFallback` | sol-trade-sdk/src/perf/hardware_optimizations.rs:121-156 | chunks of 32 and a tail move the request rounded up to 32 |
| `SimdMemory.MemcpySimdOptimized` | sol-trade-sdk/src/perf/hardware_optimizations.rs:25-34 | the whole destination afterwards: the footprint copied, all else unchanged, on both code paths |
| `SimdMemory.CopyIsExactIff` | sol-trade-sdk/src/perf/hardware_optimizations.rs:25-156 | the bytes past the request stay intact for all memory contents iff the size is at most 4, 8, 16 or a multiple of 32 |
| `SimdMemory.FootprintIsLeast` | sol-trade-sdk/src/perf/hardware_optimizations.rs:25-156 | every request moves the least size from it on that is copied exactly |
| `SimdMemory.CopiedContinues` | sol-trade-sdk/src/perf/hardware_optimizations.rs:121-156 | copying a part and then the next part is copying both |
| `SimdMemory.MovemaskBit` | sol-trade-sdk/src/perf/hardware_optimizations.rs:185-227 | each bit of the compare mask says whether its lane agrees |
| `SimdMemory.ValidMaskTest` | sol-trade-sdk/src/perf/hardware_optimizations.rs:195-226 | the masked test asks for exactly the lowest `len` lanes |
| `SimdMemory.MaskedCompare` | sol-trade-sdk/src/perf/hardware_optimizations.rs:185-227 | the masked register compare decides agreement of the first `len` bytes |
| `SimdMemory.MemcmpSmall` | sol-trade-sdk/src/perf/hardware_optimizations.rs:172-181 | true iff the compared bytes agree, 8 of them for 5 to 8 |
| `SimdMemory.MemcmpSse` | sol-trade-sdk/src/perf/hardware_optimizations.rs:185-203 | true iff the first `len` bytes agree |
| `SimdMemory.MemcmpAvx2` | sol-trade-sdk/src/perf/hardware_optimizations.rs:207-227 | true iff the first `len` bytes agree |
| `SimdMemory.MemcmpLarge` | sol-trade-sdk/src/perf/hardware_optimizations.rs:231-247 | the chunked loop with its tail is true iff all `len` bytes agree |
| `SimdMemory.MemcmpSimdOptimized` | sol-trade-sdk/src/perf/hardware_optimizations.rs:160-168 | true iff the first 8 bytes agree for 5 to 8, the first `len` otherwise |
| `SimdMemory.CompareIsExactIff` | sol-trade-sdk/src/perf/hardware_optimizations.rs:160-247 | the answer depends on the requested bytes only, iff the size is not 5, 6 or 7 |
| `SimdMemory.MemzeroSimdOptimized` | sol-trade-sdk/src/perf/hardware_optimizations.rs:251-275 | exactly the `len` bytes become zero |
| `SimdMemory.CopyAvx2` | sol-trade-sdk/src/perf/simd.rs:19-34 | copies exactly `len` bytes |
| `SimdMemory.CompareAvx2` | sol-trade-sdk/src/perf/simd.rs:46-71 | true iff all `len` bytes agree |
| `SimdMemory.AddU64Batch` | sol-trade-sdk/src/perf/simd.rs:115-136 | every element is the wrapping sum of its operands |
| `ByteRing.SpaceIsAccounted` | sol-trade-sdk/src/perf/zero_copy_io.rs:287-291 | data + space is size - 1, and the contents are as long as the data count |
| `ByteRing.WriteAppendsIff` | sol-trade-sdk/src/perf/zero_copy_io.rs:281-334 | an accepted write appends exactly its data, for every caller, iff the reach of its copies ends before the unread bytes |
| `ByteRing.WriteIsCleanIff` | sol-trade-sdk/src/perf/zero_copy_io.rs:281-334 | it also leaves the memory after the mapping alone, for every caller, iff the reach ends before the end of the mapping too |
| `ByteRing.KeepingAppends` | sol-trade-sdk/src/perf/zero_copy_io.rs:297-330 | with that room, both the straight and the split write append exactly the data |
| `ByteRing.RoomyIsClean` | sol-trade-sdk/src/perf/zero_copy_io.rs:297-330 | with room inside the mapping as well, nothing outside it changes |
| `ByteRing.ExactCopiesAreRoomy` | sol-trade-sdk/src/perf/zero_copy_io.rs:287-327 | copies that keep to their request always have room |
| `ByteRing.WriteCanDestroyUnreadData` | sol-trade-sdk/src/perf/zero_copy_io.rs:297-327 | a concrete accepted write whose copy overwrites an unread byte |
| `ByteRing.ReadTakesOldest` | sol-trade-sdk/src/perf/zero_copy_io.rs:338-393 | a read delivers the oldest bytes and leaves the rest, wrapped or not |
| `ByteRing.ReadStaysInBufferIff` | sol-trade-sdk/src/perf/zero_copy_io.rs:357-386 | a read leaves the memory after the caller's buffer alone iff the reach of its copies fits it |
| `ByteRing.RunIsFifo` | sol-trade-sdk/src/perf/zero_copy_io.rs:281-393 | over every sequence of calls whose writes end before the unread bytes: bytes out followed by contents equals old contents followed by bytes in |
| `ByteRing.RunIsFifoIff` | sol-trade-sdk/src/perf/zero_copy_io.rs:281-393 | calls of given kinds and lengths are FIFO at every moment, whatever the bytes, iff each accepted write ends before the bytes unread at its time |
| `ByteRing.ReachIgnoresBytes` | sol-trade-sdk/src/perf/zero_copy_io.rs:281-393 | that condition depends on the positions and lengths only, not on any byte |
| `ByteRing.ExactRunsKeepQueue` | sol-trade-sdk/src/perf/zero_copy_io.rs:281-393 | with exact copies every run meets it, so every run is FIFO |
| `ByteRingSteps.AlwaysFifoIff` | sol-trade-sdk/src/perf/zero_copy_io.rs:281-393 | one writer and one reader, every load, copied byte and store a step, the rounded copies included: for writes of given lengths every interleaving is FIFO, whatever the bytes, iff in none an accepted write reaches the bytes unread as it loads the read position |
| `ByteRingSteps.AnyLengthsFifoIff` | sol-trade-sdk/src/perf/zero_copy_io.rs:281-393 | with the program's copies and any lengths every interleaving is FIFO iff the ring has at most 6 bytes; with exact copies, for every size |
| `ByteRingSteps.KeptIsFifo` | sol-trade-sdk/src/perf/zero_copy_io.rs:281-393 | in every interleaving whose accepted writes kept off the unread bytes, the bytes read are a prefix of the bytes written, the rest waits in the ring, and at most size - 1 wait |
| `ByteRingSteps.UnkeptLoses` | sol-trade-sdk/src/perf/zero_copy_io.rs:297-330 | from any reachable state in which an accepted write reaches unread bytes, some bytes of its caller spoil the ring |
| `ByteRingSteps.NoByteRace` | sol-trade-sdk/src/perf/zero_copy_io.rs:297-386 | there no byte that the copies of a write in flight reach is one that a read in flight was asked for |
| `ByteRingSteps.RefusalsAreExact` | sol-trade-sdk/src/perf/zero_copy_io.rs:283-354 | a write is refused iff its data exceeds the space left as it loads the read position; a read finds nothing iff nothing waits as it loads the write position, and else copies what waits and fits |
| `ByteRingSteps.StepRefinesQueue` | sol-trade-sdk/src/perf/zero_copy_io.rs:281-393 | every load, copied byte and store is an append of the data, a removal of the oldest bytes, or nothing on the abstract byte queue |
| `ByteRingSteps.StepKeepsInv` | sol-trade-sdk/src/perf/zero_copy_io.rs:281-393 | each step, rounded copies included, keeps: positions count the bytes, waiting bytes are in place, and copies in flight hold what they should |
| `ByteRingSteps.WholeWrite` | sol-trade-sdk/src/perf/zero_copy_io.rs:281-334 | the steps of a write that is not interrupted make exactly the write of the whole-call model |
| `ByteRing.MemoryMappedBuffer.constructor` | sol-trade-sdk/src/perf/zero_copy_io.rs:262-277 | the ring starts empty, for every size from 1 |
| `ByteRing.MemoryMappedBuffer.WriteData` | sol-trade-sdk/src/perf/zero_copy_io.rs:281-334 | refuses iff the data exceeds the free space, changing nothing; otherwise the memory and positions of the specification |
| `ByteRing.MemoryMappedBuffer.ReadData` | sol-trade-sdk/src/perf/zero_copy_io.rs:338-393 | the caller's memory, the count and the positions of the specification |
| `ByteRing.MemoryMappedBuffer.AvailableData` | sol-trade-sdk/src/perf/zero_copy_io.rs:397-406 | the length of the contents |
| `ByteRing.MemoryMappedBuffer.AvailableSpace` | sol-trade-sdk/src/perf/zero_copy_io.rs:410-412 | size - 1 less the length of the contents |
| `BondingCurve.BuyNeverTraps` | sol-trade-sdk/src/common/bonding_curve.rs:144-168 | the subtraction underflows iff the virtual token reserve is empty; the u64 result is lossless and capped by the real reserve |
| `BondingCurve.BuysAtLeastIff` | sol-trade-sdk/src/common/bonding_curve.rs:144-168 | a buy yields at least `a` tokens iff it pays more than the quotient that prices them |
| `BondingCurve.BuyOutIsLeast` | sol-trade-sdk/src/common/bonding_curve.rs:232-250 | the buy-out price is exactly the least SOL amount that buys at least `a`, for amounts not below the real SOL reserve |
| `BondingCurve.BuyOutBelowReserve` | sol-trade-sdk/src/common/bonding_curve.rs:234-238 | below the reserve the price still buys enough, and is least iff reserve * virtual SOL is below (quotient of the amount + 1) * (virtual tokens - reserve) |
| `BondingCurve.BuyOutCanOverprice` | sol-trade-sdk/src/common/bonding_curve.rs:234-238 | a concrete curve where it is nine times the least price |
| `BondingCurve.SellNeverTraps` | sol-trade-sdk/src/common/bonding_curve.rs:179-197 | up to 10000 basis points nothing underflows and the u64 result is lossless |
| `BondingCurve.SellQuote` | sol-trade-sdk/src/common/bonding_curve.rs:179-197 | for every fee up to 10000 basis points the sell quote is the largest gross amount the proportion allows less the largest fee within the basis points |
| `BondingCurve.BuyOutQuote` | sol-trade-sdk/src/common/bonding_curve.rs:232-250 | for every fee the buy-out quote exceeds the fee-free one by the largest fee within the basis points, exactly while a u128 holds the numbers |
| `BondingCurve.EdgeQuotes` | sol-trade-sdk/src/common/bonding_curve.rs:144-250 | a complete curve quotes neither way, nothing is quoted for nothing, and a buy-out of all virtual tokens fails |
| `BondingCurve.SaleKeepsProduct` | sol-trade-sdk/src/common/bonding_curve.rs:189-192 | the gross amount never exceeds the reserve and never lowers the product |
| `BondingCurve.BuyIsFair` | sol-trade-sdk/src/common/bonding_curve.rs:144-168 | a buy moves exactly its tokens and SOL, and raises the product when it pays |
| `BondingCurve.RunIsFair` | sol-trade-sdk/src/common/bonding_curve.rs:87-90 | over every run of buys and sells with any fee up to 10000 basis points, the product never falls and the reserves account for every token |
| `BondingCurve.RunConserves` | sol-trade-sdk/src/common/bonding_curve.rs:87-90 | a run executes every trade: tokens only change hands, virtual and real reserves move together, and without fees SOL only changes hands too |
| `BondingCurve.SaleTakesGross` | sol-trade-sdk/src/common/bonding_curve.rs:179-197 | a sale takes the largest gross amount the proportion allows out of the reserves, of which the trader gets all but the largest fee within the basis points |
| `BondingCurve.NoProfitableRun` | sol-trade-sdk/src/common/bonding_curve.rs:144-197 | a run that takes in no more tokens than it gave out leaves the SOL reserve no lower and pays traders no more than they paid |
| `BondingCurve.RoundTripLoses` | sol-trade-sdk/src/common/bonding_curve.rs:144-197 | selling back what a buy of x > 0 gave pays strictly less than x |
| `BondingCurve.TwoBuys` | sol-trade-sdk/src/common/bonding_curve.rs:154-167 | two buys in a row give at most one buy of the sum, cap included |
| `BondingCurve.SplitBuysGiveNoMore` | sol-trade-sdk/src/common/bonding_curve.rs:154-167 | however SOL is split over buys, the tokens add up to at most one buy's |
| `BondingCurve.SplitSellsGiveNoMore` | sol-trade-sdk/src/common/bonding_curve.rs:189-196 | however tokens are split over fee-free sells, the SOL adds up to at most one sell's |
| `BondingCurve.SplittingNeverPaysIff` | sol-trade-sdk/src/common/bonding_curve.rs:189-196 | for every fee up to 10000 basis points: no split of any sale on any curve earns more than the sale in one piece iff the fee is 0 or 10000 |
| `BondingCurve.SplitCanPay` | sol-trade-sdk/src/common/bonding_curve.rs:189-196 | for every fee between, a curve on which two sells of one token earn more than one sell of two |
| `BondingCurve.SplitSellCanSaveFee` | sol-trade-sdk/src/common/bonding_curve.rs:189-196 | an instance at a fee of one percent |
| `BondingCurve.InitialQuotesAgree` | sol-trade-sdk/src/common/global.rs:109-125 | the global account's quote is the untouched curve's quote |
| `BondingCurve.DevTradeIsFirstBuy` | sol-trade-sdk/src/common/bonding_curve.rs:70-97 | the curve built from the developer's trade is the untouched curve after that buy |
| `FeeTable.ServicesAreAll` | sol-trade-sdk/src/swqos/mod.rs:110-170 | the list of services holds every service |
| `FeeTable.SetIsItsUpdates` | sol-trade-sdk/src/common/gas_fee_strategy.rs:214-237 | the separate updates of an uninterrupted `set` have its combined effect |
| `FeeTable.SetKeepsExclusive` | sol-trade-sdk/src/common/gas_fee_strategy.rs:214-237 | an uninterrupted `set` keeps the exclusion of Normal and the tip strategies |
| `FeeTable.UpdateKeepsExclusive` | sol-trade-sdk/src/common/gas_fee_strategy.rs:241-352 | every update that is not an insertion keeps it too |
| `Rcu.NoUpdateIsLost` | sol-trade-sdk/src/common/gas_fee_strategy.rs:229-264 | in every interleaving of retry loops the map is the fold of the committed updates in commit order, one for each call that returned |
| `Rcu.SwapAppliesToLatest` | sol-trade-sdk/src/common/gas_fee_strategy.rs:300-352 | a successful swap applies its update to the map all earlier commits left |
| `Rcu.OverlappingSetsBreakExclusive` | sol-trade-sdk/src/common/gas_fee_strategy.rs:214-237 | an instance: a reachable state where two overlapping `set` calls left Normal beside a tip strategy |
| `ConcurrentSets.AlwaysExclusiveIff` | sol-trade-sdk/src/common/gas_fee_strategy.rs:214-264 | for threads running any programs of `set` calls, deletions and updates: every table of every interleaving is exclusive iff no two different threads hold `set` calls for one service and trade type of which one sets Normal and the other a tip strategy |
| `ConcurrentSets.StepKeepsInv` | sol-trade-sdk/src/common/gas_fee_strategy.rs:214-264 | for such compatible programs each load and swap keeps the exclusion, and what a call in flight has removed stays absent |
| `ConcurrentSets.ConflictBreaks` | sol-trade-sdk/src/common/gas_fee_strategy.rs:214-237 | any two conflicting calls of different threads, wherever in their programs, can leave both entries |
| `GasFees.CallKeepsExclusive` | sol-trade-sdk/src/common/gas_fee_strategy.rs:39-352 | every public call keeps the exclusion |
| `GasFees.CallsKeepExclusive` | sol-trade-sdk/src/common/gas_fee_strategy.rs:39-352 | it holds after every sequence of calls that do not overlap |
| `GasFees.CallsCompose` | sol-trade-sdk/src/common/gas_fee_strategy.rs:39-352 | a sequence runs call by call, each from the table the ones before left |
| `GasFees.GlobalSetsEverything` | sol-trade-sdk/src/common/gas_fee_strategy.rs:39-85 | afterwards every service holds exactly Normal for Buy and Sell, Default with tip 0, and other trade types are unchanged |
| `GasFees.HighLowSetsExactly` | sol-trade-sdk/src/common/gas_fee_strategy.rs:89-118 | afterwards each listed service holds exactly the two tip strategies, low tip with high price and high tip with low price, and all else is unchanged |
| `GasFees.HighLowForAt` | sol-trade-sdk/src/common/gas_fee_strategy.rs:122-152 | the same for one service |
| `GasFees.HighLowOneSetsExactly` | sol-trade-sdk/src/common/gas_fee_strategy.rs:122-152 | afterwards the service holds low tip with high price and high tip with low price, all else is unchanged, and for Default everything is |
| `GasFees.SetSetsExactly` | sol-trade-sdk/src/common/gas_fee_strategy.rs:214-237 | afterwards the entry is stored, what it excludes is absent, and all else is unchanged |
| `GasFees.DeletionsAreExact` | sol-trade-sdk/src/common/gas_fee_strategy.rs:241-296 | each deletion removes exactly its one entry, its three entries, or everything |
| `GasFees.NormalSetsExactly` | sol-trade-sdk/src/common/gas_fee_strategy.rs:156-184 | afterwards each listed service holds exactly Normal for Buy and Sell, and all else is unchanged |
| `GasFees.ResetForAt` | sol-trade-sdk/src/common/gas_fee_strategy.rs:186-212 | the same for one service |
| `GasFees.GasFeeStrategy.DelOne` | sol-trade-sdk/src/common/gas_fee_strategy.rs:253-264 | removes the one entry |
| `GasFees.GasFeeStrategy.DelBoth` | sol-trade-sdk/src/common/gas_fee_strategy.rs:241-249 | removes the three entries of a service and trade type |
| `GasFees.GasFeeStrategy.UpdateTips` | sol-trade-sdk/src/common/gas_fee_strategy.rs:300-352 | changes the tip of every entry of the side, Buy for true and Sell for false, and nothing else |
| `GasFees.GasFeeStrategy.UpdateCuPrices` | sol-trade-sdk/src/common/gas_fee_strategy.rs:300-352 | changes the unit price of every entry of the side, Buy for true and Sell for false, and nothing else |
| `GasFees.GasFeeStrategy.ClearTable` | sol-trade-sdk/src/common/gas_fee_strategy.rs:294-296 | empties the table |
| `GasFees.GasFeeStrategy.SetEntry` | sol-trade-sdk/src/common/gas_fee_strategy.rs:214-237 | removes what excludes the entry, then stores it |
| `GasFees.GasFeeStrategy.SetGlobalFeeStrategy` | sol-trade-sdk/src/common/gas_fee_strategy.rs:39-85 | the loop over the services has the specified effect |
| `GasFees.GasFeeStrategy.SetHighLowFeeStrategies` | sol-trade-sdk/src/common/gas_fee_strategy.rs:89-118 | the loop over the listed services has the specified effect |
| `GasFees.GasFeeStrategy.SetHighLowFeeStrategy` | sol-trade-sdk/src/common/gas_fee_strategy.rs:122-152 | the specified effect, which `HighLowOneSetsExactly` states entry by entry |
| `GasFees.GasFeeStrategy.SetNormalFeeStrategies` | sol-trade-sdk/src/common/gas_fee_strategy.rs:156-184 | the loop over the listed services has the specified effect |
| `GasFees.GasFeeStrategy.SetNormalFeeStrategy` | sol-trade-sdk/src/common/gas_fee_strategy.rs:186-212 | clears both sides of the service and sets Normal |
| `GasFees.GasFeeStrategy.GetStrategies` | sol-trade-sdk/src/common/gas_fee_strategy.rs:268-290 | lists every stored entry of the trade type exactly once, and nothing else |
| `Confirmation.PollAny` | sol-trade-sdk/src/swqos/common.rs:98-246 | terminates; the outcome, the number of polls and the fetched transactions are those the answers determine, which the rows below state case by case |
| `Confirmation.ScanStatuses` | sol-trade-sdk/src/swqos/common.rs:129-144 | the loop over one reply returns the first confirmed signature, panics on an index past the list, and keeps the first landing |
| `Confirmation.AtMostFifteenPolls` | sol-trade-sdk/src/swqos/common.rs:111-125 | however the node answers, statuses are polled at most 15 times |
| `Confirmation.PollsStartInTime` | sol-trade-sdk/src/swqos/common.rs:111-125 | every poll starts within 15 seconds, and a timeout is reported only after them |
| `Confirmation.FailedStatusesEnd` | sol-trade-sdk/src/swqos/common.rs:126-128 | a failed status call ends the poll with its error |
| `Confirmation.PanicsIff` | sol-trade-sdk/src/swqos/common.rs:129-144 | a poll panics iff it needs the signature of an entry past the list: one confirmed, or the first with a status while nothing has landed |
| `Confirmation.PanicNeedsLongReply` | sol-trade-sdk/src/swqos/common.rs:129-144 | only a reply longer than the list can make the call panic |
| `Confirmation.EarlyPollsPass` | sol-trade-sdk/src/swqos/common.rs:146-151 | a poll without a confirmed entry passes before the tenth, or while nothing has landed |
| `Confirmation.FetchDecides` | sol-trade-sdk/src/swqos/common.rs:146-246 | from the tenth poll on with something landed: it passes iff the fetch fails or has no meta; a clean meta is success of the landed signature, an instruction error is rejected with its index and number (custom codes as they are, ten fixed codes, 999 for the rest), any other error with 0 and no index |
| `Confirmation.EndIsUnique` | sol-trade-sdk/src/swqos/common.rs:98-246 | the answers determine the outcome and the number of polls |
| `Confirmation.SuccessIsJustified` | sol-trade-sdk/src/swqos/common.rs:129-184 | success names a listed signature that the last poll reported confirmed without error or fetched without error |
| `Confirmation.ReportEndsTheCall` | sol-trade-sdk/src/swqos/common.rs:129-137 | a status without error that is confirmed or finalized ends the call at that poll, with the first such signature of the reply, or the call has ended before |
| `Confirmation.FetchesAreLateAndSticky` | sol-trade-sdk/src/swqos/common.rs:146-177 | every fetch is at poll 10 or later, for the one landed signature, and after a reply with nothing confirmed |
| `Confirmation.FetchesAreComplete` | sol-trade-sdk/src/swqos/common.rs:146-177 | every poll from the tenth on with something landed and nothing confirmed fetches it, once |
| `Confirmation.LandedIsFirst` | sol-trade-sdk/src/swqos/common.rs:138-144 | that signature is the first with a status in the first reply that has any |
| `Confirmation.NothingLandedIff` | sol-trade-sdk/src/swqos/common.rs:138-144 | nothing has landed iff no reply so far had a status |
| `TradeHistory.StoredIsNewestDistinct` | src/trading.rs:181-207 | after every sequence of stores the list is the newest `max` of the history without repeated signatures, newest first |
| `TradeHistory.ListIsBoundedIff` | src/trading.rs:195-199 | the list stays within its bound for every history iff the bound is positive |
| `TradeHistory.DistinctHasOnlySeen` | src/trading.rs:181-185 | the history without repeats has every signature seen, each once |
| `TradeHistory.DistinctExtends` | src/trading.rs:181-207 | later stores only append, and only unseen signatures |
| `TradeHistory.EvictedStaysOut` | src/trading.rs:181-207 | an evicted signature never enters the list again |
| `TradeHistory.SortIsStable` | src/trading.rs:224-224 | the sorted list is a newest-first permutation that keeps the order of equal block times |
| `TradeHistory.StableSortIsUnique` | src/trading.rs:224-224 | only one list is |
| `TradeHistory.RecentTradesSorted` | src/trading.rs:209-227 | recent trades are that sort of the newest `limit` stored records, or of all for limit 0 |
| `TradeHistory.PriceChangeSpansWindow` | src/trading.rs:287-309 | the percentage compares a latest record, the last stored among equals, with an earliest one, the first stored among equals |
| `TradeHistory.PriceChangeIsChange` | src/trading.rs:287-309 | the change is the percentage from the earliest to the latest price of the records taken, and None iff they are fewer than two or the earliest price is zero |
| `TradeHistory.RedisStore.IsSignatureExists` | src/trading.rs:170-179 | whether the mint's set has the signature |
| `TradeHistory.RedisStore.StoreTrade` | src/trading.rs:181-207 | list and set change as specified; other mints are untouched |
| `TradeHistory.RedisStore.GetRecentTrades` | src/trading.rs:209-227 | the specified recent trades |
| `TradeHistory.RedisStore.CalculatePriceChangeFromRecords` | src/trading.rs:287-309 | None iff fewer than two records are taken or the earliest price p is zero; otherwise the c with p * (100 + c) = 100 * q for the latest price q, the last stored among equals |
| `SignatureWindow.WindowIsRecentLog` | pumpswap-bot-nodejs/src/grpcSubscriber.ts:178-187 | after any marks the set is a suffix of the log of insertions, at least half the bound long (or the whole log) and at most the bound |
| `SignatureWindow.LatestAreRemembered` | pumpswap-bot-nodejs/src/grpcSubscriber.ts:174-187 | the latest k insertions are still recognised for every k with 2 * k below the bound |
| `SignatureWindow.MarkKeepsWindow` | pumpswap-bot-nodejs/src/grpcSubscriber.ts:178-187 | one mark keeps a window a recent suffix of its log |
| `SignatureWindow.MarkSizes` | pumpswap-bot-nodejs/src/grpcSubscriber.ts:178-187 | a new signature joins a set below the bound, and leaves half of a full one, rounded up, itself included |
| `SignatureWindow.GrpcSubscriber.IsSignatureProcessed` | pumpswap-bot-nodejs/src/grpcSubscriber.ts:174-176 | membership in the set |
| `SignatureWindow.GrpcSubscriber.MarkSignatureProcessed` | pumpswap-bot-nodejs/src/grpcSubscriber.ts:178-187 | a known signature changes nothing, a new one is added, and one too many for the bound makes the loop of deletions leave exactly the newest half of the bound, rounded up |
| `Codecs.HexDecodes` | sol-trade-sdk/src/common/seed.rs:77-89 | the digits decode to the value |
| `Codecs.HexDigitIs` | sol-trade-sdk/src/common/seed.rs:82-88 | each nibble is its character of 0123456789abcdef |
| `Codecs.HexEncodesBack` | sol-trade-sdk/src/common/seed.rs:77-89 | every lowercase hex string is the digits of its value |
| `Codecs.HexNibble` | sol-trade-sdk/src/common/seed.rs:82-88 | digit `i` comes from the nibble the shift selects |
| `Codecs.EncodeSeed` | sol-trade-sdk/src/common/seed.rs:114-126 | the digit loop gives eight digits that decode to the 32-bit value |
| `Codecs.SeedsAreHexStrings` | sol-trade-sdk/src/common/seed.rs:77-89 | 32-bit values and eight-digit lowercase hex strings correspond one to one |
| `Codecs.SerializeU64Batch` | sol-trade-sdk/src/perf/simd.rs:189-197 | the loop appends the specified bytes |
| `Codecs.DeserializeU64Batch` | sol-trade-sdk/src/perf/simd.rs:201-221 | the loop reads every whole group and ignores the tail |
| `Codecs.EightBytes` | sol-trade-sdk/src/perf/simd.rs:189-221 | eight little-endian bytes and a u64 correspond one to one |
| `Codecs.LeByte` | sol-trade-sdk/src/perf/simd.rs:189-197 | byte `i` is the value shifted right by `8 * i` bits, cut to a byte |
| `Codecs.BatchRoundTrip` | sol-trade-sdk/src/perf/simd.rs:189-221 | decoding an encoded batch gives it back |
| `Codecs.BytesRoundTrip` | sol-trade-sdk/src/perf/simd.rs:189-221 | encoding decoded bytes gives back their longest prefix of whole groups |
| `TokenAccounts.SeedMask` | sol-trade-sdk/src/common/seed.rs:81-81 | the mask keeps the low 32 bits of the hash |
| `TokenAccounts.Caches.UpdateRents` | sol-trade-sdk/src/common/seed.rs:18-26 | stores each rent that was fetched: a failing second fetch leaves the first stored, and the caches stay valid |
| `TokenAccounts.Caches.SetDefaultRents` | sol-trade-sdk/src/common/seed.rs:32-35 | afterwards the rent is known for every token program |
| `TokenAccounts.Caches.GetSeedAddress` | sol-trade-sdk/src/common/seed.rs:109-131 | the address derived from the wallet and the mint's seed |
| `TokenAccounts.Caches.CreateUseSeed` | sol-trade-sdk/src/common/seed.rs:53-107 | fails iff the rent is unknown or no address exists; otherwise the two instructions, field by field: the creation with the known rent, 165 bytes, base and seed of the payer, and the initialisation of that account for mint and owner |
| `TokenAccounts.Caches.GetAddress` | sol-trade-sdk/src/common/fast_fn.rs:234-279 | the address the arguments determine, whatever was cached |
| `TokenAccounts.Caches.CreateIdempotent` | sol-trade-sdk/src/common/fast_fn.rs:93-147 | the instructions of its key, field by field, whatever was cached: the seeded pair or the one associated creation |
| `TokenAccounts.Caches.GetCachedPda` | sol-trade-sdk/src/common/fast_fn.rs:170-187 | the cached address, or what the given closure computes, which is remembered only if it succeeds |
| `TokenAccounts.CreateThenGet` | sol-trade-sdk/src/common/fast_fn.rs:93-279 | after any history of cached calls, the account a creation sets up for a wallet is the one the getter returns |
| `TokenAccounts.CreatesAddress` | sol-trade-sdk/src/common/fast_fn.rs:93-147 | instructions of a key set up the address of the payer if seeded, of the owner otherwise, and only accounts that can be derived |
| `TokenAccounts.PdaIsFirstSuccess` | sol-trade-sdk/src/common/fast_fn.rs:170-187 | after any lookups with any closures the cache holds, for each key, the first success, and nothing for keys without one |
| `TokenAccounts.AgreeingLookups` | sol-trade-sdk/src/common/fast_fn.rs:170-187 | when every closure computes the derivation of its key, so does every answer |
| `TokenAccounts.OwnerFindsIff` | sol-trade-sdk/src/common/seed.rs:91-105 | for every way to derive addresses the owner's lookup names every created account, iff the account is not seeded or the payer is the owner |

## Left out

- The network side: the SWQOS clients, RPC and gRPC subscriptions, key handling, configuration, logging and the monitoring loops of both bots.
- Instruction builders and the slippage and fee calculators they use; those calculators are not part of this model.
- `kernel_bypass.rs`, `protocol_optimization.rs`, `realtime_tuning.rs` and `ultra_low_latency.rs`, which the crate does not compile in, so the ring's theorems say nothing about their queues.
- Memory orderings weaker than sequential consistency.
- SpscRing.CacheOptimizedRingBuffer.Len: the value it returns while a push or pop is in flight; the two loads are not one step.
- Copy and compare paths for processors other than x86_64, which call the standard routines.
- ByteRingSteps.NoByteRace: bytes that the copies of a read move past the request, which enter neither the ring nor the answer.
- ByteRing.MemoryMappedBuffer.constructor: failure to create the mapping.
- SharedMemory.ZeroCopyMemoryManager.constructor: the mapped buffers, the DMA channels and the timing statistics.
- SharedMemory.SharedMemoryPool.constructor: a block size of zero, which divides by zero, and failure to create the mapping.
- Confirmation.PollAny: the text of the error message collected from the logs; its code and instruction index are modelled. Time spent inside an RPC call counts only through the elapsed time at the next poll.
- TradeHistory.RedisStore.StoreTrade: concurrent stores of one signature (the check and the pushing pipeline are not atomic together), Redis failures and JSON conversion.
- The price a record gets from its amounts: one floating-point division.
- The time-window queries of the trade store, whose result depends on the clock.
- TokenAccounts.Caches.CreateIdempotent: which rent a cached creation carries after the rent changes, the cache capacities and the key for closing a wSOL account; only the accounts are claimed.
- Codecs.EncodeSeed: one method stands for the two identical digit loops.
- BondingCurve.RunIsFair: where the fee goes; it stays outside the curve's reserves.
- Market-capitalisation helpers of the curve, which add no property of their own.
