# Particle pool and parallel vectors, modelled in Dafny

This project models the core of a SYCL particle system. It covers three parts.

- **The particle pool** (`Particle_system`): a fixed array of particle
  records whose live particles form the prefix `[0, m_countAlive)`.
  - `kill` swaps listed records out of that prefix and clears their flags.
  - `wake` swaps listed records into it and sets their flags.
  - The frame loop in `main.cpp` uses both: `emit` wakes a consecutive run
    of slots just past the prefix, and a sweep kills the dead slots of the
    prefix.
  - `EulerUpdater::update` advances every live record and kills the expired
    ones.
- **The keyed random generator** of `my_random.cpp`: a lane-wise 31-bit
  linear-congruential step over 32-bit unsigned lanes, and its mapping onto
  an integer range.
- **The two vector containers**:
  - `Lp_parallel_vector` splits element-wise operations over
    `num_thread` threads, each striding over the indices. It also provides
    `Lp_sort`, a quicksort over a stack of pending ranges.
  - `Lp_parallel_vector_GPU` runs one SYCL work item per index. It has
    zero-guarded division and remainder, compound assignment with a size
    check, and increment and decrement.

Modules, one per source file:

- `ParticlePool`: particle.hpp
- `Emitter`: the emit function and the dead-slot sweep of main.cpp
- `Updater`: updater.hpp
- `MyRandom`: my_random.cpp
- `VectorCpu` and `VectorSort`: vector_cpu.hpp
- `VectorGpu`: vector_gpu.hpp
- `CArith`: C++ integer semantics that Dafny's operators do not share. These
  are truncating `/` and `%`, wrap-around modulo 2^32, and `bool` results
  stored back as 0 or 1.

How the source maps onto the model:

- Types and state:
  - Element type `T` is `int`.
  - Objects the source mutates in place are classes with `modifies`
    clauses. The particle array is an `array<Particle>`. The vectors hold a
    `seq<int>` field that their methods reassign.
  - `Lp_sort` works on an `array<int>` copy, as the source does.
- Execution:
  - Every kernel and every thread set runs as a sequential loop over its
    work-item or thread index.
  - The CPU loops keep the source's stride: thread `i` visits `i`,
    `i + num_thread`, and so on. `VectorCpu.Lane(k, n)` is the thread that
    visits index `k`, and `VectorCpu.LaneIsRemainder` proves it equals
    `k % n`.
  - `std::thread::hardware_concurrency()` and `num_thread` are parameters
    bounded by the 128-entry thread array. A value of 0 is allowed: then no
    thread runs and no element is written.

## Model

| member | source | states |
|---|---|---|
| CArith.Wrap32 | updater.hpp:47 | the conversion to `unsigned int` differs from its argument by a multiple of 2^32 and lies in [0, 2^32) |
| CArith.TruncDiv | vector_cpu.hpp:160-178 | C++ `/`: the remainder it leaves is smaller than the divisor in magnitude and has the dividend's sign or is 0 |
| CArith.TruncMod | vector_cpu.hpp:515-533 | C++ `%`: `a == b * (a / b) + a % b`, smaller than the divisor in magnitude, carrying the dividend's sign |
| CArith.TruncAgrees | my_random.cpp:24 | on a non-negative dividend and positive divisor, C++ `/` and `%` agree with Euclidean division |
| CArith.BoolInt | vector_gpu.hpp:1098-1345 | a `bool` stored into an element is 1 exactly when true, otherwise 0 |
| CArith.Apply | vector_cpu.hpp:103-215 | one element of `a op b`: `+`, `-` invert each other, `*` is the product, `/` rounds toward zero and `%` is its remainder with the dividend's sign (divisor nonzero), and each comparison and `&&`/`\|\|` gives 1 exactly when it holds, otherwise 0 |
| ParticlePool.Swap | particle.hpp:82-84 | exchanging two records leaves every other slot unchanged |
| ParticlePool.SwapKeepsPayloads | particle.hpp:82-84 | a swap keeps the multiset of records, flags aside |
| ParticlePool.FlagKeepsPayloads | particle.hpp:81 | setting or clearing `alive` keeps the multiset of records, flags aside |
| ParticlePool.SwapTarget | particle.hpp:82-83 | the `size_t` target `(count_alive - ((k_size - idx) - 1)) - 1` does not underflow once `k_size <= count_alive`, and is slot `count_alive - k_size + idx`, inside the top `k_size` live slots |
| ParticlePool.KillStep | particle.hpp:80-84 | one work item: the victim, flag cleared, lands in the target slot, the target's record in the victim's slot, nothing else moves |
| ParticlePool.KillSwapsKeepPayloads | particle.hpp:79-85 | the kill kernel, for any list, only moves records and clears flags |
| ParticlePool.KillSwapsFrame | particle.hpp:79-85 | the kill kernel never writes a slot at or past the old live count that is not listed |
| ParticlePool.KillSwapsZone | particle.hpp:79-85 | when the victims are distinct and below the target zone, the idx-th victim ends dead in slot `count - k_size + idx` |
| ParticlePool.KillSwapsVacated | particle.hpp:79-85 | under the same condition, the record from each victim's target slot ends in the victim's slot |
| ParticlePool.KillSwapsUntouched | particle.hpp:79-85 | slots that are neither a processed victim nor a processed target keep their records |
| ParticlePool.KillLeavesVictimAlive | particle.hpp:65-93 | counterexample: two live records and `k = [1, 0]` leave the listed record of slot 0 in place and alive while the count drops to 0 |
| ParticlePool.KillSweepMisplaces | particle.hpp:65-93 | counterexample: with the sweep's ascending list `[0, 2]` over four live slots, a dead record is left in the new live prefix and a live one is pushed out |
| ParticlePool.KillZeroTwoOfFour | particle.hpp:79-85 | the kill kernel over four live slots and the list `[0, 2]`, in index order, leaves slot 3's record in slot 2 and slot 2's in slot 0, whatever the flags |
| ParticlePool.KillListFits | particle.hpp:69 | an ascending list of slots below `count` has at most `count` entries, so the size check does not fire on the lists main and update build |
| ParticlePool.Compact | particle.hpp:65-93 | corrected kill, victims largest first, each swapped with the last live slot; defined on any ascending list below the count |
| ParticlePool.CompactFrame | particle.hpp:65-93 | corrected kill never touches a slot at or past the old live count |
| ParticlePool.CompactKeepsOnlySurvivors | particle.hpp:65-93 | every slot of the new live prefix holds an unlisted record of the old prefix |
| ParticlePool.CompactKeepsEverySurvivor | particle.hpp:65-93 | every unlisted record of the old prefix is still in the new prefix |
| ParticlePool.CompactParksVictims | particle.hpp:65-93 | every slot the prefix gives up holds a listed record with its flag cleared |
| ParticlePool.CompactKeepsPayloads | particle.hpp:65-93 | corrected kill only moves records and clears flags |
| ParticlePool.CompactLeavesPrefixAlive | particle.hpp:65-93 | when every unlisted slot of the prefix is alive, the new prefix is all alive and the slots it gave up are all dead |
| ParticlePool.ScanMiss | particle.hpp:105 | on the consecutive run, an entry the scan steps over is below the live count |
| ParticlePool.ScanHitFront | particle.hpp:105-117 | a hit before the parked tail moves into the tail and keeps the scan invariant with the count one higher |
| ParticlePool.TailHitIsCount | particle.hpp:105-117 | a hit inside the parked tail is exactly the slot `m_countAlive` |
| ParticlePool.ScanHitTail | particle.hpp:105-117 | a hit inside the parked tail keeps the scan invariant with the count one higher |
| ParticlePool.ScanHit | particle.hpp:105-117 | on the consecutive run every hit lies in the run, the parking index `(w.size() - erased) - 1` does not underflow, and the invariant is kept |
| ParticlePool.ScanEnd | particle.hpp:103-119 | when the scan has passed the list, every slot of the run was revived |
| ParticlePool.Revived | particle.hpp:108-111 | a hit swaps the listed record into slot `m_countAlive` and sets its flag; nothing else moves |
| ParticlePool.ScanStep | particle.hpp:103-119 | one scan iteration either steps over an entry or counts a hit without moving; a hit after every entry is parked underflows |
| ParticlePool.ParkHit | particle.hpp:108-117 | a hit that can be parked revives the slot, raises the count, swaps the entry to `(w.size() - erased) - 1` and keeps the scan position |
| ParticlePool.Scan | particle.hpp:103-119 | the first loop of `wake` ends at the end of the list or at the underflow |
| ParticlePool.ScanGeneral | particle.hpp:97-121 | for any list that fits, the scan only moves records and sets flags, raises the count by one per hit, and leaves room for the entries it did not park |
| ParticlePool.ScanConsecutive | particle.hpp:103-121 | on the consecutive run `[c0, c0 + n)`, the scan never underflows, parks every entry, ends with count `c0 + n`, and leaves the run all alive and every other slot as it was |
| ParticlePool.ParticleSystem.constructor | particle.hpp:60-63 | `p_count` value-initialised records, none alive, count 0 |
| ParticlePool.ParticleSystem.Kill | particle.hpp:65-93 | `kill` as written: nothing on an empty pool or empty list, an error when the list outnumbers the live count, otherwise the kernel's swaps in order and the count drops by `k.size()`; records are never lost |
| ParticlePool.ParticleSystem.KillCompacting | particle.hpp:65-93 | corrected kill: the count drops by the list's length and the records become `Compact` of the old ones |
| ParticlePool.ParticleSystem.KillLast | particle.hpp:80-84 | one victim flagged dead and swapped with the last live slot, which leaves the prefix |
| ParticlePool.ParticleSystem.Wake | particle.hpp:95-143 | refused when `m_countAlive + w.size()` exceeds the pool, otherwise the count grows by `w.size()` and records are never lost; on a consecutive run just past the prefix the run is all alive and every other slot unchanged |
| ParticlePool.ParticleSystem.ScanRevive | particle.hpp:102-121 | the first loop of `wake` in place ends in the state `Scan` describes |
| ParticlePool.ParticleSystem.ReviveInto | particle.hpp:108-112 | one hit, in place: the records become `Revived` of the old ones and the count grows by one |
| ParticlePool.ParticleSystem.ReviveRest | particle.hpp:124-140 | the second kernel of `wake` grows the count by the remaining entries and keeps every record |
| Emitter.EndId | main.cpp:13-15 | `min(startId + maxNew, size - 1)`: never more than `maxNew` new slots, never the last slot of the pool |
| Emitter.BuildRun | main.cpp:17-23 | the index list built for `wake` is exactly the run `startId, ..., endId - 1` |
| Emitter.Emit | main.cpp:8-42 | nothing when the pool is full or the rate is 0; otherwise `wake` succeeds, the count becomes `endId`, `[startId, endId)` is all alive and no other slot changes |
| Emitter.DeadSlots | main.cpp:76-84 | the slots listed are exactly the dead ones, ascending |
| Emitter.CollectDeadSlots | main.cpp:74-91 | the sweep's list is `DeadSlots` of the live prefix and no longer than it |
| Emitter.SweepDeadAsWritten | main.cpp:74-93 | the sweep as the program runs it: `kill`'s size check never fires, the count drops by the number of dead slots and the array is the kill kernel's run over the dead list |
| Emitter.SweepMisplaces | main.cpp:74-93 | counterexample: four live slots with slots 0 and 2 dead give the dead list `[0, 2]`, and the sweep as written leaves the dead record in slot 0 of the new prefix and pushes a live one out to slot 2 |
| Emitter.SweepDead | main.cpp:74-93 | with the corrected kill: the array is `Compact` of the old one over the dead list, so the new prefix holds exactly the old live records; the count drops by the number of dead slots, the new prefix is all alive, the slots it gave up are dead, nothing past the old count moves and no record is lost |
| Updater.EndId | updater.hpp:47 | the count converted to `unsigned int` is below 2^32, at most the count, and equal to it when it fits |
| Updater.Advance | updater.hpp:61-108 | the kernel's work item never changes a record's `alive` flag |
| Updater.AdvanceAll | updater.hpp:61-108 | every record advanced by its own work item |
| Updater.ExpiredSlots | updater.hpp:115-169 | the slots listed are exactly those whose `time.x` is negative, ascending |
| Updater.Integrate | updater.hpp:58-109 | the kernel advances `[0, endId)` in place and leaves every other slot unchanged |
| Updater.CollectExpired | updater.hpp:113-171 | the host loop lists `ExpiredSlots` of `[0, endId)`, and `kill_count` equals the list's length, so the resize changes nothing |
| Updater.KillListWiden | updater.hpp:172 | a list below `endId` is a valid kill list for the live count |
| Updater.AdvanceAndCollect | updater.hpp:58-171 | the array becomes the advanced prefix followed by the untouched rest (no slot from `endId` on changes), and the list is the expired slots of the advanced prefix, a valid kill list for the live count |
| Updater.CompactLeavesNoExpired | updater.hpp:113-172 | compacting the expired slots of the live prefix out of it leaves no expired record in the new prefix |
| Updater.UpdateAsWritten | updater.hpp:38-174 | `update` as the program runs it: `kill`'s size check never fires, the count drops by the number of expired records and the array is the kill kernel's run over the expired list |
| Updater.UpdateKeepsExpiredAlive | updater.hpp:172 | counterexample: four live records with the ones in slots 0 and 2 expired give the list `[0, 2]`, and the kill as written leaves an expired record in slot 0, still flagged alive, while an unexpired one is pushed out to slot 2 |
| Updater.Update | updater.hpp:38-174 | with the corrected kill: the array is `Compact` of the advanced array over the expired list; the count drops by the number of expired records; when the count fits in 32 bits no record left live is expired; nothing past the old count moves |
| MyRandom.BitAnd | my_random.cpp:6 | `&` on naturals is at most either operand |
| MyRandom.BitAndLowMask | my_random.cpp:6 | masking with k low one-bits is reduction modulo 2^k |
| MyRandom.MaskIsMod31 | my_random.cpp:6 | `x & 0x7fffffff` is `x mod 2^31` |
| MyRandom.WrapThenMask | my_random.cpp:12 | 32-bit wrap-around followed by the 31-bit mask is reduction modulo 2^31 |
| MyRandom.LcgWraps | my_random.cpp:12 | both 32-bit wraps of `seed * 1103515245 + 12345` vanish under the mask |
| MyRandom.SeedLane | my_random.cpp:6 | one lane of `my_srand` is the seed modulo 2^31 |
| MyRandom.MySrand | my_random.cpp:4-8 | every lane of the seed reduced modulo 2^31 |
| MyRandom.RandLane | my_random.cpp:12-13 | one lane of `my_rand` is `(s * 1103515245 + 12345) mod 2^31`, non-negative as an `int` |
| MyRandom.MyRand | my_random.cpp:11-14 | every lane advanced by the LCG step, all non-negative |
| MyRandom.TimeSeed | my_random.cpp:24 | the seed lanes are `time`, `time * 1000`, `time * 2000`, `time * 3000`, each wrapped to 32 bits |
| MyRandom.RangeLane | my_random.cpp:24 | `r % (hi - lo + 1) + lo` lies in `[lo, hi]` |
| MyRandom.RandomRange | my_random.cpp:20-25 | every lane lies between the two bounds, whichever order they come in |
| MyRandom.RandomRangeOrderFree | my_random.cpp:21-23 | swapping the bounds gives the same draw |
| MyRandom.RandomRangeSingleton | my_random.cpp:20-25 | equal bounds pin every lane to that value |
| VectorCpu.Min | vector_cpu.hpp:106 | `std::min`: no larger than either size and equal to one of them |
| VectorCpu.Resized | vector_cpu.hpp:77 | `resize` keeps the prefix that fits and value-initialises the rest |
| VectorCpu.Lane | vector_cpu.hpp:64 | the thread that reaches index k is below the thread count and at most k |
| VectorCpu.LaneIsRemainder | vector_cpu.hpp:64 | that thread is `k % num_thread` |
| VectorCpu.LaneWindow | vector_cpu.hpp:64 | within one stride a thread visits one index only |
| VectorCpu.StridedMap | vector_cpu.hpp:61-72 | the threads together write every index below n exactly as the operation says; with no thread nothing is written |
| VectorCpu.StrideThread | vector_cpu.hpp:63-66 | thread i writes exactly the indices it visits and no other |
| VectorCpu.StrideStep | vector_cpu.hpp:64 | one step of a thread moves its written prefix one stride on |
| VectorCpu.CpuVector.constructor | vector_cpu.hpp:27-29 | n value-initialised elements and `hardware_concurrency()` threads |
| VectorCpu.CpuVector.Fill | vector_cpu.hpp:60-73 | every element becomes the value, the length is unchanged; with no thread nothing changes |
| VectorCpu.CpuVector.FillResized | vector_cpu.hpp:75-79 | the new length is `size` and every element the value |
| VectorCpu.CpuVector.FillWith | vector_cpu.hpp:81-94 | each element becomes `func(old element, index)` |
| VectorCpu.CpuVector.FillWithResized | vector_cpu.hpp:96-100 | resized to `size`, then each element becomes `func(element, index)` |
| VectorCpu.CpuVector.Zip | vector_cpu.hpp:103-215 | `a op b` has the shorter length and each element is `a[j] op b[j]`; the same holds for `==`, `!=`, `<`, `>`, `<=`, `>=` at 235-456 and `%` at 515-533 |
| VectorCpu.CpuVector.ZipScalar | vector_cpu.hpp:572-660 | `a op x` keeps the length and each element is `a[j] op x`; the same holds for the scalar comparisons at 254-453 |
| VectorCpu.CpuVector.Not | vector_cpu.hpp:217-234 | `!a`: 1 exactly where the element is 0 |
| VectorCpu.CpuVector.Complement | vector_cpu.hpp:752-769 | `~a`: `x + ~x == -1` for every element |
| VectorCpu.IfSingleThreaded | vector_cpu.hpp:796-802 | `func` is called at exactly the truthy indices, in ascending order |
| VectorCpu.IfParallel | vector_cpu.hpp:777-794 | with at least one thread, `func` is called at exactly the truthy indices, each once; with none, never |
| VectorCpu.IfThread | vector_cpu.hpp:783-787 | one thread calls `func` at exactly the truthy indices it visits |
| VectorSort.Insert | vector_cpu.hpp:868 | inserting into a sorted range gives a sorted range holding one more copy of the value |
| VectorSort.InsertionSort | vector_cpu.hpp:866-872 | the library sort's result is sorted and a permutation of its input |
| VectorSort.SortRange | vector_cpu.hpp:866-872 | `std::sort(low, high + 1)` sorts exactly `[low, high]` in place, keeps its values and moves nothing else |
| VectorSort.SwapIn | vector_cpu.hpp:901 | `std::swap` inside a range keeps the range's values |
| VectorSort.Partition | vector_cpu.hpp:878-905 | the partition around the middle element returns `lo <= p < hi`; everything in `[lo, p]` is no larger than anything in `(p, hi]`; values are kept and nothing outside moves |
| VectorSort.Halves | vector_cpu.hpp:907-922 | the ranges pushed after a partition lie inside the popped range, apart, and together hold every pair not split by p |
| VectorSort.HalvesLighter | vector_cpu.hpp:907-922 | the pushed ranges weigh less than the popped one, so the loop terminates |
| VectorSort.StartInv | vector_cpu.hpp:826-827 | the single range `[0, size - 1]` satisfies the stack invariant |
| VectorSort.DoneIsSorted | vector_cpu.hpp:849-851 | once no range is pending the copy is sorted |
| VectorSort.PoppedApart | vector_cpu.hpp:854-856 | the ranges left under a popped one lie apart from it |
| VectorSort.Settle | vector_cpu.hpp:862-928 | handling a popped range restores the stack invariant, keeps the values and lightens the stack |
| VectorSort.SortSettles | vector_cpu.hpp:866-872 | a short range sorted in place is settled with nothing pushed |
| VectorSort.PartitionSettles | vector_cpu.hpp:874-922 | a partitioned range is settled with its halves pushed |
| VectorSort.RunTask | vector_cpu.hpp:862-922 | one popped range is either sorted (fewer than 1000 gaps) or partitioned and split |
| VectorSort.SortTask | vector_cpu.hpp:866-872 | a short range handed to the library sort is settled |
| VectorSort.PartitionTask | vector_cpu.hpp:874-922 | a long range partitioned and split is settled |
| VectorSort.ProcessTasks | vector_cpu.hpp:836-930 | the workers' loop ends with the copy sorted and holding the same values |
| VectorSort.Sort | vector_cpu.hpp:806-948 | `Lp_sort` keeps the vector's values; with at least one worker it leaves the vector sorted; with none, or at most one element, the vector is unchanged |
| VectorGpu.GpuApply | vector_gpu.hpp:256-262 | one work item: `/` and `%` by 0 give 0, every other case is the C++ operator |
| VectorGpu.ZipSpec | vector_gpu.hpp:143-172 | `a op b` has the shorter operand's length |
| VectorGpu.GpuVector.constructor | vector_gpu.hpp:34-43 | n value-initialised elements |
| VectorGpu.GpuVector.Fill | vector_gpu.hpp:90-108 | every element becomes the value; the length does not change |
| VectorGpu.GpuVector.FillResized | vector_gpu.hpp:110-113 | the new length is `size` and every element the value |
| VectorGpu.GpuVector.FillWith | vector_gpu.hpp:115-135 | each element becomes `func(old element, index)` |
| VectorGpu.GpuVector.FillWithResized | vector_gpu.hpp:137-141 | resized to `size`, then each element becomes `func(element, index)` |
| VectorGpu.GpuVector.Zip | vector_gpu.hpp:143-306 | `a op b` is `ZipSpec`; `/` and `%` give 0 wherever the divisor is 0; likewise the comparisons and `&&`, `\|\|` at 1098-1345 |
| VectorGpu.GpuVector.ZipScalar | vector_gpu.hpp:309-457 | `a op x` is the vector zipped with x repeated; `/ 0` and `% 0` give all zeros; likewise the scalar comparisons and `&&`, `\|\|` at 601-824 |
| VectorGpu.GpuVector.Assign | vector_gpu.hpp:826-964 | `+=`, `-=`, `*=`, `/=`, `%=`: an empty vector is left alone; a size mismatch is an error before anything changes; otherwise the vector becomes `a op b` |
| VectorGpu.GpuVector.Increment | vector_gpu.hpp:1500-1521 | `++a`: every element grows by one, in place |
| VectorGpu.GpuVector.Decrement | vector_gpu.hpp:1522-1543 | `--a`: every element shrinks by one, in place |
| VectorGpu.GpuVector.PostIncrement | vector_gpu.hpp:1544-1565 | `a++` increments in place and hands back the incremented vector itself |
| VectorGpu.GpuVector.PostDecrement | vector_gpu.hpp:1566-1587 | `a--` decrements in place and hands back the decremented vector itself |
| VectorGpu.GpuVector.Complement | vector_gpu.hpp:1588-1611 | `~a`: `x + ~x == -1` for every element |
| VectorGpu.GpuVector.Not | vector_gpu.hpp:1612-1634 | `!a`: 1 exactly where the element is 0, 0 exactly where it is not |
| VectorGpu.IfParallel | vector_gpu.hpp:1640-1667 | `func` is applied to exactly the truthy elements; the others are unchanged |
| VectorGpu.IfParallelFlags | vector_gpu.hpp:1671-1691 | on a flag vector: nothing when empty; otherwise, with at least one thread, `func` is called once at every set flag |

## Left out

- Floating point: positions, velocities, colours and times are `real` payload. The physics of the update kernel (acceleration, floor bounce, colour mix) is an abstract step function. Only the sign of `time.x` is observed.
- `random_vec`, `my_randf`, `random_rangef` and the `Gen` generators of generator.hpp are float-valued and not part of this model. `emit`'s call to `gen.generate` is left out, so the revived records keep their old payloads.
- `emit`'s `(size_t)(dt * rate)` is a float conversion. It is the parameter `maxNew`.
- SYCL plumbing is not modelled: queues, buffers, accessors, the GPU-to-CPU fallback in the constructors, and the `is_device_copyable` trait. Each kernel runs as a sequential loop over its work items.
- Concurrency is sequentialised. This covers the CPU vector's threads, `Lp_sort`'s worker pool (mutex, atomic counter, condition variable) and the work items of the kill and wake kernels. Where work items of `kill` or `wake` touch the same slot, the model fixes one order: index order. A real run may interleave them differently.
- `Lp_sort`'s comparator is `<` on integers.
- `Lp_sort`'s pool of `hardware_concurrency()` workers becomes one loop when there is at least one worker. The order in which ranges are popped does not affect the result.
- Element width: elements are unbounded integers, so overflow of `T` in `+`, `-`, `*`, `++` and `--` is not modelled.
- `size_t` arithmetic is unbounded except where it matters: the kill target (`SwapTarget`), the wake parking index (the `IndexUnderflow` outcome) and the `unsigned int` end index of `update` (`Updater.EndId`).
- Bitwise operators (`&`, `|`, `^`, `<<`, `>>` and their compound forms) on both vectors: not modelled, because they need a fixed element width. The complement `~` is modelled on two's-complement integers.
- The copy constructors and assignment operators of the vectors and of `Particle` are not modelled. They copy their operands.
- VectorCpu.CpuVector.Zip: division and remainder by a zero element are undefined behaviour in C++. The method requires nonzero divisors when at least one thread runs.
- VectorCpu.CpuVector.ZipScalar: also accepts `&&` and `||`, which the CPU vector has only in their vector-vector forms.
- ParticlePool.ParticleSystem.Wake: for lists other than the consecutive run `emit` builds, the contract states only the count, the refusal and the kept records. It does not say which slots end up alive. Such lists can leave dead records inside the live prefix or underflow the parking index.
- ParticlePool.ParticleSystem.ReviveRest: states the count and the kept records, not where each revived record lands.
- Emitter.SweepDead and Updater.Update call the corrected kill (`KillCompacting`); Emitter.SweepDeadAsWritten and Updater.UpdateAsWritten call the kill as written. See Findings.
- Which array the kernels write: in the source the SYCL buffer `buf` is built over `m_particle.data()` in the constructor's initialiser list, before `m_particle.resize(p_count)`, so the kill kernel and the second kernel of `wake` write through a buffer that need not alias the resized `m_particle` that `main` and `update` read. The model assumes they write `m_particle` itself: it has one particle array. Every kernel result, and every row of Findings, depends on that assumption.
- Rendering, input handling and the window loop of main.cpp are not part of this model.

## Findings

| source | as written | input that shows it | evidently intended | confidence | as-written member | corrected member |
|---|---|---|---|---|---|---|
| particle.hpp:79-85 | the idx-th victim is swapped with slot `count - k_size + idx`, whatever slot the victim is in | two live records, `kill({1, 0})`: with the work items in index order, slot 0's record is listed but stays in slot 0, alive, while the count drops to 0 (in reverse order the listed record of slot 1 stays alive outside the prefix) | every listed record leaves the live prefix with its flag cleared, and every unlisted live record stays in it | not executed | ParticlePool.KillLeavesVictimAlive | ParticlePool.ParticleSystem.KillCompacting |
| main.cpp:74-92 | the sweep passes the ascending list of dead slots to that `kill` | four live slots, slots 0 and 2 dead: with the two work items run in index order, or in lock-step, slot 0 of the new prefix `[0, 2)` holds the dead record and a live record is pushed out to slot 2 (run in reverse order they happen to compact correctly) | after the sweep the live prefix holds exactly the live records | not executed | Emitter.SweepMisplaces | Emitter.SweepDead |
| updater.hpp:172 | `update` passes the ascending list of expired slots to that `kill` | four live records, those in slots 0 and 2 expired: with the work items in index order, slot 0 of the new prefix `[0, 2)` holds an expired record still flagged alive, and an unexpired one is pushed out to slot 2 | after `update` no record in the live prefix is expired, and every unexpired live record stays in it | not executed | Updater.UpdateKeepsExpiredAlive | Updater.Update |
