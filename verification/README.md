# Verified models of Pin kit components

Dafny models of seven small, self-contained components of the Pin 3.11 kit, with proofs of what they
promise. `dafny verify dfyconfig.toml` checks everything.

| files | component |
|---|---|
| `Bits`, `CacheGeometry`, `CacheSets`, `CacheModel`, `Cache` | the set-associative cache simulator of `pin_cache.H` |
| `SetTraces`, `CacheTraces`, `WorkingSets`, `CacheComparisons` | theorems about the simulator over whole runs |
| `ElementWalk`, `IdEncoding`, `ResultFilter` | the tree walk, the id encoding and the row filter of the search page |
| `DetachHandshake`, `SignalHandshake` | the thread protocols of two attach/detach test programs |
| `Compressor` | dense renaming of keys and the vector of counters beside it |
| `CpuSet` | the CPU set macros |
| `PathSearch` | the PATH search of the launcher |
| `Prelude` | optional values, front and last of a sequence |

## How the models are built

**Cache.** A set means a FIFO queue of tags, newest first. Classes `RoundRobin` (array and rotating index)
and `DirectMapped` (one tag) are proved to implement it; class `Cache` is proved to do to the row of queues
and to the four counters exactly what `CacheModel.Step` does. The theorems about runs are about `Run`, the
repetition of `Step`, for every trace of accesses (each a list of lines), flushes and resets. Addresses are
words of `addressBits` bits (32 or 64 in Pin); sizes and geometry are 32-bit words with wrap-around. Bit masks
are applied with a bitwise AND on binary digits, so that they are proved, not assumed, to be remainders.

Tag 0 stands both for line 0 and for an empty way, as in the source: line 0 hits in a cold cache, and
`HitExact` says precisely when.

**Threads.** Each protocol is a step function per thread; a run is a schedule. A thread that cannot move
leaves the state as it is, so the schedules are all the interleavings. Mutexes are binary semaphores.
The first program waits in loops that give the mutex up and take it back. It ends in every strongly fair
run and in no other (`FinishesExactly`); that both threads keep getting turns is not enough
(`WeakFairnessIsNotEnough`).

The loop bounds of the two programs, 100 and 10, are generalised to any number. The theorems hold for every
bound, with two exceptions that need a bound of at least one: the counters of `detach_syscall_app.cpp` agree at
the end (`CountersAgreeExactly`), and `change_mask_app.cpp` is free of deadlocks and can always end
(`DeadlockFreeExactly`, `EveryRunCanFinishExactly`).

**Search page.** Strings are sequences of UTF-16 code units; an element is its path of child indices.

**Launcher.** A failed assertion (`Aborted`) and a write past the end of a buffer (`Overrun`) are outcomes, so
the model needs no precondition on PATH.

## Where the code does not do what one would expect

* **Access near the top of the address space.** The loop of `CACHE::Access` compares with a wrapped end.
  `LinesExactly` says which accesses touch just the lines of their bytes and `EmptyAccessExactly` does so for
  empty ones; the others fail in one of three ways. The loop never ends if the end lies strictly inside the
  topmost line (`TerminatesExact`, `LoadInTopLineNeverReturns`); `Cache.Access` requires that it does end. An
  access that starts below the topmost line and reaches the end of the space touches its first line only
  (`LoadToTheEndTouchesOneLine`). An empty access at the start of the topmost line touches every line
  (`EmptyLoadTouchesEveryLine`).
* **Degenerate geometries.** A cache smaller than one block passes both assertions of the constructor with no
  set (`AcceptedGeometry`, `AcceptedWithoutSets`). The ways exceed the cache size exactly when the 32-bit
  product wraps (`CapacityExact`, `AcceptedBeyondCapacity`), and then more lines can be resident than fit
  (`ResidentFitsExactly`, `ResidentBeyondCapacity`).
* **`Flush`** also flushes the set above the last one in use. Its loop starts outside of the array exactly
  when `NumSets() == MAX_SETS`, which the constructor accepts (`Cache.Flush`).
* **Counters.** The comment on `COMPRESSOR_COUNTER` says that the array contains as many entries as have been
  mapped. `reserve` only makes room, so the checked access works for all mapped keys exactly while there are no
  more of them than initial elements (`CheckedAccessExactly`, `SecondKeyIsRefused`); with an initial size of
  zero the capacity never grows (`CapacityExactly`, `NoRoomForFirstKey`). The code is followed.
* **`convertToId`** is a prefix code for up to 256 code units and not for more (`PrefixCodeExactly`,
  `FirstCollision`); `CollidesExactly` says which units from 256 on share their id with another string. The
  filter may then show rows that do not start with the query (`FiltersExactly`, `WideNameIsShown`).
* **`__CPU_OP_S`** leaves a partial last word alone (`OperatesOnAllExactly`, `PartialWordIsLeft`).
* **PATH.** An empty component aborts the launcher, unless a component before it passes, and an overlong one
  overruns a buffer (`AbortsExactly`, `OverrunsExactly`, `LeadingSeparatorAborts`).

## Model

| member | source | states |
|---|---|---|
| Bits.IsPower2Exact | pin-3.11/source/include/pin/pin_cache.H:29-32 | the bit trick accepts exactly the powers of two and zero, with the wrapped n - 1 |
| Bits.FloorLog2 | pin-3.11/source/include/pin/pin_cache.H:39-52 | -1 for zero, otherwise the p with 2^p <= n < 2^(p+1), for every 32-bit n |
| Bits.CeilLog2 | pin-3.11/source/include/pin/pin_cache.H:59-62 | the least c with n <= 2^c for n >= 1, and 32 for zero |
| CacheGeometry.AcceptedGeometry | pin-3.11/source/include/pin/pin_cache.H:272-282 | accepted geometries have power-of-two lines and sets; there is no set at all exactly when the block exceeds the cache |
| CacheGeometry.SetsUseCache | pin-3.11/source/include/pin/pin_cache.H:272-282 | the number of sets is the cache size divided by the 32-bit product of associativity and line size, and by the product itself when that does not wrap |
| CacheGeometry.CapacityExact | pin-3.11/source/include/pin/pin_cache.H:272-282 | all ways together fit in the cache exactly when associativity times line size does not wrap |
| CacheGeometry.TerminatesExact | pin-3.11/source/include/pin/pin_cache.H:384-409 | some iteration ends the access loop if and only if the wrapped end is not strictly inside the topmost line |
| CacheGeometry.LoopFollowsLines | pin-3.11/source/include/pin/pin_cache.H:389-409 | the k-th iteration is in the k-th line of Lines and the loop test fails exactly after the last |
| CacheGeometry.LinesExactly | pin-3.11/source/include/pin/pin_cache.H:369-409 | for every nonempty access: the loop ends and touches each line of its bytes once, in order, and no other, if and only if the access ends at or below the start of the topmost line, or starts in that line and, after the end of the space, ends before it again |
| CacheGeometry.EmptyAccessExactly | pin-3.11/source/include/pin/pin_cache.H:389-409 | an access of size zero touches the line of its address and only it if and only if that is not the topmost line |
| CacheGeometry.LinesOfWrappingAccess | pin-3.11/source/include/pin/pin_cache.H:384-409 | an access over the end of the address space goes on from line 0 only if it starts in the topmost line |
| CacheGeometry.LinesOfOverrun | pin-3.11/source/include/pin/pin_cache.H:384-409 | one that starts below the topmost line and reaches the end touches its first line only |
| CacheGeometry.LoadInTopLineNeverReturns | pin-3.11/source/include/pin/pin_cache.H:384-409 | loading the first four bytes of the topmost line, with 32-bit addresses: no iteration ends the loop |
| CacheGeometry.LoadToTheEndTouchesOneLine | pin-3.11/source/include/pin/pin_cache.H:384-409 | loading the last 128 bytes, which are two lines, touches one |
| CacheGeometry.EmptyLoadTouchesEveryLine | pin-3.11/source/include/pin/pin_cache.H:384-409 | an empty load at the start of the topmost line touches all 2^26 lines |
| CacheGeometry.AcceptedWithoutSets | pin-3.11/source/include/pin/pin_cache.H:272-282 | a block of 64 bytes in a cache of 32 passes both assertions, with no set |
| CacheGeometry.AcceptedBeyondCapacity | pin-3.11/source/include/pin/pin_cache.H:272-282 | three ways of 2^31 bytes in a cache of 2^31 pass both assertions |
| CacheGeometry.SetsDivideLines | pin-3.11/source/include/pin/pin_cache.H:272-282 | for every accepted geometry the number of sets divides the number of lines of the address space |
| CacheSets.RoundRobin.constructor | pin-3.11/source/include/pin/pin_cache.H:116-126 | a new set is the cold queue |
| CacheSets.RoundRobin.SetAssociativity | pin-3.11/source/include/pin/pin_cache.H:128-133 | narrows the set to its first ways without clearing them and restarts the replace index |
| CacheSets.RoundRobin.Find | pin-3.11/source/include/pin/pin_cache.H:136-149 | found exactly if the tag is in the queue |
| CacheSets.RoundRobin.RotatedReplace | pin-3.11/source/include/pin/pin_cache.H:151-159 | writing at the rotating index and moving it down is pushing onto the FIFO queue |
| CacheSets.RoundRobin.Replace | pin-3.11/source/include/pin/pin_cache.H:151-159 | the new tag comes in at the front of the queue and the oldest falls out |
| CacheSets.RoundRobin.Flush | pin-3.11/source/include/pin/pin_cache.H:160-167 | the queue is cold again, with as many ways |
| CacheSets.DirectMapped.Find | pin-3.11/source/include/pin/pin_cache.H:99 | found exactly if the tag is in the one-element queue |
| CacheSets.DirectMapped.Replace | pin-3.11/source/include/pin/pin_cache.H:100 | the same push onto the queue as round robin, with one way |
| CacheSets.DirectMapped.Flush | pin-3.11/source/include/pin/pin_cache.H:101 | the queue is cold again |
| CacheClass.Cache.constructor | pin-3.11/source/include/pin/pin_cache.H:272-289 | every geometry that passes the assertions is constructed with zero counters; it gives a valid, cold cache with exact shift and mask exactly if it has a set |
| CacheClass.MakeRow | pin-3.11/source/include/pin/pin_cache.H:357-366 | the sets in use, if any, are cold and have the requested associativity |
| CacheClass.Cache.SplitAddress | pin-3.11/source/include/pin/pin_cache.H:246-250 | shift and mask give line number and line number modulo number of sets |
| CacheClass.Cache.SplitAddressLine | pin-3.11/source/include/pin/pin_cache.H:252-257 | lossless: line size times tag plus offset is the address, with offset below line size |
| CacheClass.Cache.SumAccess | pin-3.11/source/include/pin/pin_cache.H:212-222 | the sum of the loads and stores of one column of the counter array |
| CacheClass.Cache.Accesses | pin-3.11/source/include/pin/pin_cache.H:238-241 | hits plus misses is the sum of all four counters |
| CacheClass.Cache.AccessSingleLine | pin-3.11/source/include/pin/pin_cache.H:420-440 | does one single-line access event to the state and returns its hit |
| CacheClass.Cache.WalkLines | pin-3.11/source/include/pin/pin_cache.H:384-409 | the loop touches Lines in order and returns whether all of them hit |
| CacheClass.Cache.Access | pin-3.11/source/include/pin/pin_cache.H:382-414 | does one access event over Lines to the state, counts it once, returns the conjunction of the hits |
| CacheClass.Cache.Flush | pin-3.11/source/include/pin/pin_cache.H:445-452 | all sets in use are cold, the access counters unchanged, one more flush counted; the loop starts outside of the array exactly if all of its sets are in use |
| CacheClass.Cache.ResetStats | pin-3.11/source/include/pin/pin_cache.H:455-463 | the four access counters are zero, all tags unchanged, one more reset counted |
| SetTraces.RunIsPushed | pin-3.11/source/include/pin/pin_cache.H:116-167 | from any queue, a run leaves the newest allocated tags on top of what was there before or of a flushed set |
| SetTraces.RunIsWindow | pin-3.11/source/include/pin/pin_cache.H:116-167 | after any run the queue is the newest tags allocated since the start or the last flush, over zeros |
| SetTraces.FoundExact | pin-3.11/source/include/pin/pin_cache.H:136-167 | a tag is found if and only if it is among the last `ways` allocated; 0 also while a way is unwritten |
| SetTraces.SurvivesExact | pin-3.11/source/include/pin/pin_cache.H:151-159 | from any queue, an allocated tag is found after any further run if and only if fewer than `ways` tags were allocated since, with no flush, or it is among the last `ways` of them again |
| SetTraces.RoundRobinIsConservative | pin-3.11/source/include/pin/pin_cache.H:136-159 | from any state, at most `ways` distinct tags miss at most once each; the queue afterwards is determined |
| SetTraces.MissesAtMostWays | pin-3.11/source/include/pin/pin_cache.H:425-435 | at most `ways` misses in such a stretch, and a tag that missed once hits from then on |
| SetTraces.BoundIsSharp | pin-3.11/source/include/pin/pin_cache.H:136-159 | with one more distinct tag every access can miss |
| CacheTraces.AccessIsSingles | pin-3.11/source/include/pin/pin_cache.H:382-440 | a multi-line access leaves the tags of its single-line accesses and hits exactly if each of them does, but counts once |
| CacheTraces.AccessesCountCalls | pin-3.11/source/include/pin/pin_cache.H:411-463 | the access total is the number of calls since the last reset, over all runs |
| CacheTraces.CountersExact | pin-3.11/source/include/pin/pin_cache.H:411-463 | over all runs each of the four counters is the number of accesses of its kind since the last reset of which all lines hit, or not all |
| CacheTraces.FlushesAndResetsCounted | pin-3.11/source/include/pin/pin_cache.H:445-463 | over all runs the flush and reset counters have grown by the number of flushes and of resets |
| CacheTraces.SetsAreIndependent | pin-3.11/source/include/pin/pin_cache.H:394-405 | after any run each set depends only on the subsequence of operations that map to it |
| CacheTraces.HitExact | pin-3.11/source/include/pin/pin_cache.H:394-435 | over all runs from cold, a line hits if and only if it is among the last `ways` allocated in its set since the last flush (or is line 0 in a set not yet full) |
| CacheTraces.ReachableConsistent | pin-3.11/source/include/pin/pin_cache.H:398-405 | in every reachable state nonzero tags sit in the set of their index bits and are distinct within a set |
| WorkingSets.ResidentFitsExactly | pin-3.11/source/include/pin/pin_cache.H:272-282 | resident lines times line size is at most the cache size in every reachable state if and only if associativity times line size does not wrap, or the address space has too few lines to exceed it |
| WorkingSets.ResidentBeyondCapacity | pin-3.11/source/include/pin/pin_cache.H:272-282 | with three wrapped ways of 2^31 bytes more than the cache size can be resident |
| WorkingSets.WorkingSetMissesOnce | pin-3.11/source/include/pin/pin_cache.H:136-159 | from any state of the whole cache, loads that need no more lines of any set than it has ways miss each distinct line at most once, in any order |
| WorkingSets.BlockMissesOnce | pin-3.11/source/include/pin/pin_cache.H:382-440 | so do loads from any block of at most NumSets() * associativity consecutive lines |
| CacheComparisons.StoresDoNotInterfere | pin-3.11/source/include/pin/pin_cache.H:401-405 | without store allocation, deleting all stores of any trace changes no tag, load result or load counter |
| CacheComparisons.AccessedLineHits | pin-3.11/source/include/pin/pin_cache.H:398-405 | after a load, and under STORE_ALLOCATE after a store too, the line accessed last hits |
| CacheComparisons.StoresAllocateLikeLoads | pin-3.11/source/include/pin/pin_cache.H:398-405 | under STORE_ALLOCATE any trace leaves the tags that it leaves with loads in place of its stores |
| CacheComparisons.DirectTouch | pin-3.11/source/include/pin/pin_cache.H:88-102 | a direct-mapped set holds exactly the line allocated in it last |
| CacheComparisons.InclusionOverRuns | pin-3.11/source/include/pin/pin_cache.H:382-463 | inclusion, equal access totals and no more misses are kept by every event, for set counts where one divides the other |
| CacheComparisons.BiggerDirectMappedIsBetter | pin-3.11/source/include/pin/pin_cache.H:88-102 | for accepted geometries a direct-mapped cache that is at least as big hits whenever the smaller one does, on every trace |
| CacheComparisons.RepeatedLoadHits | pin-3.11/source/include/pin/pin_cache.H:382-414 | a load access of at most NumSets() lines, wrapping or not, hits when repeated at once and changes no tag |
| CacheComparisons.RepeatedLoadHitsExactly | pin-3.11/source/include/pin/pin_cache.H:382-414 | for direct-mapped sets the repeated access hits if and only if it has at most NumSets() lines |
| ElementWalk.FindInIsFirst | pin-3.11/doc/html/search/search.js:445-479 | recursive search gives the first qualifying element in document order, and nothing exactly if there is none |
| ElementWalk.QualifiesExactly | pin-3.11/doc/html/search/search.js:452-462 | the elements it looks for are those with node name DIV and class SRChildren all of whose ancestors below the root are DIVs |
| ElementWalk.FindChildElement | pin-3.11/doc/html/search/search.js:445-479 | the stackless walk terminates and returns what the recursive search returns |
| ElementWalk.FindFirstResultList | pin-3.11/doc/html/search/search.js:445-479 | the walk returns the first SRChildren DIV reached through DIVs only, or nothing if none exists |
| IdEncoding.ConvertToId | pin-3.11/doc/html/search/search.js:32-53 | the loop computes the encoding that the lemmas are about |
| IdEncoding.LettersAndDigitsStay | pin-3.11/doc/html/search/search.js:39-42 | strings of lower-case letters and digits are their own ids |
| IdEncoding.OthersAreEscaped | pin-3.11/doc/html/search/search.js:43-50 | any other unit becomes an underscore and its hexadecimal digits, with a zero in front of a single one |
| IdEncoding.HexExact | pin-3.11/doc/html/search/search.js:45-49 | these are lower-case digits of the value of the unit, without leading zero |
| IdEncoding.EncodeConcat | pin-3.11/doc/html/search/search.js:36-51 | the id of two strings put together is that of the one and then of the other |
| IdEncoding.DecodeEncode | pin-3.11/doc/html/search/search.js:32-53 | every string of units below 256 is recovered from its id |
| IdEncoding.EncodeInjective | pin-3.11/doc/html/search/search.js:32-53 | equal ids come from equal strings below 256 |
| IdEncoding.PrefixExact | pin-3.11/doc/html/search/search.js:32-53 | one id is a prefix of another if and only if the strings are |
| IdEncoding.PrefixAlways | pin-3.11/doc/html/search/search.js:32-53 | the id of a prefix is a prefix of the id, for all code units |
| IdEncoding.PrefixCodeExactly | pin-3.11/doc/html/search/search.js:32-53 | the ids of the strings over an alphabet are injective, and a prefix code, if and only if the alphabet has at most 256 units |
| IdEncoding.CollidesExactly | pin-3.11/doc/html/search/search.js:32-53 | a unit from 256 on shares its id with some other string if and only if the unit without its last hexadecimal digit is not a lower-case letter or digit |
| IdEncoding.CollidesWithNarrowExactly | pin-3.11/doc/html/search/search.js:32-53 | it does so with a string of units below 256 if and only if the unit of its first two digits is not one |
| IdEncoding.FirstCollision | pin-3.11/doc/html/search/search.js:32-53 | U+0100 and U+0010 followed by 0 have the same id |
| IdEncoding.WideCollision | pin-3.11/doc/html/search/search.js:32-53 | U+3030 and U+0303 followed by 0 have the same id |
| ResultFilter.SearchResults.Search | pin-3.11/doc/html/search/search.js:511-551 | sets the display of a row of class SRResult to "block" if the encoded query is a prefix of its name and to "none" if not, leaves other rows, and stores the number of matches |
| ResultFilter.NormalisedExactly | pin-3.11/doc/html/search/search.js:511-513 | the query loses the spaces around it and, below 256, each capital letter becomes the small one and every other unit stays |
| ResultFilter.Trimmed | pin-3.11/doc/html/search/search.js:511-512 | every query is a text without spaces at its ends between spaces |
| ResultFilter.MatchNameExactly | pin-3.11/doc/html/search/search.js:525-526 | an id loses "sr", digits and an underscore in front, in either case, and is otherwise only lower-cased |
| ResultFilter.RowIdGivesName | pin-3.11/doc/html/search/search.js:525-526 | lower-casing and stripping the row number of a generated id gives the encoded name |
| ResultFilter.ShownIfPrefix | pin-3.11/doc/html/search/search.js:511-529 | a generated row is shown if its name starts with the normalised query, for all code units |
| ResultFilter.FiltersExactly | pin-3.11/doc/html/search/search.js:511-529 | over an alphabet no other rows are shown if and only if it has at most 256 units |
| ResultFilter.WideNameIsShown | pin-3.11/doc/html/search/search.js:511-529 | the query U+0010 followed by 0 shows the row of U+0100 |
| DetachHandshake.StepKeepsInvariant | pin-3.11/source/tools/AttachDetach/detach_syscall_app.cpp:33-84 | every step of either thread keeps the lock and counter invariant |
| DetachHandshake.CountersStayClose | pin-3.11/source/tools/AttachDetach/detach_syscall_app.cpp:35-79 | in every interleaving second <= main + 1 and main <= max(second, 1) |
| DetachHandshake.UnlocksOnlyLocked | pin-3.11/source/tools/AttachDetach/detach_syscall_app.cpp:38-77 | the mutex is never unlocked while free, and the two threads never compete to unlock it |
| DetachHandshake.CountersAtExit | pin-3.11/source/tools/AttachDetach/detach_syscall_app.cpp:51-79 | once shouldExit is set both counters equal the bound (a zero bound leaves main at most 1) |
| DetachHandshake.CountersAgreeExactly | pin-3.11/source/tools/AttachDetach/detach_syscall_app.cpp:35-79 | at the end the counters agree if and only if the bound is at least one |
| DetachHandshake.NoDeadlock | pin-3.11/source/tools/AttachDetach/detach_syscall_app.cpp:33-84 | in every reachable unfinished state some thread can move |
| DetachHandshake.EveryRunCanFinish | pin-3.11/source/tools/AttachDetach/detach_syscall_app.cpp:33-84 | from every reachable state some continuation ends both threads |
| DetachHandshake.FairRunsFinish | pin-3.11/source/tools/AttachDetach/detach_syscall_app.cpp:33-84 | every infinite run in which a thread that can move again and again does move ends both threads, with the counters as promised |
| DetachHandshake.FinishesExactly | pin-3.11/source/tools/AttachDetach/detach_syscall_app.cpp:33-84 | an infinite run ends both threads if and only if it is strongly fair |
| DetachHandshake.WeakFairnessIsNotEnough | pin-3.11/source/tools/AttachDetach/detach_syscall_app.cpp:71-76 | main can take the mutex back for ever: a run with endless turns for both threads that never ends |
| SignalHandshake.StepKeepsInvariant | pin-3.11/source/tools/AttachDetach/change_mask_app.cpp:115-196 | every step of main, sender or receiver keeps the turn and round invariant |
| SignalHandshake.OneTurn | pin-3.11/source/tools/AttachDetach/change_mask_app.cpp:115-196 | exactly one of the two mutexes and two rounds has the turn; the receiver's rounds lead by at most one |
| SignalHandshake.NoRace | pin-3.11/source/tools/AttachDetach/change_mask_app.cpp:152-186 | the sender never reads iteration while the receiver may write it |
| SignalHandshake.UnlocksOnlyLocked | pin-3.11/source/tools/AttachDetach/change_mask_app.cpp:162-194 | neither mutex is unlocked while free |
| SignalHandshake.IterationAtEnd | pin-3.11/source/tools/AttachDetach/change_mask_app.cpp:115-164 | iteration never passes the bound and equals it when the receiver ends, after at least as many rounds |
| SignalHandshake.CountersExact | pin-3.11/source/tools/AttachDetach/change_mask_app.cpp:117-196 | in every run iteration is the number of receiver rounds in which a signal came, and the round counts are the numbers of unlocks |
| SignalHandshake.ToolIsAwaitedOnce | pin-3.11/source/tools/AttachDetach/change_mask_app.cpp:186-191 | in every run the sender waits for the tool once, from when it first sees an iteration of 2 until the tool is ready |
| SignalHandshake.DeadlockFreeExactly | pin-3.11/source/tools/AttachDetach/change_mask_app.cpp:174-268 | no reachable deadlock if and only if the receiver has at least one round |
| SignalHandshake.EveryRunCanFinishExactly | pin-3.11/source/tools/AttachDetach/change_mask_app.cpp:115-268 | from every reachable state some continuation ends all three threads if and only if the receiver has at least one round |
| Renaming.StreamIsStable | pin-3.11/source/include/pin/pin_profile.H:68-85 | every occurrence of a key gets the same index, its wrapped first-seen rank |
| Renaming.IndicesAreDense | pin-3.11/source/include/pin/pin_profile.H:68-85 | without wrap every index below the number of distinct keys is used |
| Renaming.InjectiveExactly | pin-3.11/source/include/pin/pin_profile.H:68-85 | distinct keys get distinct indices if and only if there are no more keys than index values |
| Renaming.CanonicalRenaming | pin-3.11/source/include/pin/pin_profile.H:68-85 | equal patterns give equal index streams, and without wrap equal index streams have equal patterns |
| Renaming.CapacityKeepsAhead | pin-3.11/source/include/pin/pin_profile.H:158-170 | capacity stays above every mapped index plus one, is the initial size times a power of two, and at most the initial size or twice the keys |
| Renaming.CapacityExactly | pin-3.11/source/include/pin/pin_profile.H:158-170 | capacity keeps ahead if and only if the initial size is not zero |
| Renaming.CheckedAccessExactly | pin-3.11/source/include/pin/pin_profile.H:89-95 | the documented guarantee: all mapped indices are elements exactly while there are no more keys than initial elements |
| CompressorClasses.Compressor.Map | pin-3.11/source/include/pin/pin_profile.H:68-85 | extends the stream by the key, keeps map and next index in step with it, returns the index of the stream |
| CompressorClasses.CompressorCounter.Map | pin-3.11/source/include/pin/pin_profile.H:158-170 | the same index, with the capacity grown as the stream demands |
| CompressorClasses.CompressorCounter.At | pin-3.11/source/include/pin/pin_profile.H:175 | the checked access succeeds exactly below the initial size |
| CompressorClasses.NoRoomForFirstKey | pin-3.11/source/include/pin/pin_profile.H:158-170 | with an initial size of zero the first key is mapped and the capacity stays zero |
| CompressorClasses.SecondKeyIsRefused | pin-3.11/source/include/pin/pin_profile.H:89-175 | with an initial size of one the second key is mapped and its checked access refused |
| CpuSet.SetCpu | pin-3.11/extras/crt/include/sched.h:107-112 | adds exactly the one CPU if it is in range, else changes nothing |
| CpuSet.ClearCpu | pin-3.11/extras/crt/include/sched.h:114-119 | removes exactly the one CPU if it is in range, else changes nothing |
| CpuSet.IsSetExact | pin-3.11/extras/crt/include/sched.h:121-127 | the masked word is nonzero exactly if the CPU is in range and a member |
| CpuSet.EqualExact | pin-3.11/extras/crt/include/sched.h:129 | equal bytes mean equal membership of all CPUs in range, for every size |
| CpuSet.Operate | pin-3.11/extras/crt/include/sched.h:135-143 | the word loop combines the old words of the sources in whole words and leaves the rest, aliased or not |
| CpuSet.OperatedMember | pin-3.11/extras/crt/include/sched.h:135-143 | a CPU of a whole word is a member afterwards exactly if the operation on its old memberships says so; others are as before |
| CpuSet.OperateWhole | pin-3.11/extras/crt/include/sched.h:88-92 | CPU_AND, CPU_OR and CPU_XOR are intersection, union and symmetric difference |
| CpuSet.OperatesOnAllExactly | pin-3.11/extras/crt/include/sched.h:135-143 | for each operation, all CPUs in range are combined for all sources and destinations if and only if the size is a number of whole words |
| CpuSet.PartialWordIsLeft | pin-3.11/extras/crt/include/sched.h:135-143 | the first CPU of a partial last word stays in the destination although it is in neither source |
| CpuSet.AllocSizeExact | pin-3.11/extras/crt/include/sched.h:96-97 | the least whole-word size for the count, and big enough exactly while the sum does not wrap |
| PathSearch.FoundExactly | pin-3.11/source/launcher/utils.c:152-171 | a directory is the result if and only if it is the leftmost component that passes, all before it having been tested in vain |
| PathSearch.NotFoundExactly | pin-3.11/source/launcher/utils.c:152-171 | null if and only if every component was tested and failed |
| PathSearch.AbortsExactly | pin-3.11/source/launcher/utils.c:23-171 | an assertion fails if and only if the first component that is not tested in vain is empty, or the name is |
| PathSearch.OverrunsExactly | pin-3.11/source/launcher/utils.c:23-171 | the buffer is overrun if and only if the first such component, or else the name, is longer than the cap |
| PathSearch.LeadingSeparatorAborts | pin-3.11/source/launcher/utils.c:23-171 | every PATH that starts with a separator aborts |
| PathSearch.TestsNoneToTheRight | pin-3.11/source/launcher/utils.c:152-171 | exactly the components up to the passing one are tested, in order |
| PathSearch.CheckFileInDir | pin-3.11/source/launcher/utils.c:23-122 | tests directory, slash and name joined in the buffer; an empty string aborts and an overlong one overruns the buffer |
| PathSearch.SearchInPath | pin-3.11/source/launcher/utils.c:130-172 | the in-place search agrees with the functional split and search, in its outcome and in the paths it tests |
| PathSearch.SplitJoins | pin-3.11/source/launcher/utils.c:145-162 | the components joined by colons are PATH again, and none contains a colon |
| PathSearch.ComponentsAreSplit | pin-3.11/source/launcher/utils.c:145-162 | PATH has no other components |
| PathSearch.SearchExactly | pin-3.11/source/launcher/utils.c:130-172 | for every PATH: the first component that is not tested in vain is returned if it has the file; null exactly if there is no such component; otherwise it, or the name, is empty (abort) or longer than 4096 (overrun) |
| PathSearch.TestedExactly | pin-3.11/source/launcher/utils.c:118-172 | the tested paths are directory, slash and name for the components before this one, and for it if it has the file |
| PathSearch.FindBasePath | pin-3.11/source/launcher/utils.c:179-198 | everything before the last slash; without one the directory found, or the name itself |

## Left out

- CacheClass.Cache: is the template instance with ROUND_ROBIN; the instance with DIRECT_MAPPED is covered on values, since both set classes implement the same queue and the direct-mapped one is that with one way.
- CacheClass.Cache.Access: requires that the loop ends, which TerminatesExact characterises; the flush and reset counters start with arbitrary values, as the constructor does not set them.
- CacheClass.Cache.Flush: loop indices are unbounded, where the source counts down in a signed 32-bit word; that matters for 2^31 sets or ways only.
- CacheModel.Counts: counters are unbounded, 64-bit overflow of a statistic is not modelled.
- SignalHandshake.EveryRunCanFinishExactly: is about possibility; whether a run does end depends on signals arriving and on the tool, which are outside the program.
- ResultFilter.LowerUnit: units from 256 on are left as they are, where JavaScript would use the Unicode tables; the counterexample of FiltersExactly has such a unit only in the name, which is encoded before it is lower-cased.
- ResultFilter.SearchResults.Search: the query is given; taking it from the page address and unescaping it is browser code.
- ElementWalk.FindChildElement: starts at the element itself; looking it up by its id is browser code.
- CompressorCounter: capacity is taken to start at the initial size and reserve to be exact, as a vector may over-allocate.
- PathSearch.SearchInPath: PATH is set; an unset one fails an assertion as an empty one does.
- PathSearch: whether a path exists and is acceptable is a predicate; check_not_directory accepts directories in one build, which this model does not see. Allocation never fails.
- COMPRESSOR_COUNTER::StringLong and COUNTER_ARRAY comparison: text output, and a pointwise comparison of small arrays.
- NavNext and NavPrev: linear scans for the next visible item.
- Signal delivery, masks, fork and exec in change_mask_app.cpp: only the lock hand-over and the iteration counter are modelled.
- CPU_ZERO_S, CPU_COUNT_S and allocation of CPU sets: library calls.
- Statistics output, miss rates and stream operators: text formatting.
- Weak memory and pthread ownership errors: mutexes are sequentially consistent binary semaphores.
