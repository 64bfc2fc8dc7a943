# Heapusage, modelled and proved in Dafny

Heapusage is a heap checker that is preloaded into a program. It replaces malloc, free, calloc and
realloc, puts every block in front of a protected fence page, keeps freed blocks in a protected
quarantine, and logs allocations so that leaks, double frees and invalid accesses can be reported.

The project models the three layers of the checker and proves what they promise over every run.

* **The fenced allocator** (`src/humalloc.cpp`). `Layout` and `Blocks` are the size and pointer
  arithmetic in wrapping 64-bit words, `Quarantine` the eviction arithmetic. `HeapModel` is the
  allocator as a transition system on an explicit address space: protected bytes, regions held from
  the system, memory contents. The system allocator is an environment that may refuse, or hand out any
  non-null memory nobody holds, with any contents. `HeapInvariant`, `HeapTheorems`, `HeapContents` and
  `HeapPromises` prove what every run keeps and what the program gets. The class `Humalloc` has the
  fields and statements of the source; each method is proved to take exactly the transition of
  `HeapModel`. It works on the class `AddressSpace`, whose preconditions are obligations of the checker:
  mprotect only whole pages of one held region, free only readable and writable held regions, memcpy
  only between accessible ranges that do not overlap, memset only on accessible bytes.
* **The log** (`src/hulog.cpp`). `LogModel` is log_event on values, `LogTheorems` what it keeps over
  every trace, `Summary` the leak summary and the test of a callstack, `Attribution` the search in the
  signal handler and when its answer depends on the order of the hash maps. The class `Hulog` has the
  maps and counters as fields and is proved against these.
* **The wrappers** (`src/humain.cpp`). `WrapperModel` composes an allocator step with log steps;
  `CrossInvariant` and `RunAccounting` prove what ties the two layers together over every run; `Faults`
  and `FaultRuns` say exactly when a fault is attributed to the right block, `Ownership` which blocks
  are tracked and when a reported double free is one, and `Scenarios` has a run for each way in which
  that goes wrong. The class `Humain` runs the critical sections on the two objects. `Threads` lets any
  number of threads take the wrappers' steps in any interleaving, with any nesting, around the mutex.

The allocator is specified by declarations, not by its loop: the quarantine after a free is the
*longest suffix of the free history that fits*, whatever the eviction loop does to get there.

## Where the code falls short of a promise

The code is modelled as it is. Where a natural promise does not hold, the exact condition is proved.

* A failed realloc gives up the old block, unlike section 7.22.3.5 of ISO/IEC 9899:2011:
  `HeapContents.ReallocAlwaysGivesUpOldBlock`.
* `hu_user_addrs` is never erased from: it holds every address a fenced block ever had in the run
  (`HeapTheorems.KnownInEveryRun`), and an unfenced block at such an address is never given back:
  `HeapTheorems.UnfencedFreeWorksUnlessKnown`, with a run in `HeapTheorems.KnownAddressLeaks`.
* Sizes near 2^64 wrap, and the block is then always too small: `Layout.RegionLargeEnough`,
  `Layout.HugeRequestGetsOnlyTheFence`.
* A failed request is logged under null and reported as lost like a block. The leak totals and the byte
  counter are those of the blocks the program holds if and only if no failed request is on record or
  was overwritten there: `RunAccounting.LeakTotalsInEveryRun`, with runs in
  `RunAccounting.OneFailureIsReported` and `RunAccounting.TwoFailuresDistort`. The entry can also
  compete with the right block when a fault is attributed, be it an overflow or a use after free: it is
  a term of the exact conditions in `Faults.OverflowAttributed` and `Faults.UseAfterFreeAttributed`,
  with runs in `Scenarios.FailureSpoilsOverflow` and `Scenarios.FailureSpoilsUseAfterFree`.
* A refused realloc is logged as a free although by the C standard the block stays with the program,
  and a request for zero bytes is not logged at all. Such a block escapes the leak report, and its one free can be
  reported as a double free: `Ownership.TrackedExactInEveryRun` and `Ownership.DoubleFreeInEveryRun`
  say exactly when, with runs in `Scenarios.FirstFreeReported` and `Scenarios.FreeAfterRefusalReported`.
* A block larger than the whole quarantine leaves it in its own free, before that free is logged, and
  so stays on the freed record without being protected: `CrossInvariant.RecordsExactInEveryRun`.
* The search of the signal handler reaches from the user's first byte to one page behind the last, so
  no block is named for a fault in the padding of a freed fenced block, or in the last bytes (fewer than
  16) of a fence: `Faults.MissedBytes`, `Faults.OverflowAttributed`, with runs in
  `Scenarios.PaddingNamesNothing` and `Scenarios.FenceEndNamesNothing`.
* That reach is one byte too long (src/hulog.cpp:375-376, 394-395). With fences, the first byte of a
  freed block is attributed to the neighbour below if that one is on record, ends its fence there and
  has no slack before it: `Faults.UseAfterFreeAttributed`, with a run in
  `Scenarios.FirstByteGoesToNeighbour`.
* Without fences a use after free is attributed to the right block if and only if no null entry reaches
  the byte, no other block on record ends at or up to one page before it, and the block does not lie in
  the last page below 2^64: `Faults.UseAfterFreeExact`. Otherwise a live neighbour takes every byte
  (`Scenarios.LiveNeighbourTakesAll`), or between freed ones the order of a hash map decides
  (`Scenarios.OrderDecidesWithoutFences`).
* The drawing above hu_malloc (src/humalloc.cpp:172-176) shows the user area ending at the fence. It
  ends up to 15 bytes before it: `HeapSteps.FencedUserSize`. The limit of 10% of memory in the comment
  at src/humalloc.cpp:181-182 is a default; the limit is configurable, and a parameter here.

## Model

| member | source | states |
|---|---|---|
| Layout.CeilIsLeast | src/humalloc.cpp:64-72 | the reference for rounding: the least multiple that is at least n |
| Layout.RoundUpExact | src/humalloc.cpp:64-72 | in 64-bit arithmetic rounding gives the least multiple modulo 2^64, hence exactly if and only if that multiple is representable |
| Layout.SizesAreIdeal | src/humalloc.cpp:74-85 | within the bound, both computed sizes are those of unbounded arithmetic |
| Layout.RegionLargeEnough | src/humalloc.cpp:204-212 | the requested region has room for the user's bytes and the fence if and only if no step of the size computation wraps |
| Layout.HugeRequestGetsOnlyTheFence | src/humalloc.cpp:204-212 | a request of 2^64 - 1 bytes asks the system for the fence page alone |
| Layout.MarginSuffices | src/humalloc.cpp:74-85 | every size at least two pages and 16 bytes below 2^64 is computed without wrapping |
| Layout.CallocTestExact | src/humalloc.cpp:321-326 | the division test lets a request through if and only if the product is below 2^64 |
| Blocks.MakeInfoIsIdeal | src/humalloc.cpp:222-246 | without wrapping, the pointer arithmetic places the block exactly as on unbounded integers |
| Blocks.IdealInfoWellFormed | src/humalloc.cpp:204-246 | the user's bytes lie inside the region, before the fence, and end less than 16 bytes before it |
| Blocks.BlockAligned | src/humalloc.cpp:222-239 | region and fence are whole pages, and the user pointer is 16-byte aligned |
| Quarantine.CutLeavesLongestSuffix | src/humalloc.cpp:288-299 | the cut leaves the longest suffix that fits the limit |
| Quarantine.LongestSuffixUnique | src/humalloc.cpp:288-299 | there is only one longest fitting suffix |
| Quarantine.CutAppend | src/humalloc.cpp:285-299 | cutting after each free leaves the same blocks as cutting the whole history once |
| Quarantine.TotalFitsWord | src/humalloc.cpp:285-286 | disjoint regions in the address space have a total size below 2^64, so the size counter cannot wrap |
| HeapInvariant.AddFencedKeeps | src/humalloc.cpp:210-249 | obtaining a fenced block keeps disjointness, ownership, conservation and the exact set of protected bytes |
| HeapInvariant.MoveToQuarantineKeeps | src/humalloc.cpp:278-286 | so does moving a block to the quarantine |
| HeapInvariant.EvictFirstKeeps | src/humalloc.cpp:289-299 | so does evicting any number of the oldest blocks |
| HeapInvariant.ReleaseNowKeeps | src/humalloc.cpp:301-306 | so does releasing a block without quarantine |
| HeapTheorems.FreeCloses | src/humalloc.cpp:280-300 | after a free the quarantine is the longest fitting suffix of all frees, and the warning flag is exact |
| HeapTheorems.StepKeeps | src/humalloc.cpp:187-374 | every operation, against every answer of the system, keeps the whole invariant |
| HeapTheorems.ProtectionInEveryRun | src/humalloc.cpp:187-374 | in every run a byte is protected if and only if it lies in the fence of an active block or in a quarantined block: live user bytes, padding, slack and all memory given back are readable and writable, fences and quarantined bytes never are |
| HeapTheorems.QuarantineInEveryRun | src/humalloc.cpp:280-300 | in every run the quarantine is the longest suffix of the freed blocks that fits the limit, released and quarantined blocks are the free history in order, and the flag is raised if and only if some freed block has lost its protection |
| HeapTheorems.TrappedWhileItFits | src/humalloc.cpp:280-300 | the j-th freed block is still protected if and only if it and all later frees together fit the limit |
| HeapTheorems.OwnershipInEveryRun | src/humalloc.cpp:210-306 | each fenced block ever obtained is active, quarantined or given back, each exactly once however often it is freed; held regions are disjoint, user pointers unique, active pointers known, and the size counter is the sum over the queue |
| HeapTheorems.RunHistoryRecorded | src/humalloc.cpp:187-374 | the histories the other theorems speak of are those of the operations of the run |
| HeapTheorems.KnownInEveryRun | src/humalloc.cpp:241-249 | in every run `hu_user_addrs` holds exactly the user pointers of the fenced blocks ever obtained |
| HeapTheorems.UnfencedFreeWorksUnlessKnown | src/humalloc.cpp:249-276 | after every run, freeing an unfenced block gives it back if and only if no fenced block obtained in the run ever had its address; otherwise nothing happens |
| HeapTheorems.KnownAddressLeaks | src/humalloc.cpp:249-276 | a legal run after which everything was freed and a block is still held |
| HeapTheorems.SampleReachable | src/humalloc.cpp:187-307 | a run that ends with a live and a quarantined block: the invariant and the premises can be met |
| HeapContents.OthersUndisturbed | src/humalloc.cpp:187-374 | no operation changes the record, the extent, the contents or the accessibility of a live block, fenced or not, other than the one it frees |
| HeapContents.ReallocCopiesSafely | src/humalloc.cpp:356-364 | the old and the new user area do not overlap, no byte of either is protected, and after the copy every old byte that fits is in the new block |
| HeapContents.ReallocPreservesContents | src/humalloc.cpp:356-368 | when the new block is granted every old byte below both sizes is at its place in the new block, and the old block is quarantined or released |
| HeapContents.ReallocAlwaysGivesUpOldBlock | src/humalloc.cpp:359-368 | the old block never survives a failed realloc; the standard's promise is kept if and only if the new block is granted |
| HeapContents.CallocZeroes | src/humalloc.cpp:309-335 | calloc answers, when the system does, if and only if the product is below 2^64, and then with that many accessible zero bytes |
| HeapPromises.MallocAnswered | src/humalloc.cpp:187-252 | a granted request returns a non-null pointer to a live block with the requested size, fenced from minsize on, all of it accessible; a refused one returns null and changes nothing |
| HeapPromises.CallocAnswered | src/humalloc.cpp:309-335 | the same for calloc, also for requests of nothing, which go to the system; a product of 2^64 or more is refused |
| HeapPromises.SystemReallocAnswered | src/humalloc.cpp:370-373 | a granted realloc of an unfenced block returns the granted region, with at least the requested size held, and the old region is gone unless reused |
| HeapPromises.ReallocAnswered | src/humalloc.cpp:337-374 | realloc of null, of a fenced and of an unfenced block returns a usable block of the new size when granted and null when not; to size 0 it returns null and ends the block |
| HeapPromises.BackedInEveryRun | src/humalloc.cpp:187-374 | in every run every byte of every held region has contents |
| HeapSteps.FreshBlock | src/humalloc.cpp:204-249 | the statements of hu_malloc make a well-formed block at an address that is not active yet, with the fence inside the granted region |
| HeapSteps.FencedUserSize | src/humalloc.cpp:376-382 | the rounded size of a fenced block reaches exactly to its fence, less than 16 bytes past the user's size |
| HeapSteps.QuarantineSizeExact | src/humalloc.cpp:285-286 | adding to the size counter never wraps |
| HeapSteps.SizeStepDown | src/humalloc.cpp:296 | subtracting an evicted block from the size counter never underflows |
| HeapSteps.CutReached | src/humalloc.cpp:289 | the loop stops at exactly the shortest sufficient prefix, and never because the queue is empty |
| AddressSpace.AddressSpace.Mprotect | src/humalloc.cpp:96-130 | called only on whole pages inside a single held region |
| AddressSpace.AddressSpace.Free | src/humalloc.cpp:295-305 | called only on held regions all of whose bytes are readable and writable |
| Humalloc.Humalloc.constructor | src/humalloc.cpp:134-159 | starts with nothing active, quarantined or protected |
| Humalloc.Humalloc.HuMalloc | src/humalloc.cpp:187-252 | takes the model's transition and keeps the invariant |
| Humalloc.Humalloc.MallocFenced | src/humalloc.cpp:204-251 | the 64-bit statements of hu_malloc build the block of unbounded arithmetic and protect its fence |
| Humalloc.Humalloc.EvictOldest | src/humalloc.cpp:291-298 | one round of the loop removes the oldest block, unprotects and returns it, and forgets its record in the log |
| Humalloc.Humalloc.EvictOverLimit | src/humalloc.cpp:288-299 | the loop terminates, evicts the shortest sufficient prefix in FIFO order, and removes exactly those records from the log |
| Humalloc.Humalloc.QuarantineBlock | src/humalloc.cpp:278-286 | the freed block is protected as a whole and becomes the newest in the queue |
| Humalloc.Humalloc.ReleaseBlock | src/humalloc.cpp:301-306 | without use-after-free detection the block is unprotected and given back at once |
| Humalloc.Humalloc.HuFree | src/humalloc.cpp:254-307 | takes the model's transition on all five paths and forgets exactly the evicted blocks in the log |
| Humalloc.Humalloc.HuCalloc | src/humalloc.cpp:309-335 | takes the model's transition, with the wrapping product and the division test; a block it returns is clear |
| Humalloc.Humalloc.MoveBlock | src/humalloc.cpp:356-368 | allocate, copy, free: the model's realloc of a live fenced block |
| Humalloc.Humalloc.HuRealloc | src/humalloc.cpp:337-374 | takes the model's transition on all four paths; a block it returns for a live fenced one has every old byte below both sizes |
| Humalloc.Humalloc.HuMallocSize | src/humalloc.cpp:376-391 | for a fenced block the size up to the fence, for any other pointer 0 |
| Humalloc.Humalloc.HuQuarantineWasEvicted | src/humalloc.cpp:394-397 | true if and only if everything freed so far does not fit the limit together |
| LogTheorems.ReplayTidy | src/hulog.cpp:252-345 | over every trace live and freed keys are disjoint and entries sit under their own pointer, so inserting a freed entry never meets an old one |
| LogTheorems.FreeIsRecorded | src/hulog.cpp:284-297 | after every trace, the free of a tracked pointer takes it off the live record and puts it on the freed one if and only if use-after-free or double-free detection is on, with pointer, size and callstack unchanged and the callstack of the free added |
| LogTheorems.PointerRefinesAutomaton | src/hulog.cpp:252-345 | what the log knows of a pointer is a three-state automaton run on the events of that pointer alone |
| LogTheorems.OtherPointersDoNotMatter | src/hulog.cpp:252-345 | traces with the same events on a pointer leave the same knowledge of it |
| LogTheorems.ByteAccounting | src/hulog.cpp:263-296 | over every trace, in 64-bit arithmetic, the counter is live bytes plus bytes overwritten while live, and the total is all bytes requested |
| LogTheorems.PeakIsExact | src/hulog.cpp:270-287 | however much is requested in all: while live plus overwritten bytes stay below 2^64 the counter is their sum, the peak is the maximum of the counter over all prefixes, and live <= current <= peak <= everything requested |
| LogTheorems.FreeNeverUnderflows | src/hulog.cpp:287 | whenever live plus overwritten bytes are below 2^64 the subtraction in a free event takes away no more than is there |
| LogTheorems.CurrentIsLiveBytes | src/hulog.cpp:263-296 | the counter is the live bytes when no event hits a live key |
| LogTheorems.CountersCountEvents | src/hulog.cpp:272-341 | the allocation counter counts the events of at least minleak bytes, the free counter every free, and live blocks never outnumber counted allocations |
| LogTheorems.DoubleFreesReported | src/hulog.cpp:298-338 | over every trace exactly the frees of freed entries are counted, the reported set is the set of their callstacks without the first frame, and the records written are all of them when repeating, else the first of each |
| LogTheorems.NextDoubleFree | src/hulog.cpp:308-312 | the next double free of any trace is written if and only if the file opens and repeating is on or no earlier double free has the same callstack from the second frame on |
| LogTheorems.FirstsAreDistinct | src/hulog.cpp:308-310 | every double free shares its callstack from the second frame on with one that is kept, and no two kept ones share theirs |
| LogTheorems.FirstsCoverKeys | src/hulog.cpp:308-310 | as many reports are kept as there are distinct callstacks, and with the same callstacks |
| LogTheorems.UniqueCountIsRecordCount | src/hulog.cpp:493-503 | without repeat the unique count of the error summary is the number of records written |
| Summary.GroupByCallstack | src/hulog.cpp:454-477 | for every iteration order the groups partition the live blocks by callstack, with their sums and counts, and add up to the totals |
| Summary.InsertBySize | src/hulog.cpp:480-484 | inserting keeps the order by size and adds just that group |
| Summary.SortBySize | src/hulog.cpp:480-484 | each group exactly once, by ascending size, with unchanged sums |
| Summary.IsValidCallstack | src/hulog.cpp:206-250 | a callstack is rejected if and only if it is that of a deallocation and its outermost frame with a known object file, the innermost frame left out, lies in libobjc.A.dylib |
| Summary.PrintLeaks | src/hulog.cpp:515-530 | stopping at the first group below minleak prints the same as filtering all groups, and the callstack test drops none |
| Summary.ListedDescends | src/hulog.cpp:515-530 | the printed sizes never increase, and a group is printed if and only if it reaches minleak |
| Summary.GroupsAboveCutoff | src/hulog.cpp:263 | since only sizes of at least minleak are tracked, no group falls below the cutoff |
| Summary.PrintedDetailsAddUp | src/hulog.cpp:515-535 | with fewer than 2^64 live bytes the printed details add up exactly, in bytes and blocks, to the "definitely lost" line |
| Hulog.Hulog.LogEvent | src/hulog.cpp:252-345 | the statements on maps and counters take the model's transition; exactly a free of a freed entry, with double-free logging on and a callstack not from libobjc, is counted, and the free of a tracked block is recorded if either detection is on |
| Hulog.Hulog.ReportInvalidDealloc | src/hulog.cpp:305-335 | counts, remembers the callstack, and writes a record when it is new or repeating is on |
| Hulog.Hulog.RemoveFreedAllocation | src/hulog.cpp:547-553 | forgets the freed entry unless double frees are logged |
| Hulog.Hulog.FindBlock | src/hulog.cpp:370-427 | the two loops find the first live match, else the first freed match |
| Hulog.Hulog.HandleFault | src/hulog.cpp:347-434 | counts every fault whose callstack is not from libobjc, remembers the callstack without its first frame, and reports the block the search finds when none like it is remembered or repeating is on |
| Hulog.Hulog.LogSummary | src/hulog.cpp:441-545 | the error summary appears if and only if something was counted, the heap summary shows the counters, totals are the live bytes and blocks, the details are exactly the groups of live blocks by callstack that reach minleak, largest first, and add up; the warning is printed if and only if the quarantine evicted |
| Attribution.LiveAnswerExact | src/hulog.cpp:373-387 | for every log: a live entry that matches the address is the answer in every pair of iteration orders if and only if no other live entry matches |
| Attribution.FreedAnswerExact | src/hulog.cpp:373-427 | for every log: an answer about a freed pointer is given in every pair of orders if and only if it is that entry's match and no live and no other freed entry matches |
| Attribution.NoAnswerExact | src/hulog.cpp:373-427 | for every log: nothing is ever found if and only if nothing matches |
| Attribution.LiveNamedExact | src/hulog.cpp:373-427 | for every log: a live block is named in every pair of orders if and only if its entry matches and no other live one does |
| Attribution.FreedNamedExact | src/hulog.cpp:373-427 | for every log: a freed block is named in every pair of orders if and only if its entry matches and no live and no other freed one does |
| Faults.OverflowAttributed | src/hulog.cpp:373-427 | a fault in the fence of a live block is attributed to it in every order if and only if it lies at most one page behind the user's last byte and no failed request tracked under null reaches it; the bytes beyond, fewer than 16, are attributed to nothing unless the null entry or a freed one reaches them |
| Faults.FreedSilentInFence | src/hulog.cpp:390-426 | while all freed blocks on record are quarantined, none of them but one under null matches in a live fence |
| Faults.FencedHit | src/hulog.cpp:375-376 | with fences, a byte of another region matches a block if and only if it is the first one behind its fence and the block has no slack |
| Faults.MissedBytes | src/hulog.cpp:394-411 | the bytes of a region its own entry does not reach: none without fences; with fences the padding before the user pointer and fewer than 16 at the end |
| Faults.UseAfterFreeAttributed | src/hulog.cpp:373-427 | with fences: a fault in a quarantined block is attributed to it in every order if and only if it lies between the user's first byte and one page behind the last, no null entry reaches it and no neighbour on record without slack ends its fence there; strictly above the start of the region no neighbour does |
| Faults.UseAfterFreeExact | src/hulog.cpp:373-427 | with or without fences: a fault in a quarantined block is attributed to it in every order if and only if its own entry reaches the byte, no null entry does, no other entry on record ends at or up to one page before it, and the block does not lie in the last page below 2^64 |
| Scenarios.FirstByteGoesToNeighbour | src/hulog.cpp:375-376 | a run after which the first byte of a freed block is attributed, in every order, to the live neighbour below |
| Scenarios.LiveNeighbourTakesAll | src/hulog.cpp:373-387 | a run without fences after which every byte of a freed block is attributed, in every order, to the live neighbour below |
| Scenarios.OrderDecidesWithoutFences | src/hulog.cpp:390-426 | the same run and one more free: two orders give two answers |
| Scenarios.FailureSpoilsOverflow | src/hulog.cpp:373-387 | a run with a refused request after which an overflow is attributed to the block or to the failed request, depending on the order |
| Scenarios.FailureSpoilsUseAfterFree | src/hulog.cpp:373-427 | a run after which a use after free is attributed to the failed request in every order, and, once null was freed too, depending on the order |
| Scenarios.PaddingNamesNothing | src/hulog.cpp:394-411 | a run after which no block is named for any of the 4080 padding bytes of a freed block, although nothing competes |
| Scenarios.FenceEndNamesNothing | src/hulog.cpp:375-376 | a run after which no block is named for the last 14 bytes of the fence of a live block |
| Scenarios.FirstFreeReported | src/hulog.cpp:298-307 | a run after which the first free of an empty block the program owns is reported as a double free |
| Scenarios.FreeAfterRefusalReported | src/humain.cpp:307-316 | a run after which the first free of a block whose realloc was refused is reported as a double free |
| Scenarios.BothDetectionsWork | src/hulog.cpp:284-338 | with both detections on: after one free the block is named for a fault at its first byte, and a second free is counted and written |
| CrossInvariant.FreeQuarantinedKeeps | src/humain.cpp:276-277 | although evictions happen before the free is logged, every quarantined block stays on the freed record |
| CrossInvariant.CallKeeps | src/humain.cpp:249-319 | every wrapper call keeps the agreement of allocator and log |
| CrossInvariant.BlocksTrackedInEveryRun | src/humain.cpp:249-319 | in every run each active block is tracked with its size, each tracked pointer is a block, and with use-after-free on and double-free logging off each quarantined block is on the freed record |
| CrossInvariant.RecordsExactInEveryRun | src/humain.cpp:249-319 | with realloc only on null and fenced blocks, tracked means active, and a recorded freed block is quarantined if and only if its region fits the limit |
| FaultRuns.FreedAnswerInEveryRun | src/hulog.cpp:373-427 | in every run whatsoever a freed block on record is named in every order if and only if its entry and nothing else on record matches |
| FaultRuns.LiveAnswerInEveryRun | src/hulog.cpp:373-387 | in every run whatsoever a live block on record is named in every order if and only if its entry and no other live one matches |
| FaultRuns.FenceAnswerInEveryRun | src/hulog.cpp:373-387 | in every run, also with unfenced blocks on record: a fault in a live fence is attributed to its block in every order if and only if it lies at most one page behind the user's last byte and no other live entry matches |
| FaultRuns.QuarantinedAnswerInEveryRun | src/hulog.cpp:373-427 | in every run whatsoever, with any settings: a fault in a quarantined block that is on record is attributed to it in every order if and only if its own entry reaches the byte, nothing else on record matches, and the block does not lie in the last page below 2^64 |
| FaultRuns.OverflowAttributedInEveryRun | src/hulog.cpp:373-427 | the exact condition for overflows in every state the wrappers reach |
| FaultRuns.UseAfterFreeAttributedInEveryRun | src/hulog.cpp:373-427 | with fences, in every state the wrappers reach: attributed in every order if and only if the block's own entry reaches the byte, no null entry does, and no active or quarantined block without slack ends its fence there |
| FaultRuns.UseAfterFreeExactInEveryRun | src/hulog.cpp:373-427 | with or without fences, in every state the wrappers reach: attributed in every order if and only if the block's own entry reaches the byte, no null entry does, no other entry on record ends at or up to one page before it, and the block does not lie in the last page below 2^64 |
| RunAccounting.LogIsReplayOfRun | src/humain.cpp:249-319 | the log after a run of the wrappers is the replay of the events of that run, so every trace theorem applies |
| RunAccounting.NewPointerUntracked | src/humain.cpp:249-319 | a pointer just handed out is not tracked when it is logged |
| RunAccounting.CurrentBytesInEveryRun | src/hulog.cpp:263-296 | in every run the counter is ahead of the tracked bytes by exactly what failed requests overwrite under null; below 2^64 the two agree if and only if that is nothing |
| RunAccounting.LeakTotalsInEveryRun | src/hulog.cpp:263-296 | with realloc only on null and fenced blocks: the reported bytes and blocks are those of the blocks the program holds if and only if no failed request is on record; the counter is their bytes plus all failed requests on record or overwritten, so right if and only if these have no bytes |
| RunAccounting.OneFailureIsReported | src/humain.cpp:258-262 | after one refused request of n bytes the program holds nothing, and n bytes in one block count as lost |
| RunAccounting.PeakInEveryRun | src/hulog.cpp:270-287 | in every run of any length in which no tracked request is refused the counter is exactly the tracked bytes and the peak the most that was ever tracked at once |
| RunAccounting.TwoFailuresDistort | src/humain.cpp:258-262 | after two refused requests of n bytes the counter is 2n modulo 2^64 and the tracked bytes are n |
| RunAccounting.LiveFitsInEveryRun | src/hulog.cpp:263-277 | in every run the sizes tracked under non-null pointers add up to less than 2^64 |
| Ownership.TrackedExactInEveryRun | src/humain.cpp:249-319 | in every run a non-null pointer is tracked if and only if the last call that concerned it handed it out for at least minleak bytes, and with that size; the owned blocks that are not tracked are the smaller ones and those that are empty or survived a refused realloc; with double-free logging on, also beside use-after-free detection, the freed record holds exactly the pointers whose tracked block was logged as freed with nothing logged since |
| Ownership.DoubleFreeInEveryRun | src/hulog.cpp:298-338 | in every run a free counts as a double free if and only if a tracked block was logged as freed under the pointer and nothing since; it hits no active block and is a false alarm, the program still owning the pointer, if and only if the last call that concerned it was a request for zero bytes or a refused realloc; an unfenced block hit by a true alarm is one left behind because its address was known |
| Humain.Humain.Malloc | src/humain.cpp:257-264 | one call of the model, keeping the agreement of allocator and log; a failed request is logged too |
| Humain.Humain.Free | src/humain.cpp:275-277 | the same for free, whose evictions precede its log event |
| Humain.Humain.Calloc | src/humain.cpp:288-295 | the same for calloc, which logs the wrapped product and returns clear memory |
| Humain.Humain.Realloc | src/humain.cpp:306-318 | the same for realloc: free event of a non-null pointer, then allocation event of a non-zero size; a block returned for a live fenced one has every old byte below both sizes |
| Humain.Humain.Report | src/hulog.cpp:441-545 | in any reachable state: the details are the groups, largest first; unless a failed request is tracked under null the totals are the exact live bytes and the details add up to them; with realloc only on null and fenced blocks the totals are those of the active blocks if and only if no failed request is tracked; the warning is printed if and only if what was ever freed no longer fits the limit |
| Threads.DoKeepsExclusive | src/humain.cpp:79-96 | every step of every thread keeps: the counter is the number of open guards, and a thread is in a section if and only if it owns the mutex |
| Threads.MutualExclusionInEveryRun | src/humain.cpp:249-319 | in every interleaving at most one thread is in a critical section, no thread waits for the mutex it owns, and hu_callcount is the number of open guards |
| Threads.SequentialInEveryRun | src/humain.cpp:249-319 | whenever the mutex is free, shared state and returned pointers are those of a sequential run in lock order, and allocator and log agree |
| Threads.EveryThreadGetsItsResults | src/humain.cpp:249-319 | in every interleaving the sections of a thread are, in order and argument for argument, the outermost calls it made, but for one that still has no mutex, and what was returned to it is in order exactly what its sections returned in the sequential run |
| Threads.UnlockedCarriesItsResult | src/humain.cpp:257-264 | in every interleaving a call that has given up the mutex carries the result of the latest section of its thread |
| WrapperModel.RefusalIsLegal | src/humain.cpp:249-319 | what the program may ask for is exactly what a refusing system answers lawfully |
| WrapperModel.HeapPartIsOperation | src/humain.cpp:249-319 | the allocator's share of a wrapper call is the operation of the same kind, with its result |
| Threads.NoDeadlock | src/humain.cpp:90-95 | while any call is open and the waiting calls are ones the program may make, some open call can take a lawful step |
| Threads.EveryCallReturns | src/humain.cpp:79-96 | from every reachable state and under every schedule and every answer, without new calls only a bounded number of steps is possible; while the waiting calls are ones the program may make, no lawful step is left if and only if every call has returned and every counter is 0 |

## Left out

Premises the theorems name:

- Requests whose size computation wraps: `Served` demands `Fits`; `Layout.RegionLargeEnough` proves that exactly these get too small a block.
- The program frees only null and pointers it was handed, and reallocates only null and live pointers. Frees of fenced blocks may be repeated at will.
- The system hands out non-null memory nobody holds, page aligned when asked so, and frees only what it is given.
- mprotect succeeds; its return value is not looked at by the callers in the source either.
- A freed byte has no contents until the system hands it out again with any contents it likes.
- HeapSteps.FreshBlock: the granted region ends below 2^64, as every real one does.
- FaultRuns.UseAfterFreeAttributedInEveryRun: the condition is in terms of blocks, so the freed record must hold only blocks that fit the quarantine; double-free logging is off and realloc meets only null and fenced blocks. `FaultRuns.QuarantinedAnswerInEveryRun` has none of these premises and speaks of entries instead.
- FaultRuns.UseAfterFreeExactInEveryRun: the same premises, without that of fences.
- FaultRuns.OverflowAttributedInEveryRun: realloc meets only null and fenced blocks, so that every tracked block has a fence.
- CrossInvariant.RecordsExactInEveryRun: realloc of an unfenced block is excluded here, because the system's realloc may answer with an unfenced block of any size that is then tracked; `CrossInvariant.BlocksTrackedInEveryRun` covers it.
- LogTheorems.PeakIsExact: the counter wraps once live plus overwritten bytes reach 2^64; beyond that only `LogTheorems.ByteAccounting` holds, which is proved modulo 2^64. The total of all requests wraps at 2^64 of its own.
- RunAccounting.LeakTotalsInEveryRun: unfenced blocks that realloc made large are tracked as well; which ones, and with which size, is `Ownership.TrackedExactInEveryRun`.
- Threads.NoDeadlock: a waiting call that the program may no longer make, such as the second free of one unfenced block, has no lawful step; neither has it any in the sequential theorems.

Not modelled:

- Both detections off: the wrappers then call libc directly and only the log is active (src/humain.cpp:174-183). Its trace theorems need no allocator.
- Widths of counters: the numbers of allocations, frees, reports and of blocks in a group are unbounded here, 64 or 32 bits in the source, and so is the nesting depth in hu_callcount.
- A backtrace of depth 0: the source builds a callstack from an invalid range; here its trimmed form is empty.
- The test of the signal number and the exit after a fault (src/hulog.cpp:349, 438).
- Text: prefixes, headers, symbol lookup. What log_summary writes is a value, and reports are a sequence of records.
- backtrace and dladdr are inputs; dladdr is a function from addresses to names, so its cache (src/hulog.cpp:214-231) does not appear. In the trace theorems the verdict on the callstack of a free is an arbitrary input.
- Environment parsing, initialisation and its window without mutex, fork handlers, hu_fini, bypassed calls.
- hu_report and hu_sig_handler as concurrent steps: they read the log without the mutex. The search and the summary are modelled as sequential code.
- Memory that nested wrapper calls take from libc: it is part of the environment.
- Threads.SequentialInEveryRun: a critical section is three steps on the shared state (allocator, free event, allocation event), not one for every assignment; the order inside a section cannot be observed by another section.
- The system allocator's own locks.
- The macOS wrappers repeat the same logic under other names.
