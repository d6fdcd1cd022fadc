# Verified model of the allocation counters

The repository holds two memory profilers that are preloaded into a process. `mmap-counter`
records `mmap()` and `munmap()` calls in a map of address slices and writes an event log, which
`parse-mmap-log.py` replays to compute memory over time and by stack trace. `alloc-counter`
samples `malloc()` calls, watches some allocations closely, reports those that look leaked, and
has the beginnings of a watchpoint mechanism. This project models both and proves what they are
meant to do, over all inputs, all histories and, where threads matter, all interleavings.

Every file holds one module.

* `Basics`: ordered key views, finite sets and sums over them.
* `Pages`: the three ways the sources round a size up to whole pages.
* `Slices`, `SliceSums`, `History`: the table of slices as a value, the function from address to
  owner that it stands for, byte counts, and histories of events.
* `PyMemoryMap`, `MemoryLog`, `ByStack`, `Ranking`: the log analyser. Its memory map is a class
  over slice objects that are resized in place; its analyses are loops over the log.
* `Interning`, `CppMemoryMap`, `Wrapper`, `Replay`: the wrapper. Its map holds slices by value,
  with use counts for the allocations they share and for the traces those keep interned; `Replay`
  relates what it logs to what the analyser rebuilds.
* `TraceInfo`, `AllocationTable`: the counters and estimates of one stack trace, and the
  allocation table as a class, with each operation tied to a function on its state.
* `Ledger`, `Verdicts`, `Fates`, `Suspicion`, `Counters`: runs of the allocation table. `Fates`
  and `Suspicion` keep a history of every allocation beside the table, and `Counters` compares
  the two.
* `Sorting`: sorting by a weight, and when the order is determined, for the two sorted reports.
* `LeakReport`, `PatrolThread`: the leak report, the tally of occurrences, the schedule.
* `Reentrancy`, `Watchpoints`: the in-library flag with the table mutex, and the watchpoint
  protocol, as steps of any number of threads.

## What the code needs, and where it falls short

* Sizes are positive. A zero-size unmap splits a slice without erasing anything
  (`Slices.ZeroSizeUnmapSplits` says exactly when this happens).
* The wrapper's `registerMap` does not remove what a new mapping overlaps, the analyser's does:
  they agree exactly when the range is free (`Replay.MapsAgreeIffFree`). The wrapper also cuts
  lengths of 4 GiB and more to 32 bits, and the analyser does not. The replay stays in step through
  a whole run exactly when every call means the same to both (`Replay.InStepIffAgreeing`): every
  recorded mapping is uncut and lands on a free range, and every cut unmapping is one where the cut
  makes no difference (`Replay.CutAgrees`). That this holds is an assumption: `MAP_FIXED`
  overwrites, unmappings made inside the library are not recorded, and the kernel is called before
  the mutex is taken. In a map with overlaps the wrapper's unmap can leave part of its range
  covered; `CppMemoryMap.UnmapLastClearsIff` says exactly when.
* The analyser has no form for the line of a failed `munmap()`, for a time written with an
  exponent (six significant digits: from 999999.5 seconds of uptime on, and below 0.0001), or for
  a null address, which is written without `0x`. `Replay.ReadableIff` says exactly when the log
  can be parsed, and `Replay.LateLogUnreadable` gives a run whose log cannot.
* `generate_ranking` crashes when no event reaches the two-hour mark and something stays mapped.
  `Ranking.GenerateRanking` gives this outcome as `NoBaseline`, exactly then.
* The wrapper's page rounding is cut to 32 bits, and the environment's is computed in 32 bits.
  `Pages.WrapperAgrees` and `Pages.EnvironmentAgrees` say exactly when that makes no difference.
* `registerUnmap` compares an iterator with one that `erase` has made invalid. The model answers
  whether the erased range was empty, which is what the comparison stands for.
* A failed realloc of a light record files the record under the null address, where it stays until
  it expires, and the next failure meanwhile loses its record (`Ledger.FailedReallocFilesNull`,
  `Suspicion.WithinHeapIff`). Legal runs include both. A closely watched record that cannot get its
  new pages is copied to the null address, so legal runs have that allocation succeed.
* `instrumentedReallocate` inserts into an unordered map and then erases through an iterator that
  the insertion may have made invalid by rehashing. The model erases the old key.
* A realloc of a closely watched record never releases the old block and copies the old size even
  when shrinking. Only the bookkeeping is claimed, and the old block stays in the modelled heap.
* The total number of allocations of a trace is returned in 32 bits; `TraceInfo.TotalIsExact` and
  `TraceInfo.TruncatedEstimate` show when and how this matters.
* The comparator of the leak report uses `>=`, which every entry satisfies with itself. Between
  different entries it holds both ways exactly when two of them lose the same number of bytes, and
  the report has one non-increasing order exactly when it does not
  (`LeakReport.ComparatorOrders`, with a case in `LeakReport.TiedLeaks`). The model sorts into
  non-increasing order.
* `memory-protector.h` locks the type `mutex` instead of the member, and asserts only that the two
  endpoints of a new range are unwatched. The model has the lock that the comments describe and
  refuses any overlap; `Watchpoints.EndpointAssertions` says exactly when the asserted condition
  is too weak and when it is too strong.

## Model

| member | source | states |
|---|---|---|
| Pages.RoundUpWordExact | common/environment.h:69-71 | For every power-of-two page and every word width, adding and masking gives the least page multiple not below the size if and only if the addition does not carry out of the word; with a carry it gives zero. |
| Pages.RoundUpWordLaws | common/environment.h:69-71 | Rounding that does not carry is monotone and idempotent. |
| Pages.PythonIsLeast | parse-mmap-log.py:37-38 | On unbounded integers the form is the least multiple of 4096 not below the size, for every size. |
| Pages.WrapperAgrees | mmap-counter/wrapper-mmap.cpp:22-25 | For every 64-bit size the wrapper's rounding equals the analyser's if and only if the sum before masking fits 32 bits. |
| Pages.EnvironmentAgrees | common/environment.h:69-71 | The environment's rounding equals the analyser's if and only if the 32-bit sum does not overflow. |
| Pages.EnvironmentIs | common/environment.h:69-71 | For every page and size it is the least page multiple for the low 32 bits of the size, or zero when that multiple is the whole word. |
| Pages.WrapperIs | mmap-counter/wrapper-mmap.cpp:22-25 | For every 64-bit size the wrapper's rounding is the low 32 bits of the analyser's. |
| Slices.SplitKeepsOwners | parse-mmap-log.py:113-125 | A split keeps the table well formed, is invisible to the address-to-owner function, leaves nothing across the point, and adds at most the point as a key. |
| Slices.UnmapClearsExactly | parse-mmap-log.py:101-111 | Unmapping clears the owner of exactly its range and keeps the table well formed. |
| Slices.MapOwnsExactly | parse-mmap-log.py:92-99 | Mapping gives exactly its range to the new allocation, whatever was there. |
| Slices.CanonicalIsUnique | parse-mmap-log.py:88-125 | Two well-formed tables in which no touching slices share an allocation are equal as soon as they give every address the same owner. |
| Slices.UnmapKeepsCanonical | parse-mmap-log.py:101-111 | A positive-size unmap keeps touching slices of different allocations, despite its two splits. |
| Slices.MapKeepsCanonical | parse-mmap-log.py:92-99 | So does mapping a new allocation. |
| Slices.UnmapsCommute | parse-mmap-log.py:101-111 | Two unmaps in either order leave identical tables, overlapping or not. |
| Slices.AdjacentUnmapsFuse | parse-mmap-log.py:101-111 | Unmapping [a,b) and then [b,c) leaves the table that unmapping [a,c) leaves. |
| Slices.UnmapNoOp | parse-mmap-log.py:101-111 | An unmap leaves the table alone if and only if nothing in its range is owned; hence it is idempotent. |
| Slices.MapAbsorbsUnmap | parse-mmap-log.py:92-99 | Unmaps inside a range that is then mapped over make no difference to the table. |
| Slices.ZeroSizeUnmapSplits | parse-mmap-log.py:101-125 | A zero-size unmap leaves the table alone, and canonical, if and only if no slice has the point strictly inside. |
| Slices.FragmentationStep | parse-mmap-log.py:101-125 | An unmap adds at most one slice, and adds one if and only if its range lies strictly inside a single slice. |
| SliceSums.TableBytes | parse-mmap-log.py:156-161 | The bytes of a table that pass a filter are the number of addresses whose owner passes it. |
| SliceSums.AccountedTrace | parse-mmap-log.py:156-161 | The addresses counted for one trace are those that an allocation of that trace owns, and without a filter those that are owned. |
| SliceSums.ErasedTiled | parse-mmap-log.py:106-111 | The slices an unmap returns are positive, in address order, disjoint, and inside the range. |
| SliceSums.ErasedTile | parse-mmap-log.py:106-111 | They cover exactly the addresses in the range that were owned, for every filter on the owner. |
| SliceSums.ErasesIffOwned | parse-mmap-log.py:144-147 | An unmap returns some slice if and only if something in its range was owned. |
| SliceSums.UnmapAccounting | parse-mmap-log.py:144-149 | What an unmap takes from a filtered count is the sum of the sizes it returns, which is at most its size. |
| SliceSums.MapAccounting | parse-mmap-log.py:140-143 | What a mapping adds to a filtered count is its size, if it passes the filter, less the returned sizes that pass. |
| History.HistoriesAreCanonical | parse-mmap-log.py:88-125 | Every history of positive sizes leads to a well-formed table in which no touching slices share an allocation. |
| History.SameOwnersSameTable | parse-mmap-log.py:88-125 | Two histories that give every address the same owner leave identical tables: keys, sizes, allocations. |
| History.OwnerIsLastEvent | parse-mmap-log.py:88-125 | After any history an address is owned by an allocation if and only if this is the allocation of the last event that touched the address, and that event was a mapping. |
| History.UnmapOrderIrrelevant | parse-mmap-log.py:101-111 | The last two unmaps of any history may be exchanged. |
| History.FragmentationBound | parse-mmap-log.py:88-125 | After any history there are at most two slices for each mapping and one for each unmapping. |
| PyMemoryMap.GreatestLessThan | parse-mmap-log.py:27-34 | The result is the greatest key strictly below the argument, and there is none if and only if all keys are at least as large. |
| PyMemoryMap.MemoryMap.SplitDictAt | parse-mmap-log.py:113-125 | Shrinking the slice object in place and adding its right side splits the table at the point; both assertions of the original hold. |
| PyMemoryMap.MemoryMap.DeleteRange | parse-mmap-log.py:106-111 | Deleting key by key removes exactly the slices that start in the range and returns them in address order. |
| PyMemoryMap.MemoryMap.RegisterUnmap | parse-mmap-log.py:101-111 | The object graph after the call shows the unmapped table, slice objects stay unshared, and the returned objects show the erased slices. |
| PyMemoryMap.MemoryMap.RegisterMap | parse-mmap-log.py:92-99 | The same for mapping, with the new slice returned. |
| MemoryLog.ParseLine | parse-mmap-log.py:46-65 | A line parses if and only if its size is positive, to the same event with its size rounded to the least page multiple. |
| MemoryLog.Process | parse-mmap-log.py:140-149 | One event changes the filtered count by the change in the number of mapped addresses that pass; the assertion on unmaps holds if and only if something in the range was owned. |
| MemoryLog.GenerateMemoryLog | parse-mmap-log.py:128-153 | The incremental analysis completes if and only if every size is positive and every unmap hits something; then it prints, for any filter, the counts recomputed from the tables; otherwise it stops at the first line that fails, with the lines for all earlier times printed. |
| MemoryLog.LogMeaning | parse-mmap-log.py:134-153 | Printed times strictly increase; every line carries the memory after all events before the next larger time, and the last one after all events. |
| MemoryLog.EveryTimeIsPrinted | parse-mmap-log.py:134-153 | No time is left out: every time that is the latest so far at some point of the log has a line. |
| MemoryLog.GoodMeans | parse-mmap-log.py:46-65 | The logs on which the analysis completes are those with positive sizes in which every unmapping, rounded to pages, covers an address that is owned at its point. |
| ByStack.CalculateMemoryByStackId | parse-mmap-log.py:156-161 | The table has exactly the traces that own a slice, each with the number of addresses it owns. |
| ByStack.AnalysesAgree | parse-mmap-log.py:128-161 | For every trace the recomputed value is the last value of the log filtered to that trace, and the values add up to the last value of the unfiltered log. |
| Ranking.BaselineMeaning | parse-mmap-log.py:167-170 | There is a baseline if and only if some event is late enough; it is taken at the first late event that finds something mapped, and stays empty if none does. |
| Ranking.SortByIncrease | parse-mmap-log.py:182-189 | The rows come by increase, the largest first; every trace of the final table has exactly one row, with the difference of its two values. |
| Ranking.GenerateRanking | parse-mmap-log.py:164-191 | On a replayable log with a baseline the result has every trace that owns memory at the end once, with the addresses it owns then less those it owned at the baseline, the largest increase first; the outcome says exactly when the replay fails and when there is no baseline to compare with. |
| Interning.InternTable.Construct | mmap-counter/interned-stack-trace.h:10-20 | A known hash gives the object the table has, one use more; an unknown one gives a new object held by the table and the handle. |
| Interning.InternTable.Destroy | mmap-counter/interned-stack-trace.h:21-27 | The use count is at least two, as asserted; with two the table gives up the hash and the object dies, otherwise one use goes. |
| Interning.HandleAdded | mmap-counter/interned-stack-trace.h:10-20 | Use counts stay one for the table plus one for each holder when a handle is made. |
| Interning.HandleDropped | mmap-counter/interned-stack-trace.h:21-27 | And when one goes, where the object dies if and only if that was the last holder beside the table. |
| CppMemoryMap.MemoryMap.SplitMapAt | mmap-counter/memory-map.h:56-78 | In any map, overlapping or not, the slice at the greatest key that is at most the point is the one split, the two halves share their allocation, and all use counts stay right. |
| CppMemoryMap.MemoryMap.RegisterMap | mmap-counter/memory-map.h:36-41 | A taken key wins and the new allocation dies again; otherwise it is inserted; no hash leaves the intern table. |
| CppMemoryMap.MemoryMap.EraseSlice | mmap-counter/memory-map.h:51 | Use counts stay right when a slice goes: with the last slice of an allocation, and only then, the allocation and its trace handle go. |
| CppMemoryMap.MemoryMap.RegisterUnmap | mmap-counter/memory-map.h:43-53 | In any map, after the two splits exactly the slices that start in the range go, the answer is true if and only if there was one, and all use counts stay right. |
| CppMemoryMap.UnmapsAgree | mmap-counter/memory-map.h:43-78 | Where slices do not overlap this is the analyser's unmap: the same table and the same slices erased. |
| CppMemoryMap.UnmapLastClearsIff | mmap-counter/memory-map.h:43-78 | In any map, nothing in the range is covered afterwards if and only if every slice that reaches across its start is the one that the split looks at. |
| CppMemoryMap.InternedAreOwned | mmap-counter/interned-stack-trace.h:10-27 | After every completed call the interned hashes are exactly those of allocations that own a slice, and each such allocation holds the table's object for its hash. |
| Wrapper.MmapWrapper.OnMmap | mmap-counter/wrapper-mmap.cpp:58-93 | A call made inside the library, failing with null or not anonymous changes nothing; any other adds exactly one MAP line with its time, address, length and the number of its trace, which is the next one for a trace not seen before, and one slice unless its address is a key already; no trace handle is left over. |
| Wrapper.MmapWrapper.OnMunmap | mmap-counter/wrapper-mmap.cpp:96-123 | In any state, a call inside the library changes nothing, a failed one only adds the note of the failure, and a successful one unmaps its rounded range and adds one UNMAP line if and only if something known was erased. |
| Wrapper.RoundUpIs | mmap-counter/wrapper-mmap.cpp:22-25 | The rounded length that both register is the low 32 bits of the least page multiple. |
| Wrapper.RunCalls | mmap-counter/wrapper-mmap.cpp:58-123 | Any calls whatever, in any order and overlapping or not, leave the state of the run with every use count right. |
| Wrapper.InternedAfter | mmap-counter/interned-stack-trace.h:10-27 | So after any calls whatever the interned hashes are exactly those of allocations that own a slice. |
| Replay.AssignDense | mmap-counter/wrapper-mmap.cpp:42-45 | Numbers given to trace hashes are 1 to their count, no two hashes share one, and a number never changes. |
| Replay.MapsAgreeIffFree | mmap-counter/memory-map.h:36-41 | The wrapper's and the analyser's registration leave the same table if and only if nothing in the new range is owned. |
| Replay.RunsInStep | mmap-counter/wrapper-mmap.cpp:58-123 | Through every run of user-space calls that mean the same to both, the analyser's replay of the log so far passes all its assertions and rebuilds the wrapper's table. |
| Replay.CutInStepIff | mmap-counter/wrapper-mmap.cpp:22-25 | An unmapping that is cut to 32 bits keeps the replay in step if and only if nothing recorded was mapped in the part the wrapper sees or nothing in the rest, or, cut to nothing, it splits nothing. |
| Replay.InStepIffAgreeing | mmap-counter/wrapper-mmap.cpp:58-123 | That assumption is the exact one: for any user-space calls, of any length, the replay is in step at every point of the run if and only if every recorded mapping is uncut and lands on a free range and every cut unmapping agrees. |
| Replay.ReadableIff | parse-mmap-log.py:10-65 | For any calls whatever the log can be parsed if and only if no recorded munmap failed and every line has a time without an exponent and an address other than null. |
| Replay.ReplayAgrees | mmap-counter/wrapper-mmap.cpp:76-120 | For every run in step: the log can be parsed exactly as said, its events replay without failing an assertion, and the replayed table equals the wrapper's slice for slice, with every hash under its number. |
| Replay.LateLogUnreadable | parse-mmap-log.py:10-11 | One successful mapping twelve days after boot makes a log that cannot be parsed. |
| Replay.AnalyseLog | parse-mmap-log.py:46-65 | On a log as written, with lines it has no form for, the analysis completes if and only if every line parses and every event is accepted; otherwise it stops at the first line that does not parse, or at an event before it that fails, with the lines for all earlier times printed. |
| Replay.RecordAndAnalyse | mmap-counter/wrapper-mmap.cpp:58-123 | The wrapper through any run in step and then the analyser on its log, for any filter: no assertion fails; the analysis completes if and only if every call writes a line that parses, and then its last value is the number of addresses that the wrapper's table maps for the traces that pass; otherwise it stops at the first line that does not parse. |
| TraceInfo.TotalIsExact | alloc-counter/watched-stack-trace-info.h:71-73 | The 32-bit total is the number of allocations if and only if that number fits 32 bits. |
| TraceInfo.EstimatesSolve | alloc-counter/watched-stack-trace-info.h:33-73 | The total is the number of allocations modulo 2^32; the leak ratio is to one as leaked to finished, the allocations lost to the total as leaked to finished, and the bytes lost to the bytes measured as the total to the watched. |
| TraceInfo.RatioRange | alloc-counter/watched-stack-trace-info.h:33-44 | A trace leaks by verdict if and only if it has a recorded leak; then its ratio divides by a positive number, lies in (0, 1], and is 1 if and only if nothing was freed. |
| TraceInfo.LostAllocationsRange | alloc-counter/watched-stack-trace-info.h:56-60 | The allocations estimated lost are at most all allocations, and at least the leaks seen if and only if the 32-bit total is no less than the finished count; so always while the total fits. |
| TraceInfo.LostBytesCompare | alloc-counter/watched-stack-trace-info.h:62-73 | The bytes estimated lost are at least those measured if and only if none was measured or the 32-bit total is at least the sample. |
| TraceInfo.LostBytesAtLeastMeasured | alloc-counter/watched-stack-trace-info.h:62-73 | While the total fits, they always are, with equality if and only if nothing was skipped or nothing measured. |
| TraceInfo.TruncatedEstimate | alloc-counter/watched-stack-trace-info.h:62-73 | With a truncated total the estimate can be below what was measured: a concrete case. |
| TraceInfo.BytesAndAllocations | alloc-counter/watched-stack-trace-info.h:56-69 | For allocations of one size the bytes estimated are at most the size times the allocations estimated, with equality if and only if none is live or the 32-bit total came out as zero. |
| AllocationTable.Table.InstrumentedAllocate | alloc-counter/allocation-table.h:92-147 | The call returns what its allocator answered, and outside the library and while watching leaves the state that LightAllocated and Counters.WatchedIff describe. |
| AllocationTable.LightAllocated | alloc-counter/allocation-table.h:99-115 | Under a fingerprint that is not suspicious a successful allocation gets exactly one light record, with its size modulo 2^32, its fingerprint and the suspicion time from now, and a failed one changes nothing. |
| AllocationTable.Table.InstrumentedReallocate | alloc-counter/allocation-table.h:151-205 | A record moves to its new key with its new size, an insert that lets an existing entry win and then an erase; the address of a watched record is returned unchanged if and only if the new size takes the same pages. |
| AllocationTable.WatchedRealloc | alloc-counter/allocation-table.h:180-201 | A watched record stays under its key if and only if the old and the new size round up to the same whole pages in 32 bits, and otherwise moves; nothing but the table of watched records changes. |
| AllocationTable.SamePagesWithoutCarry | alloc-counter/allocation-table.h:182-184 | While neither rounding carries out of 32 bits that is so if and only if one number is the least multiple of the page for both sizes, for every page. |
| AllocationTable.SamePagesWithCarry | alloc-counter/allocation-table.h:182-184 | A size that carries takes the same pages as a size of zero and as another that carries, and as no other. |
| AllocationTable.Table.InstrumentedFree | alloc-counter/allocation-table.h:207-245 | The record goes and the two live counts with it; other addresses change nothing. |
| AllocationTable.SweepLightStep | alloc-counter/allocation-table.h:259-267 | Visiting one more light record is the pass over one more address, whatever was visited before: the order of the erasing loop makes no difference. |
| AllocationTable.SweepWatchedStep | alloc-counter/allocation-table.h:269-290 | The same for closely watched records, their traces' counters and byte totals, and the global count. |
| AllocationTable.Table.PatrolThreadUpdateAllocationStates | alloc-counter/allocation-table.h:254-292 | A pass in any order leaves one and the same state, and returns one report for each record that expired for the second time, and no other. |
| AllocationTable.ReportsAreDetermined | alloc-counter/allocation-table.h:279-286 | Any two lists of reports that a pass may return, in whatever order it visits the records, hold the same reports equally often. |
| Ledger.StepKeepsInv | alloc-counter/allocation-table.h:92-292 | Every call and every pass keeps the ledger: live counts are the numbers of records pointing at their traces, within both budgets, no counter below zero, and the two tables hold disjoint addresses that are out (or null, after a failed realloc of a light record). |
| Ledger.RunsKeepInv | alloc-counter/allocation-table.h:92-292 | So it holds in every reachable state, for an allocator that may fail, or answer with any address that is not out. |
| Ledger.LiveAddsUp | alloc-counter/watched-stack-trace-info.h:22-30 | The global live count is the sum of the traces' live counts and the size of the watched table. |
| Ledger.FailedReallocFilesNull | alloc-counter/allocation-table.h:159-175 | After one realloc of a light record the light table is within the heap if and only if the realloc did not fail and no record was under the null address before; when one was, a failure loses a record, and otherwise none is lost. |
| Verdicts.VerdictsOnlyDevelop | alloc-counter/watched-stack-trace-info.h:37-54 | However a run continues: finished counts never fall, True stays, False only becomes True, Unknown is never entered again, and a trace that is False with none live stays so with its created count frozen. |
| Verdicts.RetiredTracesSkip | alloc-counter/allocation-table.h:119-125 | From then on each allocation of that trace is counted as skipped, and nothing else is. |
| Verdicts.LeaksAreLive | alloc-counter/allocation-table.h:279-282 | The reports of a pass about a trace are never more than its live count, so the decrements do not underflow. |
| Fates.PatrolWatched | alloc-counter/allocation-table.h:269-290 | A pass keeps exactly the records it does not report, each moved on by at most one state. |
| Fates.PatrolLight | alloc-counter/allocation-table.h:259-267 | It keeps exactly the light records that are not past their deadline, and makes suspicious exactly the fingerprints of the others. |
| Fates.PatrolSettles | alloc-counter/allocation-table.h:254-292 | It leaves no record with a deadline before its time, and another pass at the same time changes nothing. |
| Fates.ReportedExactly | alloc-counter/allocation-table.h:269-286 | What the passes make of an unfreed record is a report at the first pass past its second deadline, if there is one, and no report otherwise. |
| Fates.ReportsAreLate | alloc-counter/allocation-table.h:269-286 | That takes two different passes, and comes later than birth, suspicion time and access interval together. |
| Fates.ReportsAreNew | alloc-counter/allocation-table.h:279-286 | A pass reports no allocation that was reported before, and none that was freed. |
| Fates.ReportsSayTrue | alloc-counter/allocation-table.h:284 | Each report names the trace of its allocation, the address it is at after all reallocs, and the size last requested, modulo 2^32. |
| Suspicion.RunsOfLights | alloc-counter/allocation-table.h:99-115 | Over every run each light record carries the fingerprint, birth time and last requested size, modulo 2^32, of its own allocation through all reallocs, failed ones included, and an allocation is in the table until it is freed, expires, or is lost to a second failed realloc. |
| Suspicion.FingerprintsAreEarned | alloc-counter/allocation-table.h:259-267 | Over every run a fingerprint is suspicious if and only if some light allocation with it was not freed, or lost by failed reallocs, before a pass later than its suspicion time; watched records exist only under such fingerprints. |
| Suspicion.WithinHeapIff | alloc-counter/allocation-table.h:159-175 | Over every run there is a record under the null address, and the light table is outside the heap, if and only if some allocation had a failed realloc while tracked, was not lost, and has met no pass later than its birth and suspicion time together. |
| Counters.RunsAreFaithful | alloc-counter/allocation-table.h:92-292 | Over every run the table agrees with the history: each watched record has the trace, birth time, size modulo 2^32, phase and deadline that its own allocation's history gives it, and every allocation is live, freed or reported. |
| Counters.ReportsAreExact | alloc-counter/allocation-table.h:254-292 | Over every run an allocation freed while watched is never reported, any other is reported if and only if some pass is the first past its second deadline, and at that pass. |
| Counters.RunsCount | alloc-counter/allocation-table.h:134-147 | Over every run the created count of a trace is the number of its allocations made, and created less live less leaked the number freed. |
| Counters.CountersCount | alloc-counter/watched-stack-trace-info.h:20-25 | Over every run the counters of a trace are the numbers of its allocations created, live and reported, and created = live + leaked + freed. |
| Counters.VerdictMeans | alloc-counter/watched-stack-trace-info.h:37-44 | Over every run the verdict is True if and only if an allocation of the trace was reported, False if and only if none was and enough were freed while watched, and Unknown if and only if none was and too few were. |
| Counters.WatchedIff | alloc-counter/allocation-table.h:117-147 | At any point of a run an allocation under a suspicious fingerprint gets a watched record if and only if memory was found, fewer records than the maximum point at its trace, the table is smaller than the global maximum, and some allocation of the trace was reported or too few were freed to rule a leak out; when one of the last three fails, and only then, it is counted as skipped. |
| LeakReport.PatrolThreadMakeLeakReport | alloc-counter/allocation-table.h:309-349 | In any order of the nested loops every trace is counted once, as leaky, as non-leaky with enough finished allocations, or as neither, and the three counts add up to all; the leaking traces are listed, each once with its ratio and estimates, the most bytes lost first. |
| LeakReport.ComparatorOrders | alloc-counter/allocation-table.h:345-347 | The comparator holds of every entry and itself; between different entries of a report it holds both ways if and only if two lose the same, and if and only if it does not, the report has a single non-increasing order. |
| LeakReport.TiedLeaks | alloc-counter/allocation-table.h:345-347 | Two traces with one leaked allocation of one size each are such entries. |
| LeakReport.ListedIffLeaky | alloc-counter/allocation-table.h:324-334 | A trace is listed if and only if it has a recorded leak, and then with its own estimates. |
| LeakReport.ListedIffReported | alloc-counter/allocation-table.h:309-349 | At any point of any run a report lists a trace if and only if some allocation of it was reported as a leak. |
| PatrolThread.Monitor.CountLeaks | alloc-counter/patrol-thread.cpp:66-79 | The occurrences of every trace grow by the number of reports about it, and the number logged with a leak is how often its trace has leaked by then. |
| PatrolThread.Monitor.Schedule | alloc-counter/patrol-thread.cpp:82-115 | In place, the schedule starts at the first turn and restarts with every report; what this means for a whole run is in ReportsOnSchedule. |
| PatrolThread.Monitor.Iterate | alloc-counter/patrol-thread.cpp:51-116 | A turn leaves the table as one pass does, every trace's occurrences grown by exactly the reports of this pass, and a report written if and only if it is due. |
| PatrolThread.LeaksAreConserved | alloc-counter/allocation-table.h:279-285 | Over every run the leaks and leaked bytes recorded with a trace info are those of the reports ever made about it, in number and in sum of sizes. |
| PatrolThread.TallyIsConserved | alloc-counter/patrol-thread.cpp:66-68 | At the end of every turn the occurrences of a stack trace are the sum of its leaked counters over all fingerprints. |
| PatrolThread.MonitorCounts | alloc-counter/patrol-thread.cpp:48-79 | The tally after any number of turns counts all reports made so far. |
| PatrolThread.ReportsOnSchedule | alloc-counter/patrol-thread.cpp:82-115 | A turn writes a report if and only if more than the interval has passed since the turn that last wrote one, or since the first turn when none did. |
| PatrolThread.ReportsAreApart | alloc-counter/patrol-thread.cpp:82-115 | Any two reports are more than the interval apart. |
| PatrolThread.RunOps | alloc-counter/patrol-thread.cpp:51-116 | The table object and its monitor through any legal run: at the end the table is in the state of the run, the tally has for every stack trace its leaks recorded under all fingerprints, every trace info has the leaks and bytes reported for it, and reports were written at exactly the turns when they were due. |
| Reentrancy.TakeKeepsInv | common/library-context.h:6-20 | Every step of every thread keeps the flags and the mutex as the stacks of nested calls say, and fails no assertion of LibraryContext. |
| Reentrancy.RunsKeepInv | alloc-counter/allocation-table.h:92-98 | Hence over all interleavings of any number of threads with nested calls, an initialising thread and a patrol thread. |
| Reentrancy.MutexDiscipline | alloc-counter/allocation-table.h:93-98 | Whoever holds the mutex is in the library, nobody else is inside, and no thread waits for a mutex that it holds. |
| Reentrancy.FlagOutlivesLock | alloc-counter/allocation-table.h:96-98 | Only the holder gives the mutex up, and its flag is still set afterwards. |
| Reentrancy.NoDeadlock | alloc-counter/allocation-table.h:152-157 | A thread under way can take its next step if and only if it is not waiting for a held mutex; the holder is then another thread, which does not wait. |
| Reentrancy.CallsNest | alloc-counter/wrapper-malloc.cpp:29-37 | A call can begin with nothing under way, while a wrapper resolves or forwards, and from inside the library with the mutex or without; the patrol and the initialisation only with nothing under way. |
| Reentrancy.CheckDecides | alloc-counter/allocation-table.h:93-94 | In every reachable state a call goes through the table if and only if the process is watching and no LibraryContext is alive on the thread's stack; otherwise it is forwarded. |
| Reentrancy.WatchingStarts | alloc-counter/comm-memory.h:11-13 | The process starts watching at the step that starts it and at no other, and never stops. |
| Reentrancy.CallThrough | alloc-counter/allocation-table.h:93-98 | A call that goes through sets the flag and takes the free mutex, and after its release and the end of its context everything is as before the call. |
| Reentrancy.HolderReleases | alloc-counter/allocation-table.h:213-220 | From any reachable state the holder reaches the release by its own steps alone, within a bound given by its nested calls. |
| Watchpoints.TakeKeepsInv | alloc-counter/memory-protector.h:58-168 | Every step keeps protections, table and fired watches consistent, also between the two halves of an update. |
| Watchpoints.RunsKeepInv | alloc-counter/memory-protector.h:58-168 | Hence over all interleavings; in particular the process aborts only for a pointer that is no memory or a watch on watched pages, never for a fault inside the handler. |
| Watchpoints.FreeMeansExact | alloc-counter/memory-protector.h:58-85 | Whenever the mutex is free the pages without access are exactly those of watched ranges, and each watch ever placed is in the table, fired or removed: exactly one of these. |
| Watchpoints.FiresAtMostOnce | alloc-counter/memory-protector.h:144-156 | Over every interleaving no watch fires twice, however many threads fault on it. |
| Watchpoints.RereadFaults | alloc-counter/memory-protector.h:157-165 | A thread that lost the race re-reads without a fault if and only if the address is memory of the application; otherwise it aborts as the comment's case b. |
| Watchpoints.HandlerOpens | alloc-counter/memory-protector.h:117-168 | A thread that faulted on real memory leaves the handler, from when the mutex is free, by its own steps with its page accessible; if the page was watched exactly that watch has fired and gone, and if not nothing else changed. |
| Watchpoints.WatchPlaces | alloc-counter/memory-protector.h:58-72 | From when the mutex is free a thread that places a watch on pages that no watch has gets through by four steps of its own: exactly that range is added, under the next number, and exactly its pages are closed; with an overlap it aborts. |
| Watchpoints.RemoveTakes | alloc-counter/memory-protector.h:75-85 | From when the mutex is free a thread that removes a watch gets through likewise: exactly the watch over the page goes, exactly its pages open, and without one nothing changes. |
| Watchpoints.OperationsStart | alloc-counter/memory-protector.h:58-75 | A thread outside can start to place or remove a watch, and its touch of a page enters the handler if and only if the page is no memory or closed. |
| Watchpoints.NoDeadlock | alloc-counter/memory-protector.h:58-168 | A thread in an operation can go on if and only if it does not wait for a held mutex; the holder is then another thread, which can go on. |
| Watchpoints.HolderReleases | alloc-counter/memory-protector.h:58-168 | From every reachable live state the holder gets by at most four steps of its own to the release of the mutex, or to an abort for a pointer that is no memory or a watch on watched pages. |
| Watchpoints.EndpointAssertions | alloc-counter/memory-protector.h:62-64 | The two asserted conditions miss an overlap if and only if a watched range lies within the new one, and refuse a free range if and only if a watched range begins where it ends. |

## Left out

* Text: log lines and their regular expressions, float formatting, file output, `humanSize`, and
  the ratios printed at the head of a leak report, which are quotients of the modelled counts.
* Foreign calls: the dynamic linker, libunwind, `mprotect`, `memalign`, clocks, signals. Their
  answers are parameters. Stack traces are numbers; in `mmap-counter` the hash stands for the
  trace, as it does in the code.
* `wrapper-malloc.cpp`: it forwards to the three instrumented operations, and `realloc` dispatches
  on a null pointer and a zero size.
* Heap contents, alignment and zero filling, and the old block of a closely watched realloc.
* Floating-point rounding and not-a-number: estimates are exact rationals. A total truncated to
  zero makes the watch rate infinite; the report then estimates no bytes, as the code does.
* Wrap-around of deadlines, times and 32-bit counters other than sizes and the total of
  allocations: these are unbounded.
* `allocation-stats`: the call counters and rates, and the moment watching is enabled.
* Failed `mmap()` calls, which the wrapper records under the error value, and page sizes other
  than 4096 in the wrapper, which the analyser does not know of.
* The two-level table of suspicious traces is a set of fingerprints and a map keyed by
  fingerprint and trace; pointers into it are its keys.
* The in-library flag of a thread is part of the state machine in `Reentrancy`, not an object;
  `mmap-counter` has the same discipline with its own flag and mutex. Signals do not interrupt
  its steps.
* The order of `registerMap`'s copy of the trace handle and the destruction of the caller's is
  modelled; other shared-pointer temporaries are not.
* In `Watchpoints` addresses are page numbers, ranges are whole pages, and the application's own
  memory does not change during a run. `onAccess` does not fault.
* Ties in the ranking and in the leak report come in any order.
* `mallinfo-log`, `mallinfo-plot`, `alloc-counter-start`, test programs, environment parsing.
* Times in the event log are written with six significant digits; the model's events carry the
  exact time. The replayed table does not depend on times.

- MemoryLog.ParseLine: the text of a line is not modelled; which lines have a form that parses is
  in `Replay.Legible`.
- AllocationTable.Table.InstrumentedAllocate: the call statistics, alignment and zero filling are
  left out, because they do not touch the table.
- AllocationTable.Table.InstrumentedReallocate: the call statistics and the copying of contents are
  left out.
- AllocationTable.Table.InstrumentedFree: the free counter of the statistics is left out.
- AllocationTable.Table.PatrolThreadUpdateAllocationStates: the copy of the call statistics that it
  returns is left out.
- Ledger.StepKeepsInv: a realloc of a closely watched record whose new pages cannot be allocated is
  left out, because the code then copies the contents to the null address.
- Ledger.RunsKeepInv: the same.
- LeakReport.PatrolThreadMakeLeakReport: the sort is into the intended order, and the printed ratios
  are left out.
- PatrolThread.Monitor.Iterate: the endless loop is one turn at a time; sleeping, the automatic
  start, the statistics and the reports' text are not in it.
