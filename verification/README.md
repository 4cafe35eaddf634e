# Valkyrie: address space, snapshots and guest set-up

Valkyrie emulates Linux programs on a CPU engine (Unicorn). It keeps a list of mapped regions beside
the engine's own page map; system calls, loaders and the fuzzing layer edit both. This project models
that list, the engine's memory, and the code that keeps the two together, and proves what the rest of
the emulator relies on:

* over every interleaving of `brk`, `mmap`, `mprotect`, `munmap`, loader mappings and guest stores the
  recorded regions stay disjoint, non-empty, on pages and contained in the engine; the two cover the
  same addresses, with the same protections, all through a run if and only if no call of it does one of
  three things, each a condition on its arguments and the state before it: overmap a partly mapped range
  with MAP_FIXED, clear part of a region that reaches 2^64, or change the protection of part of a region;
* whatever calls an input makes, a restore that succeeds brings back the captured regions, protections,
  writable bytes, registers and guest state. It succeeds exactly when every snapshot region is on record
  throughout or unmapped throughout and the last page is not on record unless the snapshot has it, and it
  never unmaps what is off the record. From an orderly capture the next input starts from the captured
  addresses and no others, all through a session, if and only if no call of it does one of three things:
  overmap a partly mapped range with MAP_FIXED, map or unmap part of a snapshot region, or obtain a
  mapping up to 2^64 that the snapshot does not have;
* the first-fit search of `mmap`, the interval computations, the ELF mapper, the initial stack, the
  i386 thread descriptors, the hook table, the coverage map and the emulated standard input do what an
  independent description of each says.

## How it is built

The engine is a map from addresses to a protection and a byte (`Engine.dfy`). What the library does is
an assumption: `mem_map` refuses an empty, misaligned or overlapping range; `mem_unmap` and
`mem_protect` refuse a range that is misaligned or not mapped throughout, and accept an empty one;
reads and writes fail outside mapped memory. A refused call changes nothing.

Words are 64-bit values written out as integers. Sums the code leaves unchecked wrap, as in a build
without overflow checks, and `saturating_add` sticks; the difference matters in the last page. The
theorems hold with that page in use unless their row says otherwise, and give the condition it adds.

Objects the code updates in place are classes (`Engine.Unicorn`, `Memory.VMemory`,
`Emulator.Valkyrie`, `Hooks.VCoreHooks`, `Coverage.CoverageMap`, `Rounds.ReusableEmulator`), and each of
its procedures is a method proved to do what a function of the old state says (`BrkStep`, `MmapStep`,
`ThreadAreaStep`, `ReadStep` and so on). The theorems are about those functions, and about runs: lists
of calls, requests, hook operations, blocks or reads, of any length.

| file | contents |
|---|---|
| Words, Regions, Engine, Memory, Valkyrie, Bytes | words, region lists, the engine, the emulator object, words and strings in guest memory |
| Mmap, Syscalls, Effects, AddressSpace, Tracking, Protections, Heap, Placement | the memory system calls, what each delivers, and what every run of them keeps |
| Intervals, Fuzzing, Rounds, Restorability, Coverage, Stdin | snapshot and restore, the fuzzing loop, its coverage map and its input |
| Limits | small runs and inputs on which an expectation fails: a torn mapping, a shaved one, a mapping up to 2^64, a search without end, a mapping without room, a trap page at 0, a partly protected region, a half unmapped one, a last page that defeats every restore, a torn page that outlives one, a break that is not restored, a break that faults, a zeroed byte too many, a request inside the descriptor table, a lost read, an argument with a NUL |
| Sections, Elf, Stack, Tls | loading a program: labelled regions, segments, initial stack, thread descriptors |
| Hooks | the hook table and its dispatcher |

Where the code and its evident purpose part company the model does what the code does, the theorems
carry the exact condition, and `Limits` has inputs on which it fails. Three such places stand out. The
stack builders round before they push a frame whose length depends on the argument count, so the final
stack pointer is 16-byte aligned for one parity of that count only (`Stack.FinalSpAlignment`). An `mmap`
with MAP_FIXED drops its range from the list even when the engine refuses to unmap it
(`Limits.FixedMappingTears`), and what it has dropped no restore clears
(`Limits.TornPageOutlivesRestore`). And the saturated end of a region in the last page makes a restore
ask the engine for a range that is not whole pages, which it refuses (`Limits.LastPageDefeatsRestore`).

## Model

| member | source | states |
|---|---|---|
| Words.WordSums | src/common.rs:7-35 | unchecked sums and differences are modulo 2^64, saturating ones stick at the ends |
| Words.AlignDown | src/common.rs:7-12 | the page boundary at or below the value, less than a page away |
| Words.AlignUp | src/common.rs:14-19 | the page boundary at or above the value, or 0 within a page of the top of the address space |
| Words.AlignUpIsLeast | src/common.rs:14-19 | rounding up gives the least boundary at or above the value exactly when one fits a word |
| Bytes.WordRoundTrip | src/common.rs:37-47 | a word that fits its width comes back from its little-endian bytes |
| Bytes.BytesRoundTrip | src/common.rs:37-47 | and the bytes come back from the word |
| Bytes.LowBytes | src/common.rs:37-40 | cutting a word to a width keeps it modulo 256 to that width |
| Bytes.FourBytes | src/common.rs:37-47 | a word of four bytes has the lowest first, in plain powers of 256 |
| Bytes.EightBytes | src/common.rs:37-47 | so has one of eight |
| Bytes.WriteWord | src/common.rs:37-40 | succeeds exactly on mapped memory, and then a guest reads the value cut to its width there |
| Bytes.ReadWord | src/common.rs:42-47 | the zero-extended word a guest reads there, exactly on mapped memory |
| Bytes.CStringOf | src/os/linux.rs:125-129 | a string stored with a NUL is read back up to its first NUL |
| Regions.RegionForFinds | src/memory.rs:180-184 | the lookup finds a region exactly when one that stops short of 2^64 has the address, and it is the one the address is recorded in |
| Regions.RemoveRangeTags | src/memory.rs:186-221 | for any list and every address but the last, exactly the addresses of the range are gone and every other keeps its protection and label |
| Regions.RemoveRangeTop | src/memory.rs:186-221 | the last address of all is lost by exactly the regions the range meets, whether or not it is in the range |
| Regions.RemoveRangeCommutes | src/memory.rs:186-221 | two removals in either order leave the same coverage, protections and labels, at every address |
| Regions.RemoveRangeKeepsShape | src/memory.rs:186-221 | disjointness, non-emptiness and page starts survive, and no removed address stays covered |
| Regions.RemoveRangeExact | src/memory.rs:186-221 | on whole pages short of the last, coverage afterwards is exactly coverage minus the range |
| Regions.RemoveRangeSized | src/memory.rs:186-221 | so it is with the last page in use, unless the range ends inside a region that reaches 2^64 |
| Regions.ShavingLosesTop | src/memory.rs:191-217 | then the last address is no longer on record |
| Limits.LastByteIsLost | src/memory.rs:191-217 | a region that reaches the end of the address space loses its last byte with its first page |
| Memory.VMemory.Map | src/memory.rs:52-78 | appends the region exactly when the engine maps it, and neither changes otherwise |
| Memory.VMemory.Write | src/memory.rs:80-91 | writes exactly on mapped memory; an empty write is an error |
| Memory.VMemory.Read | src/memory.rs:93-102 | the bytes there, exactly on mapped memory; an empty read is an error |
| Memory.VMemory.RemoveRange | src/memory.rs:186-221 | the drained and rebuilt list is the removal the lemmas above speak of |
| Mmap.Scan | src/os/syscall/memory.rs:115-135 | the independent reference: the least free page from a start, None exactly when there is none |
| Mmap.ScanSkips | src/os/syscall/memory.rs:126-131 | jumping to the end of a region that is met misses no free page, and always moves up short of the last page |
| Mmap.Search | src/os/syscall/memory.rs:115-135 | the jumping loop ends and returns what trying page after page finds, after that many turns: at most one for each region, or two with a region in the last page; it needs no more than some page-aligned address that meets no region |
| Mmap.SearchFindsExactly | src/os/syscall/memory.rs:115-135 | there is an answer if and only if some page-aligned address meets no region |
| Mmap.SearchHangs | src/os/syscall/memory.rs:115-135 | without such an address the loop turns for ever |
| Mmap.SearchIgnoresOrder | src/os/syscall/memory.rs:120-131 | the answer does not depend on the order of the region list |
| Mmap.SearchStartIs | src/os/syscall/memory.rs:115-119 | the page-aligned addresses the search may begin at are those 256 MiB or more above the break, or all of them when that is past the last page |
| Mmap.SearchSucceeds | src/os/syscall/memory.rs:115-135 | while no region reaches the last page there is an answer: the least page-aligned address 256 MiB or more above the break on whose range no region lies |
| Syscalls.MappedHeapEndIsMax | src/os/syscall/memory.rs:22-30 | the greatest end of a heap region, the break without one |
| Syscalls.HeapLimitIsMin | src/os/syscall/memory.rs:31-38 | the least start of another region above the heap |
| Syscalls.SysBrk | src/os/syscall/memory.rs:14-58 | the whole effect on list, engine and break, and the answer, in every branch |
| Syscalls.MapFileBytes | src/os/syscall/memory.rs:137-161 | file bytes then zeros over the mapping; EBADF, EIO or a fault otherwise |
| Syscalls.MmapAnswers | src/os/syscall/memory.rs:163-213 | the answer to every request in numbers: -22 for a length of 0 or an address off a page, -12 for a range the engine does not take, -9 or -5 for a file that is not open or not readable, none at all without an address to find, else the address; bit 4 of the flags is MAP_FIXED and bit 5 MAP_ANONYMOUS |
| Syscalls.SysMmap | src/os/syscall/memory.rs:163-213 | the whole effect and answer of a request, provided a search it makes has a page to find |
| Syscalls.MmapHangsExactly | src/os/syscall/memory.rs:163-184 | a request is never answered exactly when it searches and no page-aligned address meets no region |
| Syscalls.ReprotectRegions | src/os/syscall/memory.rs:244-249 | every region that meets the range changes as a whole, no other does |
| Syscalls.SysMprotect | src/os/syscall/memory.rs:228-252 | the whole effect and answer |
| Syscalls.SysMunmap | src/os/syscall/memory.rs:254-278 | the whole effect and answer, with its order of refusals |
| Effects.BrkDelivers | src/os/syscall/memory.rs:14-58 | with list and engine equal and the heap in order brk answers with the break as it then is; the heap grows by zeroed pages, shrinking unmaps nothing, no other address differs |
| Effects.BrkRecords | src/os/syscall/memory.rs:14-58 | the growth is recorded with all three permissions and labelled "[heap]"; no other record changes |
| Effects.MmapDelivers | src/os/syscall/memory.rs:163-213 | a granted mapping is the whole rounded length, fresh unless bit 4 of the flags is set and at the given address with it; each of its cells is readable, writable and executable exactly when bits 0, 1 and 2 of the protection argument are set, with the byte of the file or zero; no other address differs |
| Effects.MmapRecords | src/os/syscall/memory.rs:163-213 | and so it is recorded, by the same three bits and labelled "[mmap]"; no other record changes |
| Effects.FileBufferBytes | src/os/syscall/memory.rs:156-159 | the bytes of the file, then zeros |
| Effects.FailedFileStaysMapped | src/os/syscall/memory.rs:137-161 | -9 is the answer exactly for a descriptor that is not open and -5 for one that cannot be read; the mapping has been made all the same, with the three permission bits and zeros |
| Effects.MunmapDelivers | src/os/syscall/memory.rs:254-278 | with list and engine equal: 0 exactly for sound arguments over a range on record throughout, which is then gone; EINVAL and no change otherwise; outside the range memory and record stay, but for the record of the last address, lost exactly when the range ends inside a region that has it |
| Effects.MprotectDelivers | src/os/syscall/memory.rs:228-252 | with list and engine equal: 0 exactly for pages on record throughout; each of them is then readable, writable and executable exactly when bits 0, 1 and 2 of the argument are set; no byte and no other protection differs |
| Protections.MprotectRecords | src/os/syscall/memory.rs:228-252 | every region that meets the pages, short of 2^64, is recorded as a whole with the permissions of the three bits; no other record changes |
| AddressSpace.StepInv | src/os/syscall/memory.rs:14-278 | each call, whatever its arguments, keeps regions non-empty, on pages, disjoint and contained in the engine |
| AddressSpace.RunInv | src/os/syscall/memory.rs:14-278 | so does every run |
| AddressSpace.ClearedSame | src/os/syscall/memory.rs:189-192 | clearing a range for MAP_FIXED keeps list and engine together exactly when it is neither partly mapped nor ends inside a region that reaches 2^64 |
| AddressSpace.ClearedAgree | src/os/syscall/memory.rs:189-192 | with the last page out of use, exactly when the range is not partly mapped |
| AddressSpace.StepSame | src/os/syscall/memory.rs:14-278 | list and engine cover the same addresses after a call if and only if it neither overmaps a partly mapped range with MAP_FIXED nor clears part, and not the end, of a region that reaches 2^64 |
| AddressSpace.RunSame | src/os/syscall/memory.rs:14-278 | they do so all through a run if and only if no call of it tears or shaves |
| AddressSpace.StepAgree | src/os/syscall/memory.rs:14-278 | the same with the last page out of use survives a call if and only if it neither tears nor is granted a mapping up to 2^64, both conditions on the state before |
| AddressSpace.RunAgree | src/os/syscall/memory.rs:14-278 | it holds all through a run if and only if every call of it is such a call |
| Tracking.StepFlips | src/os/syscall/memory.rs:14-278 | a call changes what is mapped in one range, all mapped or all unmapped before, and nowhere else |
| Tracking.StepTracked | src/os/syscall/memory.rs:14-278 | each call, whatever its arguments, keeps the invariant, regions that end on a page or a byte short of 2^64, and an engine that maps whole pages |
| Tracking.RunTracked | src/os/syscall/memory.rs:14-278 | so does every run: these are the states a run can be in |
| Tracking.StepOnRecord | src/os/syscall/memory.rs:189-200 | a call leaves some address but the last one mapped and not on record if and only if it overmaps a partly mapped range with MAP_FIXED |
| Tracking.AgreeIsOnRecord | src/memory.rs:186-221 | with nothing else off the record and the last page out of use, list and engine agree |
| Limits.FixedMappingTears | src/os/syscall/memory.rs:189-200 | a request that tears: the guest is told ENOMEM and a mapped page is no longer on record |
| Limits.UnmappingShavesTheTop | src/os/syscall/memory.rs:254-278 | two pages mapped up to 2^64 and the first unmapped: the answer is 0, and the last byte is mapped and not on record |
| Protections.StepProts | src/os/syscall/memory.rs:14-278 | recorded and enforced protections, and the covered addresses, stay equal through a call if and only if it neither tears nor shaves and, if an mprotect, changes no region in part |
| Protections.RunProts | src/os/syscall/memory.rs:14-278 | they stay equal all through a run if and only if every call of it is such a call |
| Protections.RestoreRepairs | src/fuzzing.rs:273-338 | a successful restore, from whatever state, puts the captured protections back in force, and the whole cell wherever the guest may write |
| Limits.PartialProtectIsRecordedWhole | src/os/syscall/memory.rs:244-249 | protecting one page of a region records the other one so as well |
| Limits.MmapHangs | src/os/syscall/memory.rs:115-135 | with the last page mapped, a request for nearly the whole address space is never answered |
| Limits.MmapHasNoRoom | src/os/syscall/memory.rs:196-201 | without it, the same request is refused with ENOMEM though an address was found |
| Limits.TrapWrapsToZero | src/lib.rs:436-445 | with the page below the last mapped, trap page and interpreter base are address 0 |
| Limits.BrkFaults | src/os/syscall/memory.rs:45-54 | a guest that trades its heap page for a mapping across the break makes the next brk fail inside the emulator |
| Heap.StepHeap | src/os/syscall/memory.rs:14-278 | the heap regions fill the heap without a gap up to the break after a call if and only if what the call takes off the list is off the heap or is all of its end above the break, and a loader mapping with the heap label goes on where the heap ends |
| Heap.RunHeap | src/os/syscall/memory.rs:14-278 | they do so all through a run if and only if every call of it is such a call |
| Heap.HeapIsMapped | src/os/syscall/memory.rs:14-58 | in such a run every address from heap start to break is mapped, in a heap region, through growth, shrinking and regrowth |
| Heap.LoadedHeap | src/loader/elf.rs:134-144 | what the loader sets up below the last page is such a heap |
| Placement.TrapIsFree | src/lib.rs:436-452 | the trap page lies exactly a page above the highest end of a region when there is that much room, and is mappable; it is 0x1000 in an empty space and 0 without room; the last page may be in use |
| Placement.SetupTrap | src/lib.rs:427-467 | the page is mapped once, at that address, and recorded if the engine takes its hook; without the hook the page stays mapped and the call fails; nothing happens when it is there or not needed |
| Placement.SharedObjectBaseIsFree | src/loader/elf.rs:185-195 | the interpreter base lies exactly 16 MiB above the highest end of a region when there is room, and all from it on is unmapped; it is 0x0100_0000 in an empty space and 0 without room |
| Placement.MmapRefusal | src/os/syscall/memory.rs:183-201 | without MAP_FIXED an address is found exactly when some page-aligned one meets no region, always with the last page out of use; then -12 is the answer exactly when the length rounds to 0 or, the last page out of use, no page-aligned address 256 MiB or more above the break has room for it |
| Placement.BrkFaultsExactly | src/os/syscall/memory.rs:22-54 | brk fails inside the emulator exactly when the request passes the limit tests and either no heap region is left and another straddles the break, or a heap region that reaches 2^64 starts below the new break |
| Intervals.SubtractSnapshotCoverage | src/fuzzing.rs:340-383 | exactly the addresses of the range outside the snapshot, as non-empty, disjoint, ascending segments, for any list; whole pages from whole pages, but for a last segment that ends at the saturated end |
| Intervals.IsRangeMapped | src/fuzzing.rs:385-406 | for a non-empty range, true if and only if every address lies in some region, whatever order and overlaps |
| Fuzzing.RestoreMemoryLayout | src/fuzzing.rs:311-338 | whatever the state before, a success leaves the list of the snapshot with every address of it mapped as recorded; in any state a run can be in it succeeds exactly when every snapshot region is on record throughout or unmapped throughout and the last page is not on record unless the snapshot has it, and the engine is then a given function of the state before |
| Fuzzing.ReadRegionSnapshot | src/fuzzing.rs:294-309 | the bytes of the range exactly when it is mapped and, if not readable, whole pages; protections are set back to the recorded ones |
| Fuzzing.CaptureSnapshot | src/fuzzing.rs:234-271 | in any state a run can be in, succeeds exactly when every writable region is readable or whole pages, holds every writable region byte for byte, and changes no byte |
| Fuzzing.RestoreSnapshot | src/fuzzing.rs:273-292 | whatever the state before, a success brings back regions, protections, saved bytes, registers and guest state; in any state a run can be in it succeeds exactly when the layout is restorable, and memory is then a given function of the state before and the snapshot |
| Rounds.RestoreBringsBack | src/fuzzing.rs:234-338 | after capture, anything and a successful restore: every recorded address is mapped, with the recorded protection, and every byte recorded writable is back |
| Rounds.ReadOnlyBytesAreLeft | src/fuzzing.rs:239-258 | a byte recorded read-only is what the run left there, zero if it was unmapped |
| Rounds.RunThenRestore | src/fuzzing.rs:75-87 | the same through any run of calls whose restore succeeds; what else is then mapped is what was mapped without being on record |
| Rounds.ResetMaps | src/fuzzing.rs:311-338 | after a restore the engine maps the snapshot and what was mapped without being on record, which no restore clears |
| Rounds.ResetSame | src/fuzzing.rs:311-338 | after a successful restore list and engine cover the same addresses if and only if nothing but perhaps the last address was off the record before |
| Rounds.EveryInputStartsAlike | src/fuzzing.rs:75-87 | after any number of inputs, whatever calls they made, once every restore has succeeded the next one finds the captured addresses, protections and writable bytes |
| Restorability.StepNoneHalf | src/fuzzing.rs:325-333 | no snapshot region is mapped in part after a call if and only if the call maps or unmaps none in part |
| Restorability.ReadyExactly | src/fuzzing.rs:311-338 | in any state a run can be in, a restore succeeds and leaves mapped just the snapshot if and only if nothing but perhaps the last address is off the record, no snapshot region is half mapped, and the last page is unmapped or in the snapshot |
| Restorability.StepReady | src/fuzzing.rs:311-338 | so it is after a call if and only if the call tears nothing, maps or unmaps no snapshot region in part, and is granted a mapping up to 2^64 only if the snapshot has the last page: all conditions on the state before |
| Restorability.RunReady | src/fuzzing.rs:311-338 | so it is all through a run if and only if every call of it is such a call |
| Restorability.SessionReady | src/fuzzing.rs:75-87 | and all through a session of runs and restores, wherever an input is stopped, if and only if every call of every input is; then every restore succeeds |
| Restorability.CapturedIsReady | src/fuzzing.rs:234-271 | where list and engine are equal a snapshot just taken is ready to be restored |
| Restorability.TidyInputsStartAlike | src/fuzzing.rs:75-87 | from the capture of an orderly space on, any number of inputs made of such calls start from the captured addresses and no others, with the captured protections and writable bytes |
| Rounds.InputsStartAlike | src/fuzzing.rs:75-87 | any two successful restores of a snapshot leave the same protections and the same writable bytes on its addresses |
| Rounds.RestoringTwice | src/fuzzing.rs:273-292 | what a successful restore leaves can be restored, and that changes nothing |
| Rounds.RestoredHeap | src/fuzzing.rs:34-44 | the break is not restored: the heap is in order afterwards exactly when the run left the break within the captured heap |
| Rounds.ReusableEmulator.PrepareInput | src/fuzzing.rs:75-87 | before each input, whatever the state before: on success memory, registers, guest state, input, run state and coverage are the snapshot's or cleared; in any state a run can be in, success exactly when the layout is restorable |
| Limits.HalfARegionIsNotRestorable | src/fuzzing.rs:325-328 | unmapping half a region keeps agreement and makes every later restore fail |
| Limits.LastPageDefeatsRestore | src/fuzzing.rs:311-347 | one mapping of the last page keeps list and engine equal and makes every later restore fail |
| Limits.TornPageOutlivesRestore | src/fuzzing.rs:311-338 | after a torn mapping a restore succeeds and leaves a page mapped that the snapshot does not have |
| Limits.BreakSurvivesRestore | src/fuzzing.rs:34-44 | a moved break outlives the restore of the one-page heap behind it |
| Coverage.CoverageMap.Clear | src/fuzzing.rs:224-232 | all slots and the previous location are zero, unless the map is empty |
| Coverage.CoverageMap.OnBlock | src/fuzzing.rs:203-213 | the in-place update is one more block of the trace |
| Coverage.SlotsCountEdges | src/fuzzing.rs:203-213 | each slot is the number of consecutive block pairs that fall on it, capped at 255: a block is its address from bit 4 up, modulo the length, combined bit by bit with half of that of the block before |
| Coverage.XorBits | src/fuzzing.rs:203-213 | the combination has exactly the bits in which the two differ |
| Stdin.SysReadStdin | src/os/syscall/io.rs:303-362 | the whole effect of a read of descriptor 0 on offset, memory and answer |
| Stdin.HostReadDelivers | src/os/syscall/io.rs:303-362 | with no input configured the guest finds what the host has given, up to the count, and is told how much; the negated error of the host, or a fault on unmapped memory, changes nothing |
| Stdin.EmptyReadDoesNothing | src/os/syscall/io.rs:308-310 | a read of no bytes is answered with 0 and takes and writes nothing, whatever the input |
| Stdin.OffsetIsTotal | src/os/syscall/io.rs:314-320 | after any reads the offset has moved by the sum of their counts, or to the end |
| Stdin.ReceivedIsPrefix | src/os/syscall/io.rs:314-359 | what the guest finds in its buffers is exactly the input up to the offset, in order and once, if and only if no read failed on its buffer |
| Stdin.FaultsExactly | src/os/syscall/io.rs:314-359 | a read fails on its buffer, and loses its bytes, exactly when the part it would fill is not mapped |
| Limits.ReadLosesInput | src/os/syscall/io.rs:314-359 | a read into unmapped memory fails and the next one answers 0 |
| Stdin.ExhaustedReadsNothing | src/os/syscall/io.rs:321-328 | once the input is used up every read answers 0 and touches nothing |
| Stdin.SizesDoNotMatter | src/os/syscall/io.rs:314-320 | reads that ask for as much between them deliver the same bytes, however they are cut |
| Emulator.Valkyrie.ResetExecutionState | src/lib.rs:211-216 | run state, exit status, crash flag and input offset are back at their start |
| Emulator.Valkyrie.SetStdinBytes | src/lib.rs:219-223 | the new input, from its beginning |
| Sections.BestIsUnique | src/loader/elf.rs:342-361 | there is one first section of greatest overlap with a page |
| Sections.PageIsNamed | src/loader/elf.rs:342-361 | a page is named after the first of the sections that have most of its addresses, counted one by one, and "[segment]" when none has any |
| Sections.SectionNameForPage | src/loader/elf.rs:342-361 | the label is that section's name, or the default when none overlaps |
| Sections.PrefixedLabel | src/loader/elf.rs:409-415 | the label of a section whose name has no bracket at its ends is "[prefix:name]" |
| Sections.ChunksAreRuns | src/loader/elf.rs:363-407 | the chunks lie end to end over the segment, decode to the label of every page, and adjacent ones differ |
| Sections.RunsAreUnique | src/loader/elf.rs:363-407 | no other list of chunks has these properties |
| Sections.MapSegmentBySection | src/loader/elf.rs:363-407 | the loop maps exactly these chunks in order, up to the first refusal |
| Sections.ChunksMapLikeOne | src/loader/elf.rs:363-407 | cutting a segment up makes no difference to the engine: accepted exactly when the whole range would be, with the same memory |
| Sections.MapChunksAgree | src/loader/elf.rs:363-407 | mapping chunks keeps list and engine in agreement with the last page out of use |
| Elf.ZeroFill | src/common.rs:21-35 | zeros exactly the range, failing exactly when part of it is unmapped, except that one byte past 2^64 is let pass behind whole pages |
| Limits.ZeroingPassesTheEnd | src/common.rs:21-35 | a mapped last page and one byte more are zeroed with success |
| Elf.MapSegment | src/loader/elf.rs:211-249 | with the last page out of use, one segment whose content is no longer than its memory goes in exactly when its pages are unmapped and in reach; then every address of the pages of load bias plus virtual address has the content byte that belongs there or zero, with the permissions of the header |
| Elf.MapElfBinary | src/loader/elf.rs:197-253 | with the last page out of use and content no longer than memory, succeeds exactly when some segment loads, each that does ends below the last page at load bias plus virtual address plus size, on pages unmapped at the start, and no two share a page; every segment is then in memory there, and the result is the tight page hull of these sums |
| Elf.FileIsLoaded | src/loader/elf.rs:211-249 | every address on a page of a loaded segment, counted from load bias plus virtual address, has its content byte or zero, and permissions by bits 2, 1 and 0 of the header flags ("Segment Permissions" in chapter 5 of the System V gABI) |
| Elf.SegmentsAreLoaded | src/loader/elf.rs:233-245 | every byte of a loaded segment is its file content, then zero to the end of its last page, with its protection |
| Elf.OldMemoryStays | src/loader/elf.rs:211-249 | nothing mapped before is touched |
| Elf.OnlySegmentsAreLoaded | src/loader/elf.rs:211-249 | every new address lies on a page of a loaded segment |
| Elf.LoadedPagesAreDisjoint | src/loader/elf.rs:211-249 | two segments that share a page are never both loaded |
| Elf.LoadsExactly | src/loader/elf.rs:211-249 | loading one after the other succeeds exactly when each could be loaded alone and no two share a page |
| Elf.LoadableExactly | src/loader/elf.rs:211-249 | and what that takes, in the sums of the headers: ends below the last page, pages unmapped, none in common |
| Stack.GuestArgv | src/os/linux.rs:53-64 | the configured arguments, else the executable name, else "valkyrie-rs" |
| Stack.PushStrings | src/os/linux.rs:118-135 | when they fit below it, random bytes and strings are in place below the stack pointer, nothing else changes, and it fails exactly on unmapped stack |
| Stack.WriteFrame | src/os/linux.rs:147-152 | when they fit below 2^64, the words of the frame lie one above the other, failing exactly on unmapped stack |
| Stack.SetupStack | src/os/linux.rs:115-203 | with room, succeeds exactly when the stack is mapped, and a guest that parses it finds argc, arguments, an empty environment and an auxiliary vector with each key once and under each number of the psABI the field it is for, leading to sixteen bytes 0x42 and to the first argument; nothing else changes |
| Stack.AuxPairsAre | src/os/linux.rs:317-390 | the vector has exactly: 3, 4, 5 program headers, 7 interpreter base, 9 entry, 11 to 14 the ids, 17 is 100, 23 is 0, 31 the file name, with the loader's information; 6 is 4096 and 25 the random bytes always; cut to 32 bits on i386 |
| Stack.ParseBuilt | src/os/linux.rs:138-152 | parsing the finished stack gives back each argument up to its first NUL and the auxiliary vector, pair by pair (section 3.4.1 of the System V AMD64 psABI) |
| Stack.ReadBackIsSame | src/os/linux.rs:125-129 | the arguments come back unchanged if and only if none has a NUL in it |
| Limits.ArgumentsAreCut | src/os/linux.rs:118-147 | an argument with a NUL is cut short, and two arguments leave a 64-bit stack pointer misaligned |
| Stack.LayoutOrder | src/os/linux.rs:118-147 | frame, strings and random bytes lie in this order below the initial stack pointer, without overlap |
| Stack.FinalSpAlignment | src/os/linux.rs:136-147 | the final stack pointer is 16-byte aligned exactly for odd argc on x86_64, and for argc leaving 3 modulo 4 on i386 |
| Tls.DescriptorRoundTrip | src/os/linux.rs:295-311 | base, 20-bit limit, access and flags come back from the packed descriptor (section 3.4.5 of volume 3A of the Intel Software Developer's Manual) |
| Tls.DecodeInjective | src/os/syscall/thread.rs:188-201 | two descriptors that decode alike are the same eight bytes |
| Tls.PackedIsNotZero | src/os/syscall/thread.rs:142-201 | the descriptor of a non-empty request is never all zeros |
| Tls.FindFreeTlsEntry | src/os/syscall/thread.rs:130-140 | the first all-zero slot of 6 to 8, none, or unreadable |
| Tls.SysSetThreadArea | src/os/syscall/thread.rs:203-255 | the whole effect on guest memory and the answer, with its order of refusals, as a function that AreaIsSet, AreaRefusals and StepRefines characterise |
| Tls.AreaIsSet | src/os/syscall/thread.rs:142-255 | a call answered with 0 has set the slot asked for, or with -1 the lowest that was all zeros: its eight bytes have the base, limit, type and flag bits of the four words in guest memory, position by position, present and privilege 3 included, or are zeros for a request to clear |
| Tls.AreaRefusals | src/os/syscall/thread.rs:203-216 | -38 off i386, -14 for a null pointer, a fault on unmapped memory, in this order |
| Tls.RequestFields | src/os/syscall/thread.rs:65-92 | the request is four little-endian words: number, base, limit, flags |
| Tls.StepRefines | src/os/syscall/thread.rs:203-255 | on the table's bytes a call does what "set, clear or take the first free slot" does to three slots, the descriptor being given by the bits of the flags word, with slots 0 to 5 unchanged, if and only if it is not an automatic request lying in the table itself with a limit of at most 20 bits, a segment type other than 3 and some slot of 6 to 8 all zero |
| Limits.RequestSpoilsTable | src/os/syscall/thread.rs:203-255 | any valid automatic request stored at the start of the table is granted and changes descriptor 0 |
| Tls.SlotIsToldBack | src/os/syscall/thread.rs:88-92 | the guest finds the number of its slot where it asked |
| Tls.AutoTakesLowestFree | src/os/syscall/thread.rs:203-255 | an automatic request granted from outside the table takes the lowest all-zero slot and never one that is set, tells its number and stores the descriptor the bits of its flags word ask for |
| Tls.RequestsRefine | src/os/syscall/thread.rs:203-255 | over any sequence of requests every answer and the table are those of the three-slot description |
| Hooks.VCoreHooks.EnsureDispatcher | src/hook.rs:139-269 | an engine hook is added and recorded exactly when there was none |
| Hooks.VCoreHooks.EnsureAddrDispatcher | src/hook.rs:271-292 | the same for an address |
| Hooks.VCoreHooks.AddHook | src/hook.rs:355-559 | succeeds exactly with an engine hook there or granted; then the list of the type is one hook longer, with the range, callback and id given, and no other list changes; else nothing does |
| Hooks.VCoreHooks.AddAddress | src/hook.rs:561-592 | the same for an address |
| Hooks.VCoreHooks.Delete | src/hook.rs:596-626 | the id leaves its list, an emptied list goes with its engine hook, and an error is exactly the engine refusing that |
| Hooks.VCoreHooks.Clear | src/hook.rs:628-641 | empties the table and lets go of its engine hooks; it fails exactly when one is refused, and then the table is no longer in order |
| Hooks.AddedIsOneMore | src/hook.rs:355-559 | registering puts one new id at the end of its list, and no other list or engine hook changes (what it makes run is RegisteredRuns) |
| Hooks.AddedAddrIsOneMore | src/hook.rs:561-592 | the same for an address |
| Hooks.RegisteredRuns | src/hook.rs:296-559 | an event then runs the hooks it ran before, followed by the new one exactly when the event is of its type and, if it has an address, begin <= address <= end or the range is (1, 0) |
| Hooks.RegisteredRunsAt | src/hook.rs:341-592 | at its address the new hook runs after those there were, and nowhere else |
| Hooks.DeletedIds | src/hook.rs:596-626 | a deletion takes the id out of its own list and out of no other, and the rest keep their order |
| Hooks.DeletedRuns | src/hook.rs:596-626 | after a deletion an event runs the hooks it ran before but for the deleted one |
| Hooks.DeletedRunsAt | src/hook.rs:596-626 | and so does an address |
| Hooks.StepKeeps | src/hook.rs:355-641 | each successful operation keeps: an engine hook on record exactly for a non-empty list, one handle per list, ids ascending, unique and below the next |
| Hooks.RunKeeps | src/hook.rs:355-641 | so does every run |
| Hooks.NewTableRuns | src/hook.rs:113-121 | in particular from a new table on |
| Hooks.DispatchCommon | src/hook.rs:296-339 | exactly the hooks run whose range has the address, ends included, or is (1, 0), in registration order, up to the first that answers with bit 0 set; an error exactly for an unmapped or protected access, interrupt or invalid instruction that concerned none |
| Hooks.DispatchAddr | src/hook.rs:341-351 | the hooks of an address run in registration order up to the first that blocks |

## Left out

- Syscalls.SysMmap: takes only requests that are answered; MmapHangsExactly says which are not, and Mmap.SearchHangs that they never are. The descriptor's file is a parameter, so `sys_mmap2`, which differs in the file offset only, is the same model.
- Fuzzing.RestoreMemoryLayout: says nothing about the half-restored state after a failure, which the fuzzing loop does not go on from. Its exact condition is for states that keep what every run keeps (Tracking.RunTracked).
- Fuzzing.RestoreSnapshot: the same; saving and restoring the engine's registers is assumed to work. A snapshot of a state with a region that ends a byte short of 2^64 is never restored (`Fuzzing.Mappable`).
- Rounds.ReusableEmulator.PrepareInput: stops where the guest starts; descriptors opened by an earlier input and the break are not part of a snapshot.
- Elf.MapElfBinary: stops before the look-up of the program headers' address and the entry point; a file part longer than the memory part, and a last page in use before the load, are outside its promise.
- Stack.SetupStack: promises nothing when the strings and frame do not fit between address 0 and the initial stack pointer, where the code wraps around; the stack pointer is a parameter and a result instead of a register.
- Tls.RequestsRefine: requests that the guest stores over the table are excluded; StepRefines gives the exact condition for one call.
- Hooks.StepKeeps: covers operations that go well; after a failed clear the table is not in order (VCoreHooks.Clear), and the id counter is unbounded.
- Stdin.SysReadStdin: a count the host cannot allocate a buffer for ends the original; here it is an ordinary read. What the host's own input yields is a parameter.
- Bytes.WriteWord: widths above 8 are a panic in the original and excluded.
- The engine itself: instruction execution, registers by number, and what it does with a misaligned or empty range beyond the assumptions above.
- Callbacks: a callback is a function of the emulator state, its user data included in that; callbacks that edit the table while it dispatches are not modelled, nor is the raw-pointer handling of `HookEnv`.
- Files, sockets, timers and all other host-delegating system calls, the descriptor table, `arch_prctl`.
- Register and stack dumps, disassembly, logging, configuration, path resolution, system-call numbers.
- `vstruct` and the stat packers: fixed-width byte packing that would add easy members only.
