# OS/161 virtual memory, descriptor tables and child events, modelled in Dafny

This project models the core of an OS/161 kernel: the TPVM virtual-memory system and the
per-process file and event tables.

- **Coremap.** One record per physical frame, with first-fit allocation of contiguous runs
  (`Find_EmptyPages`), tagging by `alloc_kpages` / `alloc_kpages_swapable`, and the
  `next`-chain walk of `free_kpages`.
- **Swap store.** A bitmap of page-sized slots in a swap file, with `SwapOut` and `SwapIn`
  on a page-table entry.
- **TLB.** 64 (EntryHi, EntryLo) pairs. Slot 0 is reserved for the coremap mapping,
  `WriteToTlb` picks the first invalid slot, and `as_activate` flushes.
- **Address spaces.** Four segments (code, data, heap, stack), each an ordered PTE list
  with a start and a byte bound. The operations are `as_create`, `as_define_region`,
  `as_prepare_load`, `as_define_stack`, `as_pagefault` with one-page stack growth,
  `as_copy` and `as_destroy`.
- **Eviction and faults.** `SwapSomePage` evicts the whole address space owning the lowest
  swapable frame. `vm_fault` installs a mapping.
- **Descriptor tables.** The reference-counted `files_struct` table and open files, plus
  `file_lseek` and `sys_dup2`.
- **Child events.** The 20-entry child-event array that `sys_exit` fills and one scan of
  `sys_waitpid` drains.

## How the model is built

- **Immutable state.** Every operation is a pure transition on immutable records of
  sequences. Locks are dropped and each operation is atomic.
- **Kernel assertions.** A `KASSERT` failure or a NULL dereference the code would hit is
  the `Panic` case of `Result`. NULL results of `kmalloc` are the exception: allocation
  failure is not modelled (see "Left out"). The exceptions are the argument assertions of
  `sys_waitpid`, `Find_EmptyPages` (`npages >= 1`), and the slot bound of `SwapIn`; these
  are preconditions.
- **Error returns.** Errors the code returns (`EBADF`, `EFAULT`, `ESPIPE`, `EINVAL`,
  `ENOSYS`) are values. Errno numbers are symbolic.
- **Integer widths.** 32-bit (`vaddr_t`, `paddr_t`, `size_t`, `uint32_t`) and 64-bit
  (`off_t`, the file offset) arithmetic is written out with `Wrap32`, `Wrap64` and
  `ToSigned64` wherever it can wrap.
- **Frames.** Frames handed out by `alloc_kpages(1)` inside address-space operations are a
  parameter, `frames`, given in call order. `Kernel.AllocKPages` models the coremap side
  of that call.
- **Page contents.** Physical page contents are a function from physical frame address to
  page (`Ram`). The swap file is a function from byte offset to page (`Disk`).
- **Victim lookup.** The chain from a frame's owning thread to its process's address space
  is the map `Vm.spaces`.

The model follows the code as written, including where the code departs from what its
own names and comments evidently mean:

- **No residency check in `SwapOut`.** `SwapOut` does not check residency. It overwrites
  `pte->virtual` with the slot offset, then hands that offset to `free_kpages`. The code
  evidently means to free the victim's frame, but the value it frees is no longer a frame
  address; the model follows the code.
  - The offset lies below `MIPS_KSEG0`, so the index `free_kpages` computes falls past the
    coremap and its `KASSERT` fails (`Swap.SwapOut`, `Coremap.LowAddressIsNoFrame`).
  - Consequently eviction never completes when the victim has any PTE
    (`Kernel.SwapSomePage`).
  - `alloc_kpages` succeeds exactly when the first fit succeeds (`Kernel.AllocKPages`).
- **`SwapIn` leaves `physical` stale, and nothing calls it.** `SwapIn` reads the page back
  into a new frame but does not update `pte->physical` (`Swap.SwapOutThenInRestores`).
  Its only caller, `SwapInPages`, is reached only behind `if (false)` in `as_activate`.
- **`vm_fault` never swaps in.** `vm_fault` installs `pte->physical` without looking at the
  PTE's residency, so no path brings a swapped-out page back in; `Fault.VmFault` does the
  same.
- **`as_destroy` frees regardless of residency.** `as_destroy` frees every PTE's `virtual`
  field. A swapped-out or never-backed PTE therefore makes it halt
  (`Kernel.DestroySpace`, `Kernel.DestroyAfterSwapOutHalts`).
- **`ExpandStack` re-backs the whole stack.** `ExpandStack` runs `SegmentMake` over the
  whole stack list, so every stack page gets a fresh zeroed frame (`AddrSpace.ExpandStack`).
- **`dup2` onto an open descriptor halts.** `sys_dup2` onto an open descriptor closes it
  and then calls `files_struct_set(..., NULL)`, whose `KASSERT(file != NULL)` halts. The
  same call also halts for descriptor 0 and for descriptors past the table
  (`Dup2.Dup2`).

Modules, one per file: `Common` (common.dfy), `Coremap`, `PageTable`, `Swap`, `Tlb`,
`AddrSpace`, `Kernel`, `Fault`, `FileTable`, `Dup2`, `ProcEvents` (events.dfy).

## Model

| member | source | states |
|---|---|---|
| Coremap.Boot | kern/arch/mips/vm/tpvm.c:89-102 | the boot coremap has every record cleared, Empty == Total and no swapable frame, and satisfies the coremap invariant |
| Coremap.CoremapUsedBytes | kern/arch/mips/vm/tpvm.c:297-301 | under the invariant, (Total - Empty) * PAGE_SIZE is the number of used records times PAGE_SIZE and fits in 32 bits |
| Coremap.FirstFit | kern/arch/mips/vm/tpvm.c:153-164 | reference first fit: the lowest start of n consecutive unused frames, or none when no start exists |
| Coremap.FirstFitUnique | kern/arch/mips/vm/tpvm.c:153-164 | two lowest starts of a free run are the same start |
| Coremap.Claim | kern/arch/mips/vm/tpvm.c:163-171 | claiming frames i .. i+n-1 marks exactly those used and owned by the caller, chains them with `next` except the last, lowers Empty by n and changes no other record |
| Coremap.FindEmptyPages | kern/arch/mips/vm/tpvm.c:143-178 | too few empty frames gives idx -1 and address 0 with the coremap unchanged; otherwise idx is exactly the first fit, the address is StartPointer + idx * PAGE_SIZE and the result is the claim of that run; no fit gives -1 and no change |
| Coremap.EmptyCountBoundsRuns | kern/arch/mips/vm/tpvm.c:149-152 | under the invariant a free run of n frames implies Empty >= n, so the early counter check never hides a run |
| Coremap.ClaimPreservesValid | kern/arch/mips/vm/tpvm.c:163-171 | claiming a free run keeps the invariant and raises the used count by exactly n |
| Coremap.Tag | kern/arch/mips/vm/tpvm.c:244-249 | tagging sets the swapable flag on the n frames of the run only, and raises SwapableNumber by n exactly when the flag is set |
| Coremap.TagClaimPreservesValid | kern/arch/mips/vm/tpvm.c:243-249 | a claimed and tagged first-fit run keeps the coremap invariant |
| Coremap.FrameIndexOfFrameAddr | kern/arch/mips/vm/tpvm.c:278 | the index free_kpages computes from PADDR_TO_KVADDR of frame i is i |
| Coremap.FrameIndex | kern/arch/mips/vm/tpvm.c:278 | the index free_kpages computes fits the 32-bit quotient range, and for an address at or above the managed region in kseg0 it is the exact page distance from the region base, without wrap-around |
| Coremap.FrameAddr | kern/arch/mips/vm/tpvm.c:164 | the kseg0 address of a managed frame lies inside the kseg0 window above the region base, a whole number of pages from it |
| Coremap.LowAddressIsNoFrame | kern/arch/mips/vm/tpvm.c:278-281 | any address below MIPS_KSEG0 yields an index past the table, so free_kpages halts on it |
| Coremap.RunEnd | kern/arch/mips/vm/tpvm.c:282-293 | the free walk ends at the first record with `next` clear, or at the last frame |
| Coremap.Release | kern/arch/mips/vm/tpvm.c:282-293 | releasing frames i .. e clears exactly those records, raises Empty by their number and lowers SwapableNumber by the swapable ones among them |
| Coremap.FreeKPages | kern/arch/mips/vm/tpvm.c:273-295 | free_kpages halts exactly when the index exceeds the table, does nothing when it equals it, and otherwise releases the run starting at the index |
| Coremap.FreeWalk | kern/arch/mips/vm/tpvm.c:282-293 | the walk's final state is exactly the reference release of the frames from the index up to the first record whose `next` is clear |
| Coremap.ReleaseRunPreservesValid | kern/arch/mips/vm/tpvm.c:282-293 | freeing from the head of a run keeps the coremap invariant |
| Coremap.ClaimThenFreeRestores | kern/arch/mips/vm/tpvm.c:273-295 | free_kpages on the address of a freshly claimed and tagged run restores the coremap exactly |
| Swap.SwapBoot | kern/arch/mips/vm/tpvm.c:95-102 | the boot swap map has one clear slot per RAM page |
| Swap.FirstFreeSlot | kern/arch/mips/vm/tpvm.c:382-388 | reference slot choice: the lowest clear slot, or none when every slot is set |
| Swap.ClaimSlot | kern/arch/mips/vm/tpvm.c:382-389 | the scan returns exactly the lowest clear slot and sets only that slot; with none clear nothing changes |
| Swap.SwapOutStage | kern/arch/mips/vm/tpvm.c:379-395 | SwapOut up to free_kpages sets the lowest clear slot, writes the page at slot * PAGE_SIZE and leaves the PTE non-resident with the offset in `virtual`, other fields kept; no clear slot halts |
| Swap.SlotOffsetIsNoFrame | kern/arch/mips/vm/tpvm.c:393-396 | the offset SwapOut hands to free_kpages is never a frame of the coremap |
| Swap.SwapOut | kern/arch/mips/vm/tpvm.c:374-400 | SwapOut halts when no slot is clear and, for any swap map of at most 2^17 slots, always halts in free_kpages |
| Swap.SwapIn | kern/arch/mips/vm/tpvm.c:348-372 | a resident PTE is untouched; otherwise the page at offset `virtual` lands in the new frame, only that slot is cleared and the PTE is resident at the new frame with `physical` unchanged |
| Swap.SwapOutThenInRestores | kern/arch/mips/vm/tpvm.c:354-366 | SwapOut's staged effects followed by SwapIn restore the bitmap exactly and put the page contents into the new frame, while `physical` still names the old frame |
| Tlb.ValidLo | kern/arch/mips/vm/tpvm.c:321 | the EntryLo built for a mapping always carries the VALID bit; for a page-aligned frame it also carries DIRTY and keeps the frame number |
| Tlb.FlagsOfAligned | kern/arch/mips/vm/tpvm.c:321 | on a page-aligned frame neither flag is set beforehand and both land in the page offset |
| Tlb.FirstInvalid | kern/arch/mips/vm/tpvm.c:49-54 | reference slot choice: the first slot after 0 without VALID, or none when all are valid |
| Tlb.WriteToTlb | kern/arch/mips/vm/tpvm.c:44-63 | returns 0 and writes exactly the first invalid slot after 0, or returns -1 with the TLB unchanged when slots 1 .. 63 are all valid; slot 0 is never touched |
| Tlb.AsActivate | kern/arch/mips/vm/tpvm.c:402-431 | without an address space the TLB is unchanged; otherwise slot 0 is kept and every other slot gets its own invalid EntryHi and an invalid EntryLo |
| Tlb.ActivateFreesEverySlot | kern/arch/mips/vm/tpvm.c:419-423 | after the flush no slot but 0 is valid, the invalid EntryHi values are pairwise distinct and the next WriteToTlb lands in slot 1 |
| Tlb.BootTlb | kern/arch/mips/vm/tpvm.c:87 | boot maps the coremap pages in slot 0 with a valid entry and leaves every other slot alone |
| AddrSpace.AsCreate | kern/vm/addrspace.c:228-247 | a new space has four segments with start 0, bound 0 and no PTEs |
| AddrSpace.SegmentInit | kern/vm/addrspace.c:41-48 | a freshly initialised segment has no PTEs and maps no address |
| AddrSpace.PteListAppend | kern/vm/addrspace.c:112-128 | appending keeps the old list as a prefix and puts the copy last |
| AddrSpace.PteListInsertFront | kern/vm/addrspace.c:97-110 | inserting puts the copy first and keeps the old list behind it |
| AddrSpace.SegmentMakeNoZero | kern/vm/addrspace.c:80-94 | every PTE becomes resident, valid and swapable with use count 1, backed by its own frame, with `physical` the frame's physical address; permissions are kept |
| AddrSpace.SegmentMake | kern/vm/addrspace.c:62-78 | as SegmentMakeNoZero, and every new frame reads as zeros while no other page changes |
| AddrSpace.ScanFromAligned | kern/vm/addrspace.c:163-171 | the list walk from a page-aligned cursor finds the PTE whose position matches the address's page distance, if the list is long enough |
| AddrSpace.ScanFromMisaligned | kern/vm/addrspace.c:163-171 | the list walk never matches an address with a different in-page offset |
| AddrSpace.SegmentFindAddr | kern/vm/addrspace.c:155-173 | a PTE is found exactly when the address lies in [start, start+bound) and equals start + k * PAGE_SIZE for a position k the list has |
| AddrSpace.FindInSpace | kern/vm/addrspace.c:198-210 | the segments are tried in code, data, heap, stack order; the one found maps the address and no earlier segment does; none found means no segment maps it |
| AddrSpace.ExpandStack | kern/vm/addrspace.c:130-153 | a size other than one page halts; otherwise the stack starts at addr, its bound grows by a page, a read/write PTE goes in front, every stack PTE is backed by a fresh zeroed frame, and the other segments are kept |
| AddrSpace.AsDefineStack | kern/vm/addrspace.c:431-441 | the stack pointer is USERSTACK, the stack starts one page below it, and that page is the first stack PTE, backed by a zeroed frame |
| AddrSpace.AsPagefault | kern/vm/addrspace.c:198-220 | a mapped address returns its segment and PTE with nothing changed; otherwise it succeeds exactly for the page just below the stack, which then becomes the new first stack PTE: the stack grows by exactly one page, to the result of `ExpandStack` with its bound one page larger |
| AddrSpace.AppendAll | kern/vm/addrspace.c:181-185 | appending the PTEs one at a time yields the destination list followed by the source list |
| AddrSpace.SegmentPreCopy | kern/vm/addrspace.c:175-186 | the copy has the source's start and bound and its PTEs in order after the destination's |
| AddrSpace.CopySeg | kern/vm/addrspace.c:262-270 | one segment of the copy: SegmentPreCopy onto an empty segment, then SegmentMakeNoZero; start, bound and length kept, and PTE k backed by the k-th frame of its slice |
| AddrSpace.CopySegments | kern/vm/addrspace.c:262-270 | all four segments of the copy keep the source's start, bound and PTE count, so the copy has as many PTEs as the source |
| AddrSpace.CopyPagesPairwise | kern/vm/addrspace.c:188-196 | with distinct destinations disjoint from the sources, the memmoves copy every page pairwise and touch nothing else |
| AddrSpace.AsCopy | kern/vm/addrspace.c:249-279 | the copy has the same segment shapes, every PTE backed by its own new frame with permissions kept, and RAM after the memmoves from old to new frames |
| AddrSpace.AsCopyCopiesContents | kern/vm/addrspace.c:249-279 | with fresh distinct frames, every page of the copy holds the contents of the page it was copied from and no other page changes |
| AddrSpace.CopyThenDestroyFrees | kern/vm/addrspace.c:52-60 | destroying the copy hands free_kpages exactly the frames the copy was backed with, in order |
| AddrSpace.AsDestroy | kern/vm/addrspace.c:50-60 | the addresses handed to free_kpages are the `virtual` fields of all PTEs in code, data, heap, stack order, whatever their residency |
| AddrSpace.RegionPtes | kern/vm/addrspace.c:360-375 | one PTE per page of the region, page i at base + i * PAGE_SIZE, in ascending order |
| AddrSpace.RegionPagesIsCeiling | kern/vm/addrspace.c:350-355 | without wrap-around the page count is the ceiling of the aligned size over PAGE_SIZE |
| AddrSpace.AsDefineRegion | kern/vm/addrspace.c:341-406 | the region goes into code while code has no PTEs, else into data while data has none, else ENOSYS with the space unchanged |
| AddrSpace.RegionSegmentShape | kern/vm/addrspace.c:350-375 | the region segment starts at the page of vaddr and has one non-resident, invalid PTE per page with the requested permissions |
| AddrSpace.AsPrepareLoad | kern/vm/addrspace.c:408-418 | every code and data PTE is backed by a zeroed frame, code first; heap and stack are unchanged and no physical page outside the new frames changes |
| AddrSpace.ZeroSplit | kern/vm/addrspace.c:415-416 | the two SegmentMake calls, zeroing the code frames and then the data frames, zero every frame given and leave every other page alone |
| AddrSpace.PrepareLoadThenDestroyFrees | kern/vm/addrspace.c:408-418 | after as_prepare_load, as_destroy hands free_kpages the frames the code and data PTEs were backed with, in order, followed by the heap and stack addresses as before |
| Kernel.VmBoot | kern/arch/mips/vm/tpvm.c:72-106 | boot yields a valid, fully empty coremap and a clear swap map whose first free slot is 0 |
| Kernel.SwapSegment | kern/arch/mips/vm/tpvm.c:180-187 | an empty list changes nothing; any PTE makes it halt for a swap map of realistic size; a completed pass leaves every PTE non-resident |
| Kernel.SwapSpace | kern/arch/mips/vm/tpvm.c:199-204 | a space without PTEs is unchanged; any PTE makes eviction halt for a swap map of realistic size |
| Kernel.FirstSwapable | kern/arch/mips/vm/tpvm.c:194-199 | reference victim choice: the lowest swapable frame record |
| Kernel.SwapSomePage | kern/arch/mips/vm/tpvm.c:189-207 | a zero swapable counter halts; with a realistic swap map it returns exactly when no frame is swapable or the victim's space has no PTEs, and then nothing changes |
| Kernel.SwapableCounterMatches | kern/arch/mips/vm/tpvm.c:193 | under the invariant the counter check fails exactly when no frame is swapable |
| Kernel.FreeAll | kern/vm/addrspace.c:52-60 | a sequence of free_kpages calls that includes an address below MIPS_KSEG0 halts |
| Kernel.DestroySpace | kern/vm/addrspace.c:281-293 | as_destroy on the coremap halts whenever a PTE's `virtual` is not a kernel address |
| Kernel.FreeAllFrames | kern/vm/addrspace.c:52-60 | freeing the addresses of distinct single-frame runs never halts, keeps the coremap invariant, raises Empty by one per address, clears exactly those records and keeps every other |
| Kernel.FreeOneFrame | kern/arch/mips/vm/tpvm.c:273-295 | free_kpages on the address of a single-frame run releases exactly that frame and keeps the coremap invariant |
| Kernel.SingleFrameKept | kern/arch/mips/vm/tpvm.c:282-293 | releasing one single-frame run leaves every other single-frame run intact |
| Kernel.DestroyFreesFrames | kern/vm/addrspace.c:281-293 | when every PTE's `virtual` is the address of its own single-frame run, as_destroy succeeds, keeps the coremap invariant, and returns exactly those frames, one empty frame per PTE |
| Kernel.PrepareLoadThenDestroy | kern/vm/addrspace.c:408-418 | on a space with no heap or stack PTEs, as_destroy after as_prepare_load frees exactly the frames the loader was given and, when they are distinct single-frame runs, succeeds with the invariant kept |
| Kernel.DestroyAfterSwapOutHalts | kern/arch/mips/vm/tpvm.c:393-396 | a space holding a PTE that SwapOut moved to the swap file cannot be destroyed |
| Kernel.AllocKPages | kern/arch/mips/vm/tpvm.c:232-271 | under the invariant it returns exactly when the first fit succeeds; then the coremap is that run claimed and tagged, the address is the run's kernel address, the invariant holds, and freeing that address restores the old coremap |
| Fault.VmFault | kern/arch/mips/vm/tpvm.c:310-346 | below lastaddr the page is identity mapped; with no space EFAULT; otherwise as_pagefault's PTE frame is installed in the first invalid slot, a full TLB gives EFAULT, and slot 0 is kept |
| FileTable.FilesStructCreate | kern/fs/file.c:19-56 | a new table has three NULL slots, nothing open and one holder, and is well formed |
| FileTable.FilesStructIncref | kern/fs/file.c:58-68 | the holder count rises by one (in 32 bits) and is returned |
| FileTable.FilesStructDecref | kern/fs/file.c:70-80 | the holder count drops by one, wrapping from 0 to 2^32-1, and is returned |
| FileTable.IncrefDecrefRestores | kern/fs/file.c:58-80 | incref then decref restores the table |
| FileTable.FileAddref | kern/fs/file.c:285-297 | the file's count rises by one and is returned; offset and seekability are kept |
| FileTable.FileDecref | kern/fs/file.c:299-312 | halts exactly on a zero count; otherwise the count drops by one and is returned |
| FileTable.FileDup | kern/fs/file.c:314-319 | the same file is returned with one more reference; no other file changes |
| FileTable.FileDestroy | kern/fs/file.c:273-283 | halts on a zero count; the last reference removes the file; otherwise the count drops by one |
| FileTable.DupThenDestroyRestores | kern/fs/file.c:273-319 | file_dup then file_destroy of a live file restores the pool |
| FileTable.DestroyAll | kern/fs/file.c:91-97 | the destroy loop halts (the `refc > 0` assertion in `file_decref`) exactly when some slot names a file with no reference left; otherwise it never adds a file to the pool |
| FileTable.LiveSlotsRest | kern/fs/file.c:91-97 | skipping an empty slot keeps the rest of the table live and does not change whether the loop will halt |
| FileTable.LiveSlotsDrop | kern/fs/file.c:91-97 | destroying the first slot's file keeps the rest of the table live, and the loop halts later exactly when it would have halted from the start |
| FileTable.RefsCoverLive | kern/fs/file.c:91-97 | a table whose files' counts cover their slots is live and never reaches the halting assertion |
| FileTable.DestroyAllAt | kern/fs/file.c:91-97 | for each file: untouched when no slot names it, its count lowered by the number of slots naming it, and released when that number is its whole count |
| FileTable.FilesStructDestroy | kern/fs/file.c:82-107 | a table with other holders only loses a holder and leaves the files alone; the last holder destroys every slot's file and halts exactly when a slot names a file whose count is already zero |
| FileTable.LastHolderReleasesFiles | kern/fs/file.c:82-107 | when counts cover slots, the last holder's destroy succeeds, frees the table, and per file leaves it untouched, lowers its count by its slot count, or releases it |
| FileTable.EnsureSpace | kern/fs/file.c:109-137 | a size that fits changes nothing; otherwise the capacity doubles until it holds the size (exactly once when twice suffices), old slots keep their index and new slots are NULL |
| FileTable.DoubleUntil | kern/fs/file.c:115-118 | the doubling loop ends at the first doubling that holds sz: at least sz, less than twice sz, still a doubling of the default and within 32 bits, and exactly twice the old capacity when that suffices |
| FileTable.FirstNull | kern/fs/file.c:149-156 | reference slot choice: the lowest NULL slot |
| FileTable.FilesStructAppend | kern/fs/file.c:139-162 | the file goes into the lowest NULL slot after growing a full table once; every other slot keeps its content and the count rises by one |
| FileTable.AppendAt | kern/fs/file.c:147-158 | after ensurespace, the first NULL slot of the grown table lies at or below the old end; every slot before it was already open, and the stored file raises the open count by exactly one |
| FileTable.FilesStructRemove | kern/fs/file.c:164-179 | an index past the table halts; otherwise the slot's file is returned, the slot becomes NULL and the count drops only when it was open |
| FileTable.FilesStructGet | kern/fs/file.c:195-209 | NULL past the table, otherwise the slot's content |
| FileTable.FilesStructCheckIdx | kern/fs/file.c:182-193 | on a well-formed table the check holds exactly when the index names a slot of the array |
| FileTable.FilesStructSet | kern/fs/file.c:211-230 | succeeds exactly for a non-NULL file and an index 1 .. capacity-1 whose old file can be destroyed; the slot then holds the file and the old file is destroyed |
| FileTable.FileLseek | kern/fs/file.c:396-433 | ESPIPE when not seekable; SEEK_SET rejects negative offsets and sets the offset; SEEK_CUR and SEEK_END add to the current offset or the size; any other whence is EINVAL; errors leave the file unchanged |
| FileTable.LseekSetThenCur | kern/fs/file.c:405-420 | SEEK_SET to a then SEEK_CUR by b lands at a + b |
| FileTable.LseekCurZeroIsTell | kern/fs/file.c:415-420 | SEEK_CUR by 0 returns the current offset and changes nothing |
| Dup2.Dup2 | kern/syscall/dup2_syscalls.c:45-73 | a target outside 0 .. OPEN_MAX or an empty source is EBADF with nothing changed; it returns normally exactly for those, the self-copy, and a copy onto an empty slot 1 .. capacity-1 |
| Dup2.Dup2Copies | kern/syscall/dup2_syscalls.c:58-72 | a successful copy returns fd2 and stores fd1's file at fd2 with one more reference, changing no other slot or file; a self-copy changes nothing |
| Dup2.Dup2PreservesInvariants | kern/syscall/dup2_syscalls.c:45-73 | the table stays well formed and every open slot stays covered by its file's reference count |
| ProcEvents.FirstEmpty | kern/syscall/exit_syscalls.c:58-64 | reference slot choice: the lowest entry with a NULL proc |
| ProcEvents.SysExit | kern/syscall/exit_syscalls.c:49-67 | a NULL parent halts; otherwise the lowest free entry receives (this process with its status, PE_childexit) and no other entry changes; with all 20 taken nothing changes; the event/process pairing is kept |
| ProcEvents.FirstStop | kern/syscall/waitpid_syscalls.c:58-77 | reference match: the lowest entry that ends the scan for pid |
| ProcEvents.SysWaitpid | kern/syscall/waitpid_syscalls.c:49-84 | the first matching entry reports its pid (for -1) or pid, and its exit code, and is reset to (PE_none, NULL); a NULL `status_ptr` halts when an entry matches; no match blocks with nothing changed; with events paired it halts exactly on a match with a NULL `status_ptr` |
| ProcEvents.ExitThenWaitRestores | kern/syscall/waitpid_syscalls.c:68-75 | a child's exit followed by a wait for its pid reports that pid and status and restores the array exactly |
| ProcEvents.ExitThenWaitAnyRestores | kern/syscall/waitpid_syscalls.c:60-67 | with no child exit pending, an exit followed by a wait for any child reports that exit and restores the array exactly |

## Left out

- Locks, spinlocks, rwlocks, `splhigh` and condition variables: every operation is one atomic step, and the race between eviction and teardown is not modelled.
- The blocking `cv_wait` loop of `sys_waitpid`: one scan is modelled, and a scan without a match returns `Blocked`.
- `cv_signal`, `thread_collect`, `schedule` and `thread_exit` in `sys_exit`: scheduling has no effect on the event array.
- Swap I/O (`VOP_READ` / `VOP_WRITE`) is one write of the abstract `Disk` or `Ram`. The I/O error paths and `vm_swapbootstrap` are not modelled.
- The boot layout arithmetic of `vm_bootstrap` (`ram_stealmem`, `mainbus_ramsize`, the page counts) is not modelled. `Coremap.Boot` and `Kernel.VmBoot` take the page total and start pointer as parameters.
- `swap.Empties` is never read or updated after boot, and it is not modelled.
- `kmalloc` failures in `as_create`, `as_copy`, `files_struct_create`, `files_struct_ensurespace` and the list helpers are not modelled. The code writes through each result without a NULL check.
- Counters are unbounded integers where the code never lets them wrap on a valid state.
- `file_create`, `file_read`, `file_write`, `file_isseekable` and `VOP_STAT` touch the VFS. Seekability and file size are inputs to `FileLseek`.
- `as_deactivate` and `as_complete_load` do nothing in the code. `SwapInPages` sits behind `if (false)`. `as_activate` is modelled once, in `Tlb.AsActivate`.
- `fork`/`execv` plumbing, `vm_tlbshootdown` and the synchronisation primitives and tests are not modelled.
- Kernel.SwapSomePage: `SwapSomePage` reads `mu_thread->t_proc` for every record it scans. That includes free records, whose thread pointer is NULL. The model looks up only the victim's process, through `Vm.spaces`, and requires it to be known (`VictimsKnown`).
- Kernel.SwapSomePage: the exact characterisation of when it returns is stated only for swap maps of at most 2^17 slots, one per page of the 512 MB kseg0 window. That covers every machine `vm_bootstrap` can size.
- Kernel.AllocKPages: the if-and-only-if with the first fit is stated only for a valid coremap and a swap map of at most 2^17 slots.
- FileTable.EnsureSpace: for a size above 2^31 that does not fit, the `uint32_t` capacity doubling wraps to 0 and never ends, so growth requires a size of at most 2^31.
- FileTable.FilesStructAppend: requires a free slot or fewer than 2^31 open slots, for the same reason.
- FileTable.FilesStructDestroy: requires a holder count below 2^32, the range of its `uint32_t` field.
- FileTable.FilesStructDestroy: on the last-holder path, every slot's file must still be allocated when the loop reaches it (`FileTable.LiveSlots`). A file that an earlier slot's `file_destroy` already freed, named again by a later slot, is a use-after-free with no defined outcome, so it is not modelled; a file whose count is zero while still allocated is modelled and halts.
- FileTable.DestroyAll: requires the same `FileTable.LiveSlots` condition, for the same use-after-free reason.
- FileTable.FileLseek: for SEEK_CUR and SEEK_END the new offset is stated only when the sum fits in an `off_t`. Beyond that the 64-bit wrap is computed but not stated.
- FileTable.LseekSetThenCur: requires the first offset and the sum to fit in an `off_t`.
- Dup2.Dup2PreservesInvariants: requires every reference count to be at least one below 2^32. At 2^32-1 the `uint32_t` increment of `file_addref` would wrap to 0.
- AddrSpace.AsDefineStack: the lookup of the new stack page is stated only when the stack bound is non-zero and start + bound does not wrap. An earlier growth can wrap the bound.
- AddrSpace.AsCopy, AddrSpace.SegmentMake, AddrSpace.ExpandStack, AddrSpace.AsPrepareLoad, Swap.SwapIn: the frames `alloc_kpages(1)` returns are the parameter `frames`. These members therefore claim no coremap frame, and they never halt through `alloc_kpages`' own KASSERT or through the eviction it may trigger, which halts whenever the victim has PTEs (`Kernel.SwapSomePage`). `Kernel.AllocKPages` models that call on its own.
- AddrSpace.AsCopyCopiesContents: the new frames are required to be distinct and disjoint from the source frames, rather than derived from the coremap claims that would make them so.
- Kernel.DestroyFreesFrames: stated for PTEs backed by distinct single-frame runs, the frames `alloc_kpages(1)` hands out. Freeing the same frame twice would raise Empty twice and break the invariant.
- Swap.SwapOutThenInRestores: stated for the part of `SwapOut` before `free_kpages`, since `SwapOut` itself always halts there.
- ProcEvents.SysWaitpid: the exit code stored through `status_ptr` is returned in `Reaped` rather than written to user memory. A NULL `status_ptr` halts. A non-NULL pointer to unmapped or kernel memory, which the store would hand to the fault handler without `copyout`, is not modelled.
- ProcEvents.SysExit: the parent's array is taken as given, or `None` for a NULL `p_parent`. `thread_collect`, the parent's locks and the wake-up are not modelled.
- ProcEvents.ExitThenWaitRestores: stated through the reference scans `FirstEmpty` and `FirstStop`. `SysExit` and `SysWaitpid` are proved equal to them.
