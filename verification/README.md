# A model of the ListaOS kernel and loader

This project models, in Dafny, the parts of ListaOS where state and arithmetic meet: paging and physical
memory, the FAT16 loader, the keyboard ring, the printf family, and the console with the choice of a video
mode. Each part follows the source's own branches, constants and integer widths, and the theorems say what
those parts are for. `dafny verify dfyconfig.toml` checks the whole project.

## Parts

**Paging and physical memory** (`Words`, `Paging`, `PagingSetup`, `MemoryMap`, `Frames`, `Machine`,
`MemoryRuns`). Physical memory is one array of 2^30 words. The loader writes the directory and the flat table
into it; the kernel class then reaches table and bitmap only through virtual addresses, which go through a TLB
that the processor may fill and empty between any two steps, or through the two-level walk (Intel SDM volume
3A, sections 4.3 and 4.10.4). Every kernel method keeps the self-map, the bitmap window and TLB coherence.
`MemoryRuns` adds whole runs: usable frames are at all times partitioned into free, held and demand-mapped
ones, and no two present pages share a frame. `StartKernel` establishes this from the loader's first store,
and `Execute` ties the run model to the kernel class.

**FAT16 loader** (`Fat16`, `DiskLoader`). The volume follows the Microsoft FAT specification 1.03, section
"FAT Data Structure". The loader's registers, the disk packet and the shared sector buffer at 0x9000 are
modelled with their widths; the disk is a sequence of bytes whose sectors have the size given in the BIOS
parameter block.

**Keyboard** (`ScanCodes`, `Keyboard`). The interrupt handler may run any number of times between any two
statements of the consumer. A ghost history of delivered, accepted and consumed codes says which code each
read must return; the shift and caps machine is a fold over codes.

**Formatted output** (`Numerals`, `Format`, `Stdio`). The conversion routines work on their character buffers
and are proved against numerals that read back to the number. `vprintf` and `sprintf` have separate readings,
each with its own switch, and are compared for all formats.

**Console and video mode** (`VideoMode`, `Screen`, `Console`). The mode filter bounds the screen by the 8 MiB
window; drawing is proved pixel by pixel, the cursor character by character. `Arithmetic` and `Wrappers` are
shared helpers.

## Where the code departs from what one would expect

The code is kept as it is; each of these comes with the exact condition.

- An unaligned E820 region at or above 0x2000 is lost as a whole, not only its first partial page, because
  `mm.c:38` drops the page base (`UnalignedRegionDropped`, `CompleteExactly`). The comment at `mm.c:37`
  mentions only the unaligned start.
- A reserved region listed after an overlapping usable one does not take pages back (`ReservedExcludedExactly`,
  `ReservedPageStaysFree`).
- A page fault without a free frame maps the bottom of the kernel stack a second time, and one that gets a frame
  from 4 GiB on maps another frame (`FaultInjectiveExactly`, `FaultInvExactly`).
- `kernel_page_mmap` and `kernel_page_unmap` do not keep a caller from editing the windows of table and bitmap
  (`PageMmap`, `PageUnmap`, `SelfMapKeptExactly`).
- Allocated addresses are the frame's own only below 4 GiB (`AllocAddressExact`).
- If the ring fills up between the decrement and the read of `keyboard_buffer_out`, that one read returns the
  code accepted 256 places later (`ReadConsistent`, `PrefixExactly`, `OverrunReadsWrongCode`).
- `sprintf` prints a `%llu` argument from 2^63 on as a negative number and interprets percent signs in `%s`
  texts; `vprintf` does neither, and the two differ exactly then (`InterpretersAgreeExactly`, `CopiedExactly`).
- The loader does not read the number of reserved sectors (BPB_RsvdSecCnt) but adds 4, which `init.s:17` calls
  hidden sectors, and computes sector numbers in 16 bits. It finds the volume's areas exactly when there are four
  reserved sectors and the data area starts below sector 65536 (`GeometryExact`, `OneReservedSectorMisread`).
- A console narrower than eight columns lets a tab leave the grid (`GridKeptExactly`), and a width that is no
  multiple of 8 lets a tab wrap the row without the column (`TabWrapsTogetherExactly`).
- A mode whose query failed can be chosen on stale data (`FailedQueryChosenExactly`, `StaleModeChosen`).
- `draw_pixel` ignores the mode's bytesPerScanLine (`PitchExactly`).

The comment at `init.s:139` speaks of the FAT at 0x9000 where the code loads directory sectors.

## Assumptions

- Each region passed to `MmInit` has 64-bit fields and its walked part ends at or below 64 GiB, the reach of the
  2 MiB bitmap. Runs assume that at each fault a frame is free, that the lowest free frame lies below 4 GiB at
  each fault and allocation, and that device windows lie outside usable RAM and apart from each other; what
  happens otherwise is stated by the lemmas named above. Usable RAM above 4 GiB is allowed.
- `free_4k_phys` has no caller; its argument must lie in the bitmap.
- The root directory and the file's clusters lie on the disk, sector numbers fit the registers that hold them,
  sizes are powers of two with clusters of at most 32 KiB, and the file ends below 1 MiB. The boot partition starts
  below sector 65536, as its number is passed in a 16-bit register.
- Every statement of `keyboard_buffer_out` is one step with respect to interrupts. Finitely many codes arrive,
  so that draining ends.
- Formats do not end inside a directive, and find arguments of the kind they read. -2^63 is excluded where the
  code negates it, which C leaves undefined.
- Characters printed are in 0..127, the range of the font. A mode's size stays below 2^35 bits, or the loader's
  32-bit division would fault. "Shown" pixels are those at the code's own addresses, which the display shows at
  the same place when its scan lines have no gaps (`PitchExactly`).
- Physical contents of the E820 table, the font bitmaps, colours and scan codes are parameters. BIOS calls
  succeed; a failed mode query leaves its buffer alone.

## Model

| member | source | states |
|---|---|---|
| PagingSetup.InitKernelPaging | src/bootloader/BIOS/init_protect_mode.s:152-173 | the directory lists the 1024 tables of the flat page table in order, the table is all zero, and no other word of physical memory changes |
| PagingSetup.MemClr | src/bootloader/BIOS/init_protect_mode.s:115-127 | the 4 MiB page table is zero and nothing else changes |
| PagingSetup.MemoryPageMap | src/bootloader/BIOS/init_protect_mode.s:129-149 | `count` consecutive entries of the flat table show consecutive frames, present, writable and user; every other word stays |
| PagingSetup.SetUpPaging | src/bootloader/BIOS/init_protect_mode.s:19-82 | after the nine mappings every virtual address from 0 to 4 GiB goes where the loader's constants say, in literal addresses (0xc0000000 shows 0x20000, where KERNEL.SYS lies, and so on), all other pages are absent, every present entry has flags 7, and memory outside directory and table is untouched |
| PagingSetup.BootTableAddresses | src/bootloader/BIOS/init_protect_mode.s:19-82 | the closed-form boot table gives exactly those addresses |
| PagingSetup.BootTableServesKernel | src/bootloader/BIOS/init_protect_mode.s:63-82 | the boot map provides the self-map and the bitmap window that the kernel relies on |
| PagingSetup.BootAliasExactly | src/bootloader/BIOS/init_protect_mode.s:28-47 | two boot pages share a frame exactly for the temporary alias of the IDT page, 0x10 and 0xc0010 |
| Paging.WalkIsFlat | src/bootloader/BIOS/init_protect_mode.s:151-167 | the two-level walk of any page is one look-up in the flat table |
| Paging.SelfMap | src/bootloader/BIOS/init_protect_mode.s:77-82 | the entry of page v is read at 0x200000 + 4v by the walk, and virtual address 0xffc00000 + 4v translates to exactly that location, for all 2^20 pages |
| Paging.DirectoryWindow | src/bootloader/BIOS/init_protect_mode.s:77-82 | virtual address 0xffbff000 + 4d is the d-th directory entry |
| Paging.BitmapWordAddress | src/bootloader/BIOS/init_protect_mode.s:63-68 | virtual address 0xc0600000 + 4i is the i-th bitmap word in physical memory |
| Paging.SelfMapKeptExactly | src/libkernel/mm.c:128-149 | an edit of entry v keeps the self-map if and only if v lies below the window or the new entry still shows the same frame |
| Paging.EditKeepsCoherence | src/libkernel/mm.c:128-137 | whatever the processor caches or drops before, between and after the store and the `invlpg`, every cached translation agrees with the walk of the edited table |
| Paging.StaleWithoutInvalidation | src/libkernel/mm.c:131-136 | without the `invlpg` a cached page stays coherent if and only if the edit did not change its translation |
| Machine.ShiftOrFlags | src/libkernel/mm.c:131 | the 32-bit `(page << 12) | flags` is the frame number modulo 2^20 with the flags below it |
| Machine.Kernel.constructor | src/bootloader/BIOS/init_protect_mode.s:97-102 | a fresh TLB over a memory with self-map and bitmap window satisfies the kernel invariant, with no frame free |
| Machine.Kernel.TlbActivity | src/libkernel/mm.c:132-136 | arbitrary TLB fills and evictions keep coherence, with the same pages stale at most |
| Machine.Kernel.Load | src/libkernel/mm.c:76 | a load through TLB or walk returns the physical word behind the address |
| Machine.Kernel.Store | src/libkernel/mm.c:131 | a store through TLB or walk changes exactly the physical word behind the address |
| Machine.Kernel.PageMmap | src/libkernel/mm.c:128-137 | for every page of the 2^20 the flat table changes in entry v only, to the given frame and flags, bitmap and all other memory stay, and every cached translation agrees with the new table; the kernel keeps its view of table and bitmap if and only if the entry leaves the two windows alone |
| Machine.Kernel.PageUnmap | src/libkernel/mm.c:140-149 | entry v becomes 0, all else stays and the TLB stays coherent; the kernel keeps its view of table and bitmap if and only if v is no window page |
| Machine.FirstSetBit | src/libkernel/mm.c:82-86 | the bit search stops at the lowest set bit of a non-zero word |
| Frames.LowestInBitmap | src/libkernel/mm.c:74-88 | the first non-zero word and its lowest bit are the least free frame of the whole bitmap |
| Frames.TakeLowest | src/libkernel/mm.c:81-90 | clearing that bit removes exactly the least free frame, and the 32-bit address is its address modulo 4 GiB |
| Frames.AllocAddressExact | src/libkernel/mm.c:81-90 | the returned address is the frame's own exactly when the lowest free frame lies below 4 GiB |
| Frames.NullExact | src/libkernel/mm.c:72-94 | NULL stands for an empty free set exactly when the frame about to be taken is no multiple of 4 GiB |
| Frames.SetFrame | src/libkernel/mm.c:97-103 | setting a frame's bit adds that frame and no other to the free set |
| Frames.ClearFrame | src/libkernel/mm.c:89 | clearing a frame's bit removes that frame and no other |
| Frames.FreeUndoesAlloc | src/libkernel/mm.c:89-102 | freeing an allocated frame restores physical memory word for word |
| Machine.Kernel.Alloc4kPhys | src/libkernel/mm.c:72-94 | takes the least free frame and returns its address modulo 4 GiB (0 and nothing taken when none is free); the memory is the old one with that one bit cleared |
| Machine.Kernel.Free4kPhys | src/libkernel/mm.c:97-103 | memory is the old one with the frame's bit set, and the free set gains exactly that frame |
| Machine.Kernel.GetFreePageNum | src/libkernel/mm.c:106-125 | the count is the cardinality of the free set |
| Machine.Kernel.PageFault | src/libkernel/interrupt.c:82-93 | a not-present fault maps what the allocator returned at the faulting page and takes that frame; a protection fault changes nothing |
| Machine.Kernel.MapVideoMemory | src/libkernel/display.c:31-40 | the 8 MiB at 0xc1000000 show physical memory from the framebuffer's page on, with flags 7; all other entries and the free set stay |
| MemoryMap.UnalignedRegionDropped | src/libkernel/mm.c:35-46 | an unaligned region starting at or above 0x2000 is skipped entirely, through the 64-bit wrap-around |
| MemoryMap.UnalignedLowRegion | src/libkernel/mm.c:35-46 | an unaligned region below 0x2000 is walked from 0x1000 plus its page offset to its true end |
| MemoryMap.MarkedIsUsable | src/libkernel/mm.c:33-64 | soundness for every region, aligned or not: a marked page is type 1, at or above 8 MiB and wholly inside the region |
| MemoryMap.AlignedIsExact | src/libkernel/mm.c:48-63 | for an aligned region the marked pages are exactly its usable whole pages |
| MemoryMap.CompleteExactly | src/libkernel/mm.c:35-63 | a region gives up all its usable pages if and only if it is aligned, has none, or starts below 0x2000 and ends late enough in a page |
| MemoryMap.UnalignedLosesRam | src/libkernel/mm.c:38-42 | a concrete region of usable RAM of which no page is marked |
| MemoryMap.MapIsSound | src/libkernel/mm.c:29-64 | for any memory map, a free frame is at or above 0x800 and its whole page lies inside a type-1 region |
| MemoryMap.MapIsExact | src/libkernel/mm.c:29-64 | with aligned regions the free frames are exactly the usable whole pages |
| MemoryMap.MapInBytes | src/libkernel/mm.c:29-64 | the marked pages compared with the usable ones in plain byte intervals |
| MemoryMap.DisjointMapExcludesReserved | src/libkernel/mm.c:59-60 | with pairwise disjoint regions no free page overlaps a region of another type |
| MemoryMap.ReservedExcludedExactly | src/libkernel/mm.c:59-60 | without that assumption, reserved memory stays out of the free set if and only if no type-1 region's marked interval meets a reserved region |
| MemoryMap.ReservedPageStaysFree | src/libkernel/mm.c:59-60 | a concrete map on which a page is both free and reserved |
| Machine.Kernel.MarkPage | src/libkernel/mm.c:50-60 | one turn of the inner loop adds the page to the free set exactly when it is type 1 and at or above 8 MiB, growing the bitmap without freeing anything else |
| Machine.Kernel.AddRegion | src/libkernel/mm.c:33-63 | one region adds exactly its marked pages |
| Machine.Kernel.MmInit | src/libkernel/mm.c:15-68 | drops the two temporary mappings; a free page then lies at or above 8 MiB and, byte by byte, within a region of type 1, and with aligned regions exactly those pages are free; a second call changes nothing |
| MemoryRuns.FaultInjectiveExactly | src/libkernel/interrupt.c:84-92 | after a not-present fault no two pages share a frame if and only if a frame was free and the lowest one lies below 4 GiB or its number modulo 2^20 is not mapped yet; without a free frame, frame 0, the kernel stack, is mapped twice |
| MemoryRuns.FaultInvExactly | src/libkernel/interrupt.c:84-92 | the run invariant survives a not-present fault if and only if a frame is free and the lowest one lies below 4 GiB |
| MemoryRuns.StepKeepsInv | src/libkernel/interrupt.c:82-93 | page faults, allocations, frees and device mappings keep the partition of usable frames and injectivity |
| MemoryRuns.RunKeepsInv | src/libkernel/interrupt.c:82-93 | the same over every run of such events |
| MemoryRuns.KernelFramesPrivate | src/bootloader/BIOS/init_protect_mode.s:35-82 | after any run the stack, kernel, IDT, page-table and bitmap frames are mapped by their boot pages only, and are neither free nor handed out |
| MemoryRuns.KernelPagesFixed | src/bootloader/BIOS/init_protect_mode.s:35-82 | the same in numbers: which frame each of the kernel's own pages shows after any run |
| MemoryRuns.DemandFramesPrivate | src/libkernel/interrupt.c:84-92 | after any run a demand-mapped frame is at or above 0x800, mapped with flags 7, not free, not held by a client, and mapped once |
| MemoryRuns.FramesPartition | src/libkernel/mm.c:72-125 | the usable frames are exactly the free, the held and the demand-mapped ones, and the counts add up |
| MemoryRuns.RunConserves | src/libkernel/mm.c:72-125 | free plus outstanding frames is constant over every run |
| MemoryRuns.Execute | src/libkernel/interrupt.c:82-93 | running events on the kernel class takes its page table and free set where the run model takes them |
| MemoryRuns.StartKernel | src/main.c:16-24 | from the loader's first store through display_init and mm_init, the run invariant holds at the start, for every acceptable memory map |
| DiskLoader.Geometry | src/bootloader/BIOS/init.s:15-43 | the sector numbers are those of the FAT specification for a volume with four reserved sectors, each reduced to 16 bits as the registers do |
| DiskLoader.GeometryExact | src/bootloader/BIOS/init.s:15-43 | the loader's layout is the specification's if and only if the parameter block gives four reserved sectors and the data area starts below sector 65536 |
| DiskLoader.OtherReservedCountMisses | src/bootloader/BIOS/init.s:15-43 | with any other number of reserved sectors all sector numbers are off by the difference to four |
| DiskLoader.OneReservedSectorMisread | src/bootloader/BIOS/init.s:15-43 | a concrete volume with one reserved sector, whose root directory the loader looks for three sectors too far |
| DiskLoader.Loader.ReadGeometry | src/bootloader/BIOS/init.s:15-53 | the loader's variables hold that layout for the BIOS parameter block in memory, of which the reserved sector count is not read |
| DiskLoader.MaskRoundsDown | src/bootloader/BIOS/init.s:166-171 | masking with 0xfff0 after a compare of up to 11 bytes gives back the entry's address |
| DiskLoader.Loader.CompareName | src/bootloader/BIOS/init.s:161-165 | the string compare succeeds exactly when all 11 bytes match, and leaves %di one past the last byte compared |
| DiskLoader.Loader.CheckEntry | src/bootloader/BIOS/init.s:161-171 | one entry: the outcome is that of the name on the disk, and %di is repaired to the entry in both cases |
| DiskLoader.Loader.ScanSector | src/bootloader/BIOS/init.s:159-173 | the first matching entry of the loaded sector, or 0 when none matches |
| DiskLoader.Loader.FindFile | src/bootloader/BIOS/init.s:137-185 | 0 exactly when no entry of any root sector has the name; otherwise the address in the buffer of the first one, its sector still loaded; stated for the disk bytes at (root + s) * bytesPerSector + 32 * j |
| Fat16.SearchInBytes | src/bootloader/BIOS/init.s:137-185 | the search result in disk bytes |
| DiskLoader.FatSector | src/bootloader/BIOS/init.s:214-218 | FAT sector and offset lead to byte 2c of the FAT, within one sector |
| DiskLoader.DataSector | src/bootloader/BIOS/init.s:204-213 | the 8 by 16 bit product and the 32-bit sum give the specification's first sector of the cluster |
| DiskLoader.SegmentedAddress | src/bootloader/BIOS/init.s:231-235 | segment and offset of the disk packet stand for the load address below 1 MiB |
| Fat16.NoSegmentCrossed | src/bootloader/BIOS/init.s:227-238 | loading cluster after cluster from a segment start, no transfer crosses a 64 KiB segment |
| DiskLoader.Loader.ReadSector | src/bootloader/BIOS/init.s:251-263 | the given sectors are copied to segment and offset, nothing else changes |
| DiskLoader.Loader.LoadCluster | src/bootloader/BIOS/init.s:204-244 | byte k of the cluster is disk byte (data + (cluster - 2) * sectorsPerCluster) * bytesPerSector + k; the next number is the word at fat1 * bytesPerSector + 2 * cluster, read from the shared buffer after the cluster was loaded; nothing outside buffer and cluster changes |
| DiskLoader.Loader.FollowChain | src/bootloader/BIOS/init.s:204-246 | the loop ends and memory from the load address holds the whole file |
| DiskLoader.Loader.LoadFile | src/bootloader/BIOS/init.s:187-249 | byte k of the i-th cluster of the chain is, at load address + i * size + k, disk byte (data + (chain[i] - 2) * sectorsPerCluster) * bytesPerSector + k; the chain is the one that starts at the entry's word 0x1a and follows the FAT's words to an end mark; nothing else but the sector buffer changes |
| DiskLoader.Loader.LoadKernel | src/bootloader/BIOS/init.s:55-65 | KERNEL.SYS is found exactly when the directory has it, and then its contents lie at 0x20000 |
| DiskLoader.Loader.Start | src/bootloader/BIOS/init.s:15-65 | on a volume with four reserved sectors and a data area below sector 65536, KERNEL.SYS is found exactly when it is there, and its bytes lie at 0x20000; volume, search and file are stated by the FAT specification's byte offsets and formulas |
| Fat16.ContentsLength | src/bootloader/BIOS/init.s:237-238 | a file takes the number of its clusters times the cluster size |
| Fat16.ChainInBytes | src/bootloader/BIOS/init.s:239-246 | the chain is the sequence of little-endian words of the first FAT, up to one from 0xfff8 on |
| Fat16.LoadedInBytes | src/bootloader/BIOS/init.s:204-238 | contents in memory are, byte by byte, the data sectors of the chain's clusters, cluster 2 being the first of the data area |
| Fat16.ChainUnique | src/bootloader/BIOS/init.s:239-246 | the FAT determines the chain of a start cluster |
| Fat16.ChainIsAcyclic | src/bootloader/BIOS/init.s:239-246 | a chain that ends visits no cluster twice |
| Fat16.AcyclicChainEnds | src/bootloader/BIOS/init.s:204-246 | if following the FAT only reaches valid cluster numbers and none twice, it reaches an end mark: the chain that load_file needs exists |
| ScanCodes.SameEmptyColumns | src/libkernel/keyboard.c:6-63 | the four rows of the keymap are empty in the same columns |
| ScanCodes.FilterIsInvisible | src/libkernel/keyboard.c:100-108 | dropping unmapped codes and repeated shift codes changes neither the text nor the status of the shift and caps machine, for every code sequence |
| ScanCodes.FeedAllTranscript | src/libkernel/keyboard.c:72-98 | for every code sequence: the n-th typing key shows as the n-th character, in the row given by whether a shift press came after the last shift release and by the parity of caps lock presses before it; the status is the present row |
| ScanCodes.ShiftComesOff | src/libkernel/keyboard.c:88-91 | shift down, a, shift up, a types Aa |
| ScanCodes.RowsRelate | src/libkernel/keyboard.c:6-63 | shift and caps lock both turn a letter into its capital and cancel each other; caps lock leaves the other keys alone, shift gives the other sign on the main block |
| Keyboard.DeliverConsistent | src/libkernel/keyboard.c:100-113 | an interrupt at any moment keeps the ring's history consistent and leaves what was consumed alone |
| Keyboard.DeliverAllKeeps | src/libkernel/keyboard.c:100-113 | so does any number of interrupts in a row |
| Keyboard.RoomyDelivery | src/libkernel/keyboard.c:100-113 | codes that cannot fill the ring are neither lost nor overrun one another |
| Keyboard.ReadConsistent | src/libkernel/keyboard.c:120-123 | the slot read is the code that is due if the ring is not full at that moment, and the one accepted 256 places later if it is |
| Keyboard.PrefixExactly | src/libkernel/keyboard.c:115-124 | the consumed codes are a prefix of the accepted ones if and only if every accepted code whose slot was overrun before its read equals the one accepted 256 places later; in particular without overruns |
| Keyboard.OverrunReadsWrongCode | src/libkernel/keyboard.c:120-123 | a concrete run from the empty ring in which nothing is lost and yet the first code consumed is not the first one accepted |
| Keyboard.RingPut | src/libkernel/keyboard.c:110-111 | a new code keeps the last 256 accepted codes in their slots |
| Keyboard.Keyboard.BufferIn | src/libkernel/keyboard.c:100-113 | a code is appended unless 256 are used, its key is empty, or it repeats the shift code accepted last |
| Keyboard.Keyboard.Interrupts | src/libkernel/interrupt.c:103-107 | any number of interrupts delivers a prefix of the incoming codes and nothing else |
| Keyboard.Keyboard.BufferOut | src/libkernel/keyboard.c:115-124 | with interrupts before every statement one code is consumed and the history stays consistent |
| Keyboard.Keyboard.TakeEntry | src/libkernel/keyboard.c:120-123 | from a non-empty ring exactly one code is consumed and the bound on the remaining work drops, whatever interrupts fall between the statements |
| Keyboard.DrainedLog | src/libkernel/keyboard.c:72-98 | an empty ring without overrun has handed over all accepted codes, and without a full ring the machine over them equals the machine over all that arrived |
| Keyboard.Keyboard.Translate | src/libkernel/keyboard.c:78-96 | status and screen take one step of the shift and caps machine |
| Keyboard.Keyboard.BufferClear | src/libkernel/keyboard.c:72-98 | draining ends; text and status are the transcript of the consumed codes, and of all arrived codes when the ring never filled up, in particular when used and coming codes are fewer than 256 together |
| Keyboard.DrainRepeatedly | src/main.c:68-81 | so do any number of drains with interrupts in between: buffering is invisible, and fewer than 256 codes are typed in full whatever the timing |
| Numerals.NumeralRoundTrip | src/libkernel/stdio.c:356-370 | reading a printed numeral gives the number back, in base 10 and 16 |
| Numerals.SignedRoundTrip | src/libkernel/stdio.c:341-371 | the same for signed decimals |
| Numerals.FixedHexRoundTrip | src/libkernel/stdio.c:409-434 | the same for the eight digits of a pointer |
| Numerals.NumeralShape | src/libkernel/stdio.c:341-461 | no redundant leading zero, and no character that is not a digit |
| Numerals.NumeralDigits | src/libkernel/stdio.c:375-405 | decimal digits only, or hexadecimal ones of the case asked for |
| Numerals.NumeralLength | src/libkernel/stdio.c:345-348 | the number of digits is bounded by the power of the base above the number |
| Numerals.FixedHexIsNumeral | src/libkernel/stdio.c:392-400 | fixed-width digits without leading zeros are the plain numeral |
| Stdio.Stdio.Utoa | src/libkernel/stdio.c:438-461 | the static buffer holds the decimal numeral and its terminator, at most 20 digits in 30 bytes, for every 64-bit value |
| Stdio.Stdio.Itoa | src/libkernel/stdio.c:341-371 | the same for signed values above -2^63 |
| Stdio.Stdio.Itoh | src/libkernel/stdio.c:375-405 | the 17-byte buffer holds the hexadecimal numeral without leading zeros, for every 64-bit value |
| Stdio.Stdio.Ptoa | src/libkernel/stdio.c:409-434 | the 11-byte buffer holds 0x, exactly eight digits and the terminator |
| Stdio.Stdio.PrintDirective | src/libkernel/stdio.c:79-153 | one directive of vprintf prints its text and moves past itself and its argument |
| Stdio.Stdio.Vprintf | src/libkernel/stdio.c:65-157 | the characters passed to putc are, piece by piece, what the format asks for: %d is the number in the signed range congruent to the argument, %u, %x, %X read back to it in their base and case, %p is 0x and eight digits, %c, %s and %% are themselves; their number is returned |
| Stdio.Stdio.WriteDirective | src/libkernel/stdio.c:176-264 | one directive of sprintf writes its text, by a nested sprintf except for %c and %% |
| Stdio.Stdio.TextDirective | src/libkernel/stdio.c:184-257 | the text for the nested sprintf and the rest of the format make up what the specification gives for the directive |
| Stdio.Stdio.LongDirective | src/libkernel/stdio.c:191-236 | the same for %l and %ll |
| Stdio.Stdio.Sprintf | src/libkernel/stdio.c:161-270 | the buffer holds sprintf's reading of the format and a terminator, nothing beyond it changes, and the length is returned; it is what the format asks for, piece by piece, where the two interpreters agree |
| Format.CopiedExactly | src/libkernel/stdio.c:161-174 | running text through sprintf gives it back if and only if it contains no percent sign |
| Format.VOutPrinted | src/libkernel/stdio.c:65-157 | vprintf's reading is what the format asks for, for every well-formed format |
| Format.SOutPrinted | src/libkernel/stdio.c:161-270 | so is sprintf's, exactly where they agree |
| Format.OneWordPrinted | src/libkernel/stdio.c:79-153 | what %d, %u, %x and %X print alone, in both interpreters |
| Format.OneLongPrinted | src/libkernel/stdio.c:213-236 | the same with ll; sprintf's %llu reads the argument as signed |
| Format.LargeUnsignedDiffers | src/libkernel/stdio.c:221-225 | a %llu argument from 2^63 on comes out negative in sprintf, unlike in vprintf |
| Format.InterpretersAgreeExactly | src/libkernel/stdio.c:65-270 | for every well-formed format, sprintf and vprintf produce the same characters if and only if no %llu argument has its top bit set and no text that is read contains a percent sign |
| Format.PercentsKept | src/libkernel/stdio.c:65-270 | sprintf never writes more percent signs than vprintf, and fewer as soon as a text that is read has one |
| VideoMode.IsSuitable | src/bootloader/BIOS/init_display.s:86-127 | a mode is taken exactly when it meets the conditions and is larger than the best so far, through the signed jumps |
| VideoMode.FitsMeans | src/bootloader/BIOS/init_display.s:87-118 | the filter in bits and numbers: attribute bits 3, 4 and 7, memory model 6, 24 to 127 bits a pixel, 1 to 8 Mi bytes |
| VideoMode.ChooseMode | src/bootloader/BIOS/init_display.s:34-59 | the mode chosen is the first of the largest among those that fit, and 0xffff exactly when none fits |
| VideoMode.FailedQueryNotChosen | src/bootloader/BIOS/init_display.s:36-56 | a failed query is best only if it is the first one and the block left in the buffer fits |
| VideoMode.FailedQueryChosenExactly | src/bootloader/BIOS/init_display.s:36-56 | for every non-empty list, a mode whose query failed is the best if and only if the first query fails, the block left in the buffer fits, and no block shown later is larger |
| VideoMode.StaleModeChosen | src/bootloader/BIOS/init_display.s:36-52 | a concrete list and left-over block on which the failed first query is preferred |
| VideoMode.FitsWindow | src/bootloader/BIOS/init_display.s:96-117 | a mode that passes the filter has its whole screen inside the 8 MiB window, with at least three bytes a pixel |
| Screen.PixelInside | src/libkernel/display.c:49-55 | every pixel of the screen lies inside the mode's video memory |
| Screen.PixelsApart | src/libkernel/display.c:51 | different pixels share no byte |
| Screen.PitchExactly | src/libkernel/display.c:49-55 | what draw_pixel draws shows at its place on the display, for all pixels, colours and memories, if and only if the scan lines lie x times bytes-per-pixel apart |
| Screen.DrawnPixel | src/libkernel/console.c:86-109 | a drawn character shows in its cell, dot by dot, and every other pixel of the screen stays |
| Screen.DrawnInside | src/libkernel/console.c:86-109 | drawing changes no byte past the screen |
| Screen.ShiftShowsDot | src/libkernel/console.c:93-106 | the top bit of the shifted row is the dot of the font |
| Screen.TextStaysInGrid | src/libkernel/console.c:32-68 | for every text the cursor stays in a grid at least eight columns wide |
| Screen.GridKeptExactly | src/libkernel/console.c:54-67 | it does for all positions and characters if and only if the grid is at least eight columns wide |
| Screen.OrdinaryTextLayout | src/libkernel/console.c:58-67 | n ordinary characters end at column (c0 + n) mod W and row min(H - 1, r0 + (c0 + n) / W) |
| Screen.LinesLayout | src/libkernel/console.c:43-67 | for lines of ordinary text with newlines between them: the row is the old one plus all wraps and newlines, capped at H - 1, the column the length after the last newline mod W |
| Screen.ControlMoves | src/libkernel/console.c:32-52 | newline goes to column 0 of the next row or stays on the last, carriage return to column 0, backspace one column back unless at 0, NUL nowhere |
| Screen.TabStop | src/libkernel/console.c:54-57 | for widths that are multiples of 8 a tab goes to the next 8-column stop, wrapping row and column together |
| Screen.TabWrapsTogetherExactly | src/libkernel/console.c:54-57 | row and column of a tab wrap together everywhere if and only if the width is a multiple of 8 |
| Console.OrdinaryCharShown | src/libkernel/console.c:37-62 | an ordinary character appears in the cursor's cell and no other cell changes |
| Console.OrdinaryCharBytes | src/libkernel/console.c:86-109 | in font bits and memory bytes: a set bit 7 - dx of font row dy shows the foreground at pixel (8 col + dx, 16 row + dy), as blue, green, red; pixels outside the 8 by 16 cell keep their bytes |
| Console.OrdinaryCharSeen | src/libkernel/console.c:37-62 | on a display whose scan lines have no gaps it is seen there |
| Console.ControlCharShown | src/libkernel/console.c:37-57 | a control character blanks the cursor's cell, a backspace also the one before, and no other cell changes |
| Console.CharInside | src/libkernel/console.c:32-68 | print_char changes no byte past the screen |
| Console.Console.constructor | src/libkernel/console.c:19-29 | on every mode that passed the filter the console starts at the origin with its screen inside the window; it has the grid that printing needs if and only if the mode has at least 64 by 16 pixels |
| Console.Console.DrawPixel | src/libkernel/display.c:49-55 | exactly the three bytes of the pixel change, to blue, green and red |
| Console.Console.DrawFont | src/libkernel/console.c:86-109 | video memory is the old one with the character drawn in the cell |
| Console.Console.PrintChar | src/libkernel/console.c:32-68 | cursor and video memory after one character; newline, carriage return, backspace and NUL in explicit rows and columns |
| Console.Console.PrintText | src/libkernel/console.c:32-68 | over a whole text the cursor follows the layout and every byte written lies on the screen |
| Console.Console.ToggleCursor | src/libkernel/console.c:71-83 | the cursor bar or a space is drawn at the cursor, and the state flips |

## Left out

- Machine.Kernel.Alloc4kPhys: the search is split over FirstSetBit; the source has both loops in one function.
- Machine.Kernel.MmInit: the progress messages and the printed amount of free RAM are not modelled; the two inner loops are methods of their own.
- Keyboard.Keyboard.BufferOut: interrupts inside one statement are not modelled, because a C statement is taken as one step.
- Stdio.Stdio.Vprintf: %f is not modelled, because it is a debugging aid on floating point; putc appends to a text instead of drawing.
- Stdio.Stdio.Itoa: returns the text that the source's pointer designates; a later call overwriting the static buffer is not followed.
- VideoMode.ChooseMode: setting the chosen mode and the final query are BIOS calls, assumed to give the block shown when the mode was chosen.
- DiskLoader.Loader.ReadSector: a failing disk read, which stops the machine with a message, is not modelled.
- Console.Console.PrintChar: the wrap-around of 32-bit coordinates is not modelled; coordinates stay below 65536.
- The stack, GDT and instruction-level effects of the assembly; interrupt entry stubs, PIC, PIT and IDT programming.
- Access rights in page-table entries: every boot and demand mapping has the same ones, and the kernel runs in supervisor mode.
- PCI enumeration, the SATA driver beyond its use of device mappings, the UEFI stub, string and memory routines.
- Probing the E820 map and reading the packed table entries: the map is a parameter of MmInit.
