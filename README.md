# karaOS boot-time memory management and descriptor tables, in Dafny

This project models the part of the karaOS x86-64 kernel that runs once at
boot to set up memory and the CPU's descriptor tables, and proves
properties of the model:

- **The physical memory manager** (`Bitmap`, `Pmm`). It keeps one bit per
  4096-byte frame, set while the frame is in use. `pmm_init` is modelled
  stage by stage:
  - It sizes the bitmap from the highest address in the boot loader's
    memory map.
  - It places the bitmap in the first usable entry that can hold it.
  - It marks every frame used, then frees the frames of each usable entry:
    the `length / 4096` frames from frame `base / 4096`, by floor division.
  - It marks the bitmap's own frames used again.
  - Throughout, it counts free memory in bytes.

  `pmm_alloc_page` takes the lowest free bit of the first non-full byte,
  scanning from the previous allocation to the end and then from the start.
  `pmm_free_page` clears a bit; `pmm_get_free_page_count` reads the
  counter.
- **The page-table builder** (`Paging`, `Vmm`).
  - `Paging` covers the flags, the alignment macros, the
    physical-address mask, the split of a virtual address into four 9-bit
    indices, and a walk of a 4-level hierarchy held in physical memory.
  - `Vmm` covers `get_next_page`, `vmm_map_page` and the mapping loops of
    `vmm_init`: the higher-half direct map (HHDM) and the kernel's text,
    rodata and data.
  - Every translation after `vmm_init` is tied to the list of leaf writes
    the C code performs, in order.
- **The freestanding byte routines** (`Util`): `memcpy`, `memset`,
  `memmove` and `memcmp` over one byte array standing for memory.
- **The GDT and the TSS** (`Gdt`): `gdt_set_gate`, the 16-byte TSS
  descriptor that `gdt_set_system_gate` writes over two slots, the table
  `gdt_init` leaves, and `tss_set_stack`.
- **The IDT** (`Idt`): `idt_set_gate` and the 256-gate fill of `idt_init`.

The descriptor and page-table layouts follow the Intel 64 and IA-32
Architectures Software Developer's Manual, Volume 3A:

- section 3.4.5 for segment descriptors;
- section 7.2.3 for the 64-bit TSS descriptor;
- section 6.14.1 for 64-bit IDT gates;
- section 4.5 for 4-level paging.

### Modelling choices

- Where the C code halts with `hcf()`, the model returns `false`.
- The static variables of each C file become the fields of one class:
  - `Pmm.FrameAllocator` for `pmm.c`;
  - `Vmm.AddressSpace` for `vmm.c`;
  - `Gdt.DescriptorTable` for `gdt.c`;
  - `Idt.InterruptTable` for `idt.c`.
- Link-time addresses are parameters: `&tss`, `&gdt`, `&idt`,
  `isr_stub_table` and the linker-script section symbols.
- A `uint64_t` address or entry becomes a 64-bit bit-vector through `Vmm.Bits`,
  defined bit by bit; only bit operations (indices, flags, masks) are used
  on the result.
- Two virtual addresses lie in the same page when they agree on bits 12 to
  47, the bits the four table indices are taken from.
- An entry's frames, the ones `pmm_init` frees, are counted by floor
  division from `base / 4096`. For a page-aligned entry these are exactly its
  whole frames (`Pmm.InUsableAligned`); the Limine protocol aligns usable
  entries. For an unaligned base the first of them starts below the entry
  (`Pmm.UnalignedFirstFrame`). The model, like the C code, does not require
  alignment.
- The boot loader's responses are values (`Limine`). `limine.h` is not part
  of this model; the memory-map kinds are those of the Limine protocol.

## Model

| member | source | states |
|---|---|---|
| Base.Wrap64 | src/pmm.c:30 | `uint64_t` addition such as `bitmap_phys + hhdm_offset`: the result is the sum itself when it fits and is congruent to it modulo 2^64 |
| Bitmap.DivRoundUpIsCeiling | inc/pmm.h:13 | `DIV_ROUND_UP(a, b)` is the least multiple count covering `a`: `q * b >= a` and `(q - 1) * b < a` |
| Bitmap.FrameAddress | src/pmm.c:103 | the address of frame `k` is page aligned and divides back to `k` (`pmm_free_page`'s `ipage / PAGE_SIZE` inverts it) |
| Bitmap.MaskIsComplement | inc/pmm.h:15 | the mask `BITMAP_UNSET` ANDs with is `~(1 << j)` |
| Bitmap.SetFrame | inc/pmm.h:14 | `BITMAP_SET(k)` keeps the bitmap's length and leaves frame `k` marked in use |
| Bitmap.UnsetFrame | inc/pmm.h:15 | `BITMAP_UNSET(k)` keeps the bitmap's length and leaves frame `k` free |
| Bitmap.SetBitOthers | inc/pmm.h:14 | setting bit `j` of a byte leaves every other bit unchanged |
| Bitmap.UnsetBitOthers | inc/pmm.h:15 | clearing bit `j` of a byte leaves every other bit unchanged |
| Bitmap.SameSlot | inc/pmm.h:14-16 | byte `k / 8` and bit `k % 8` identify frame `k` uniquely |
| Bitmap.TestAfterSet | inc/pmm.h:14-16 | after `BITMAP_SET(k)`, `BITMAP_TEST(j)` holds iff `j == k` or it held before |
| Bitmap.TestAfterUnset | inc/pmm.h:15-16 | after `BITMAP_UNSET(k)`, `BITMAP_TEST(j)` holds iff `j != k` and it held before |
| Bitmap.ClearBits | inc/pmm.h:16 | a byte has at most 8 free frames |
| Bitmap.ClearBitsZero | src/pmm.c:77 | a byte has no free frame iff it is `0xFF`, the test both allocation scans use |
| Bitmap.ClearBitsSet | src/pmm.c:87 | setting a clear bit removes exactly one free frame from its byte |
| Bitmap.ClearBitsUnset | src/pmm.c:52 | clearing a set bit adds exactly one free frame to its byte |
| Bitmap.ClearPrefixUpdate | inc/pmm.h:14-15 | replacing one byte changes the free count of any prefix holding it by that byte's difference |
| Bitmap.ClearCountUpdate | inc/pmm.h:14-15 | replacing one byte changes the bitmap's free count by that byte's difference |
| Bitmap.ClearPrefixZero | src/pmm.c:76-110 | a prefix has no free frame iff every byte of it is `0xFF` |
| Bitmap.ClearCountZero | src/pmm.c:76-112 | the bitmap has no free frame iff every byte is `0xFF` |
| Bitmap.SetFrameCount | src/pmm.c:70-71 | `BITMAP_SET` on a free frame lowers the free count by exactly one |
| Bitmap.UnsetByteCount | src/pmm.c:52-53 | clearing a set bit of one byte raises the bitmap's free count by exactly one |
| Bitmap.UnsetFrameCount | src/pmm.c:119-120 | `BITMAP_UNSET` on a used frame raises the free count by exactly one |
| Bitmap.UnsetFreeFrame | src/pmm.c:115-121 | `BITMAP_UNSET` on a frame that is already free leaves the bitmap unchanged (the double free goes unnoticed) |
| Bitmap.SetUnsetBit | inc/pmm.h:14-15 | clearing a bit just set gives the byte back |
| Bitmap.UnsetAfterSet | inc/pmm.h:14-15 | freeing the frame just marked used restores the bitmap |
| Pmm.HighestEndIsMax | src/pmm.c:16-23 | `highest_addr` is the largest `base + length` in the map: no entry ends above it, and some entry ends at it unless it is 0 |
| Pmm.BitmapBytes | src/pmm.c:20-21 | `bitmap_size`, computed without wrap-around, gives a bit to every frame below `highest_addr` |
| Pmm.BitmapBytesCeiling | src/pmm.c:20-21 | `bitmap_size` is `DIV_ROUND_UP(DIV_ROUND_UP(highest, PAGE_SIZE), 8)`: enough bits for every frame below `highest`, with no spare byte |
| Pmm.BitmapBytesCover | src/pmm.c:20-21 | every address below `highest_addr` lies in a frame that has a bit |
| Pmm.FindHostFrom | src/pmm.c:26-33 | the entry found is usable and at least `bitmap_size` long, no earlier entry is; none is found only when no entry qualifies |
| Pmm.DivAdd | src/pmm.c:47-48 | `base / 4096 + length / 4096 <= (base + length) / 4096`: the frames freed for an entry end by `(base + length) / 4096` |
| Pmm.EntryFramesFit | src/pmm.c:47-52 | every frame the third loop frees for an entry has a bit in the bitmap |
| Pmm.BitmapFramesFit | src/pmm.c:63-70 | the bitmap's own frame range is well ordered and has bits in the bitmap |
| Pmm.BitmapBytesAsWritten | src/pmm.c:20-21 | `bitmap_size` as computed in `uint64_t`, whose round-up wraps; equal to the unbounded size whenever `highest_addr + 4095` fits in 64 bits |
| Pmm.BitmapBytesWraps | src/pmm.c:16-23 | a map whose highest entry ends 2048 bytes below 2^64 gets a 0-byte bitmap as written, although a usable entry has frame 0 to free |
| Pmm.BitmapEndFrameNoWrap | src/pmm.c:63-67 | `end_pfn`'s round-up in `uint64_t` equals the unbounded one unless `highest_addr`'s round-up wraps too |
| Pmm.HostFrameFreed | src/pmm.c:66-70 | when the bitmap's frames lie within the frames freed for its host, every frame the last loop reserves was freed by the third loop |
| Pmm.FreedByStep | src/pmm.c:42-56 | freeing entry `i` extends the set of freed frames by exactly that entry's frames, `base / 4096` to `base / 4096 + length / 4096 - 1` |
| Pmm.FreedStateStep | src/pmm.c:51-52 | clearing frame `hi` extends the freed range by that frame and leaves every other frame's bit alone |
| Pmm.FreedStateNext | src/pmm.c:50-55 | once the range holds exactly an entry's frames, that entry is done |
| Pmm.NotYetFreed | src/pmm.c:52-53 | with disjoint usable regions, a frame the loop has not reached is still in use, so freeing it adds one free frame |
| Pmm.FullBitmap | src/pmm.c:40 | after `memset(bitmap, 0xFF, bitmap_size)` every frame is in use and none is free |
| Pmm.BootStateStep | src/pmm.c:69-72 | marking frame `k` used extends the reserved range by one frame |
| Pmm.InUsableBelow | src/pmm.c:47-50 | every frame the third loop frees for an entry ends by `base + length` |
| Pmm.InUsableAligned | src/pmm.c:47-50 | for a page-aligned usable entry, the frames the third loop frees are exactly the whole frames within `[base, base + length)` |
| Pmm.UnalignedFirstFrame | src/pmm.c:47-50 | for the unaligned usable entry `[0x800, 0x2800)` the third loop frees frame 0, which starts below the entry |
| Pmm.BootStateBelow | src/pmm.c:16-72 | after `pmm_init` every free frame lies wholly below `highest_addr` |
| Pmm.SetFrameBelow | inc/pmm.h:14 | marking a frame used keeps every free frame below the limit |
| Pmm.UnsetFrameBelow | inc/pmm.h:15 | freeing a frame that lies below the limit keeps every free frame below it |
| Pmm.LowestClearFrom | src/pmm.c:79-84 | the inner scan from bit `j` finds a clear bit with every bit between `j` and it set, or 8 if there is none |
| Pmm.FullByte | src/pmm.c:77-84 | a byte with all eight bits set is `0xFF`, so the inner scan of a non-full byte always finds a bit |
| Pmm.LowestClear | src/pmm.c:79-84 | `freebit` is a clear bit, and every bit below it is set |
| Pmm.LowestClearUnique | src/pmm.c:79-84 | a clear bit with every lower bit set is the one the inner scan finds |
| Pmm.FirstNotFull | src/pmm.c:76-77 | the outer scan finds the first non-full byte in its range, or reports that every byte is full |
| Pmm.Slot.Frame | src/pmm.c:85 | frame `byte * 8 + bit` has its bit at byte `byte`, position `bit` |
| Pmm.AllocSlot | src/pmm.c:75-113 | the frame chosen has a bit and is free; nothing is chosen exactly when every byte is `0xFF` |
| Pmm.AllocSlotNextFit | src/pmm.c:76-110 | next fit: every byte the wrap-around scan passes before the chosen one is full, and the chosen bit is the lowest free bit of its byte |
| Pmm.AllocSlotNoneIffExhausted | src/pmm.c:112 | `pmm_alloc_page` returns NULL iff the bitmap counts no free frame |
| Pmm.AllocTwiceDistinct | src/pmm.c:87-89 | two allocations in a row never return the same frame |
| Pmm.FrameZeroLooksLikeNull | src/pmm.c:85-90 | when frame 0 is free, a scan from byte 0 returns address 0, the same value as NULL |
| Pmm.AllocFreeRoundTrip | src/pmm.c:85-120 | `pmm_free_page` on the address just allocated restores the bitmap, and the allocation lowered the free count by one |
| Pmm.Int32Wrap | src/pmm.c:76 | the value of a 32-bit `int`: in range, and unchanged when it fits |
| Pmm.FirstScanAddressAsWritten | src/pmm.c:85 | the first scan's address as written agrees with the frame address while `(i * 8 + bit) * 4096` fits in 31 bits |
| Pmm.FirstScanAddressOverflows | src/pmm.c:85 | frame 2^19 (2 GiB) comes back from the first scan as `0xFFFF_FFFF_8000_0000` instead of `0x8000_0000` |
| Pmm.FrameAllocator.constructor | src/pmm.c:5-10 | the statics start zero, with no bitmap |
| Pmm.FrameAllocator.MarkUsed | inc/pmm.h:14 | the allocator's bitmap becomes `SetFrame` of the old one |
| Pmm.FrameAllocator.MarkFree | inc/pmm.h:15 | the allocator's bitmap becomes `UnsetFrame` of the old one |
| Pmm.FrameAllocator.FindHighest | src/pmm.c:16-23 | the first loop leaves `highest_addr` = the map's highest end and `bitmap_size` sized for it; nothing else changes |
| Pmm.FrameAllocator.LocateBitmap | src/pmm.c:26-33 | the second loop finds the first usable entry long enough for the bitmap |
| Pmm.FrameAllocator.FreeEntry | src/pmm.c:43-55 | one entry of the third loop: its frames (`length / 4096` of them from `base / 4096`) become free, the counter rises by a page per frame, and with disjoint regions the counter stays equal to the free bits |
| Pmm.FrameAllocator.FreeUsable | src/pmm.c:42-56 | after the third loop a frame is free iff it is one of a usable entry's frames (floor division from `base / 4096`), and the counter rose by a page per such frame |
| Pmm.FrameAllocator.ReserveBitmap | src/pmm.c:63-72 | after the last loop a frame is free iff it was freed and is not one of the bitmap's frames, and the counter fell by a page per bitmap frame |
| Pmm.FrameAllocator.ReserveFrame | src/pmm.c:70-71 | one pass of the last loop: frame `k` is marked used and the counter falls by a page |
| Pmm.FrameAllocator.Init | src/pmm.c:13-73 | `pmm_init` halts iff no entry can hold the bitmap or its virtual address is NULL. Otherwise the bitmap marks free exactly the usable entries' frames outside the bitmap's own frames, and the counter holds a page per freed frame minus the bitmap's frames. With non-overlapping frame runs and the bitmap inside its host's freed frames, the counter equals the free bits. Every free frame lies below `highest_addr` |
| Pmm.FrameAllocator.FirstClearBit | src/pmm.c:79-84 | the inner loop finds the lowest clear bit |
| Pmm.FrameAllocator.TakeFrom | src/pmm.c:77-90 | taking from byte `i` returns the address of its lowest free frame, marks that frame used, lowers the counter by a page and moves `last_alloc_index` to `i`; while every free frame lies below `highest_addr`, so does the one taken, and the rest stay below |
| Pmm.FrameAllocator.Alloc | src/pmm.c:75-113 | `pmm_alloc_page` returns the frame `AllocSlot` picks (next fit), marked used, or 0 with nothing changed when every frame is used. It keeps the counter equal to the free bits, and keeps every free frame below `highest_addr`; a frame it returns then ends by `highest_addr`, so its address is below it |
| Pmm.FrameAllocator.Free | src/pmm.c:115-121 | `pmm_free_page` clears the frame's bit and raises the counter by a page. Freeing a used frame keeps the counter consistent; freeing a free frame leaves the counter a page above the free bits. Freeing a frame below `highest_addr` keeps every free frame below it |
| Pmm.FrameAllocator.FreePageCount | src/pmm.c:123-125 | while the counter is consistent, `pmm_get_free_page_count` is the number of free bits |
| Paging.FlagBits | inc/vmm.h:23-33 | the flags are the single bits 0 to 8, and `PTE_NX` is 0 |
| Paging.AlignDown | inc/vmm.h:36 | `ALIGN_DOWN(a)` is a multiple of 4096 at most 4095 below `a` |
| Paging.AlignUp | inc/vmm.h:37 | `ALIGN_UP(a)` is a multiple of 4096, at most 4095 above `a` unless `a + 0xFFF` wraps |
| Paging.AlignIdentity | inc/vmm.h:36-37 | both macros leave a multiple of 4096 unchanged |
| Paging.PhysMaskBits | inc/vmm.h:39 | `PHYS_ADDR_MASK` has exactly bits 12 to 51 set |
| Paging.MaskRecoversFrame | src/vmm.c:18 | masking an entry written as `phys \| flags` (the link entry, or a leaf with low flags) gives `phys` back |
| Paging.LinkEntry | src/vmm.c:35 | the link entry `phys \| PTE_PRESENT \| PTE_RW` is present and points to `phys` |
| Paging.Pml4Index | src/vmm.c:41 | the PML4 index is below 512 and is bits 39-47 of the address |
| Paging.PdptIndex | src/vmm.c:42 | the PDPT index is below 512 and is bits 30-38 |
| Paging.PdIndex | src/vmm.c:43 | the PD index is below 512 and is bits 21-29 |
| Paging.PtIndex | src/vmm.c:44 | the PT index is below 512 and is bits 12-20 |
| Paging.IndexSplit | src/vmm.c:41-44 | the four indices and the page offset put back together give bits 0 to 47 of the address |
| Paging.Path | src/vmm.c:41-48 | the indices the walk uses are four values below 512 |
| Paging.PageBits | src/vmm.c:41-44 | bits 12 to 47 of an address are exactly its four indices, each shifted into place |
| Paging.IndicesOfPageBits | src/vmm.c:41-44 | the four indices read only bits 12 to 47, not the page offset or the sign extension |
| Paging.SamePageIndices | src/vmm.c:41-44 | two addresses in the same page have the same index at every level |
| Paging.IndexInjective | src/vmm.c:41-44 | distinct indices give distinct table slots |
| Paging.PathIndices | src/vmm.c:41-48 | two addresses that select the same entry at every level lie in the same page |
| Paging.SamePagePath | src/vmm.c:41-51 | two addresses select the same leaf slot iff they lie in the same 4 KiB page |
| Paging.ZeroTable | src/vmm.c:33 | a zero-filled table has 512 entries, all 0 (not present) |
| Paging.LeafTable | src/vmm.c:46-48 | the walk through present entries ends at a table of the hierarchy |
| Paging.LeafTableStep | src/vmm.c:17-20 | from a present entry the walk continues from the table its masked address names |
| Paging.LeafTablePresent | src/vmm.c:46-48 | a walk that reaches a page table passed a present entry at every level above it, and continues from that entry's table |
| Paging.LeafTableThrough | src/vmm.c:46-48 | present entries from the PML4 down through the PDPT and PD lead the walk to the page table they name |
| Paging.Link | src/vmm.c:28-35 | linking a new table adds exactly that frame to table memory |
| Paging.LinkEntryAt | src/vmm.c:33-35 | after a link: the new table is zero, the slot holds the link entry, every other entry is unchanged |
| Paging.LeafTableLevel | src/vmm.c:46-48 | in a well-formed hierarchy a walk from the PML4 ends at a level-1 table |
| Paging.ZeroTableLeaf | src/vmm.c:33 | a walk into a freshly zeroed table stops there unless it is the leaf |
| Paging.LinkLeafTable | src/vmm.c:28-35 | linking a table changes a walk only by letting one that stopped at the new slot reach the new table |
| Paging.LinkLevelled | src/vmm.c:28-35 | linking keeps every table at its level and puts the new one a level below its parent |
| Paging.LinkClosed | src/vmm.c:28-35 | linking keeps every present non-leaf entry pointing one level down |
| Paging.LinkTree | src/vmm.c:28-35 | linking keeps every table reachable from at most one entry |
| Paging.LinkWellFormed | src/vmm.c:28-35 | linking a new zeroed table keeps the hierarchy well formed |
| Paging.LinkPreservesWalk | src/vmm.c:28-35 | linking a new zeroed table changes no translation and no leaf already reached |
| Paging.LeafTableFrame | src/vmm.c:46-51 | a walk reads only non-leaf tables before it reaches the leaf, so rewriting leaf entries does not change where walks end |
| Paging.LeafTableUnique | src/vmm.c:46-48 | in a tree, two walks that reach the same page table used the same upper three indices |
| Paging.WriteEntryFrame | src/vmm.c:51 | writing a leaf entry changes no table above level 1 and keeps every table whole |
| Paging.WriteEntryWellFormed | src/vmm.c:51 | writing a leaf entry keeps the hierarchy well formed |
| Paging.WriteEntryWalk | src/vmm.c:51 | writing a leaf slot makes that path yield the new entry and leaves every other path's entry unchanged |
| Paging.AddRootWellFormed | src/vmm.c:83-87 | a new zero-filled PML4 keeps the hierarchy well formed and maps nothing |
| Vmm.SameTranslationTrans | src/vmm.c:46-48 | translations kept across two steps are kept across both |
| Vmm.LinkSameTranslation | src/vmm.c:28-35 | `get_next_page` creating a table changes no translation under any PML4 |
| Vmm.WriteEntryTranslation | src/vmm.c:51 | writing the leaf for `v` makes `v` walk to the new entry; the translation of `v`'s page becomes the entry (if present) and no other page's changes |
| Vmm.TranslationLastWrite | src/vmm.c:104-107 | a page translates as the last write that reached it |
| Vmm.TranslationWritten | src/vmm.c:104-139 | every translated page was written by some write with that entry: nothing unwritten is mapped |
| Vmm.PageCount | src/vmm.c:117 | each mapping loop over aligned bounds (here and in the HHDM loop) visits `(end - start) / 4096` pages, none when `end <= start` |
| Vmm.Pages | src/vmm.c:117-120 | the first `n` iterations make `n` writes |
| Vmm.PagesAt | src/vmm.c:117-120 | iteration `k` writes the page `k` pages above the start |
| Vmm.RangeWritesFrom | src/vmm.c:126-129 | every write of a mapping loop is for an aligned page of `[start, end)` |
| Vmm.RangeWritesHas | src/vmm.c:126-129 | every aligned page of `[start, end)` gets its write |
| Vmm.RangeWritesPages | src/vmm.c:136-139 | a write belongs to a mapping loop iff it is for an aligned page of its range |
| Vmm.RangeWritesFlags | src/vmm.c:117-139 | every leaf entry of a mapping loop carries that loop's flags |
| Vmm.HhdmWritesPrefix | src/vmm.c:92-109 | the writes for a prefix of the memory map are a prefix of the writes for the whole map |
| Vmm.HhdmWritesStep | src/vmm.c:92-109 | each iteration of the HHDM loop appends the writes of one entry |
| Vmm.HhdmWritesCover | src/vmm.c:96-107 | every frame of every mapped-kind entry is written into the HHDM |
| Vmm.HhdmWritesSource | src/vmm.c:96-107 | every HHDM write is for a frame of a usable, boot-loader-reclaimable, executable-and-modules or framebuffer entry |
| Vmm.TextStart | src/vmm.c:113 | the text mapping starts at a page-aligned address |
| Vmm.TextMapsPageBelow | src/vmm.c:113-119 | the text mapping starts one page below the page holding `__text_start`, and that page is mapped as text |
| Vmm.RodataWritable | src/vmm.c:123-128 | every rodata page is mapped writable |
| Vmm.AvailableAfter | src/vmm.c:28-29 | after at most `d` allocations, `n - d` of `n` available frames remain |
| Vmm.AddressSpace.constructor | src/vmm.c:12 | no tables, no PML4 and nothing in CR3 yet |
| Vmm.AddressSpace.AllocFrame | src/vmm.c:28 | `pmm_alloc_page` yields the next frame of the pool, or 0 when it is empty |
| Vmm.AddressSpace.GetNextPage | src/vmm.c:16-38 | a present slot yields its masked target with nothing changed. An absent slot yields NULL when not allocating. Otherwise it halts on a NULL frame, or links a fresh zeroed table one level down; every other table is unchanged |
| Vmm.AddressSpace.InstallTable | src/vmm.c:32-35 | table memory becomes `Link` of the old one and the new table gets the level below |
| Vmm.AddressSpace.MapPage | src/vmm.c:40-55 | after `vmm_map_page`, `virt` walks to `phys \| flags`, its page translates to it, no other page's translation changes, and at most three frames are used (none when the tables exist) |
| Vmm.AddressSpace.WalkToLeaf | src/vmm.c:46-48 | the three `get_next_page` calls reach the page table for `virt`, using at most one frame per level and changing no translation |
| Vmm.AddressSpace.WriteLeaf | src/vmm.c:51 | the leaf write makes `virt` walk to the entry and changes only its page's translation |
| Vmm.AddressSpace.Step | src/vmm.c:46-48 | one level of the walk: a present slot is followed, an absent one built, no translation changes |
| Vmm.AddressSpace.Init | src/vmm.c:64-143 | `vmm_init` halts on an empty text section or a missing executable address; it succeeds when enough frames remain. On success CR3 holds the new PML4, and every address translates as the writes (HHDM, then text, rodata, data) leave it |
| Vmm.AddressSpace.NewRoot | src/vmm.c:83-87 | the new PML4 is a zero table at level 4 that maps nothing |
| Vmm.AddressSpace.MapHhdm | src/vmm.c:92-109 | after the HHDM loop every address translates as the HHDM writes leave it |
| Vmm.AddressSpace.MapEntry | src/vmm.c:93-108 | one entry of the HHDM loop appends that entry's writes |
| Vmm.AddressSpace.MapKernel | src/vmm.c:113-139 | the three kernel loops append the text, rodata and data writes |
| Vmm.AddressSpace.MapRange | src/vmm.c:117-120 | a mapping loop appends one write per aligned page of its range, in order |
| Vmm.AddressSpace.MapStep | src/vmm.c:117-120 | one iteration appends the write for its page, takes at most three frames, and succeeds while three frames per remaining page are available |
| Vmm.AddressSpace.ProgressDone | src/vmm.c:117 | when `a < end` fails every page of the range has been visited: the translation follows exactly the loop's writes and at most three frames went to each page |
| Vmm.AddressSpace.MapOne | src/vmm.c:119 | one `vmm_map_page` call appends its write to the translation |
| Util.ByteOf | src/util.c:18 | `(uint8_t)c` is `c` modulo 256 |
| Util.Fill | src/util.c:17-19 | the `n` elements at `s` take the value and no other element changes |
| Util.Memset | src/util.c:14-22 | `memset` sets the `n` bytes at `s` to `(uint8_t)c`, changes nothing else and returns `s` |
| Util.Memcpy | src/util.c:3-12 | `memcpy` on disjoint regions makes the destination a copy of the old source, changes nothing else and returns `dest` |
| Util.Memmove | src/util.c:24-39 | `memmove` copies the old source even when the regions overlap, changes nothing else and returns `dest` |
| Util.Compare | src/util.c:41-52 | the result of a comparison is -1, 0 or 1 |
| Util.Memcmp | src/util.c:41-52 | `memcmp` compares the two byte ranges lexicographically |
| Util.CompareZeroIffEqual | src/util.c:47-51 | `memcmp` is 0 iff the ranges are equal |
| Util.CompareAntisymmetric | src/util.c:47-49 | swapping the arguments negates the result |
| Util.CompareFirstDifference | src/util.c:47-49 | the first differing byte decides the sign |
| Gdt.MakeEntry | src/gdt.c:17-27 | the descriptor holds `base & 0xFFFFFFFF` as its base, `limit & 0xFFFFF` as its limit, `gran & 0xF0` as its flags and `access` verbatim |
| Gdt.UpperEntryBase | src/gdt.c:34-36 | the second slot of a TSS descriptor holds `base >> 32` and zero reserved bytes |
| Gdt.JoinHalves | src/gdt.c:35 | a 64-bit value is its low dword with its high dword shifted back in |
| Gdt.SystemGateBase | src/gdt.c:30-37 | the 16-byte descriptor `gdt_set_system_gate` writes describes the whole 64-bit base |
| Gdt.SegmentKinds | src/gdt.c:53-70 | the access and flag bytes `gdt_init` uses describe flat ring-0 and ring-3 code (64-bit) and data segments, and a present 64-bit TSS |
| Gdt.TssDescriptor | src/gdt.c:71 | the TSS descriptor describes the TSS at its address with limit `sizeof(struct tss_entry) - 1` |
| Gdt.BootTableLayout | src/gdt.c:51-71 | the table `gdt_init` writes has a null slot, the four flat segments at selectors 0x08-0x20 and the TSS at 0x28 |
| Gdt.DescriptorTable.constructor | src/gdt.c:12-14 | the statics start zero |
| Gdt.DescriptorTable.SetGate | src/gdt.c:17-27 | slot `num` becomes the descriptor; no other slot changes |
| Gdt.DescriptorTable.SetSystemGate | src/gdt.c:30-37 | slots `num` and `num + 1` become the two halves of a descriptor of the whole base, and no other slot changes |
| Gdt.DescriptorTable.Init | src/gdt.c:43-79 | the TSS is zero except `iomap_base = sizeof(struct tss_entry)`, the table has the boot layout, and the GDTR limit is `7 * 8 - 1` at the table's address |
| Gdt.DescriptorTable.SetStack | src/gdt.c:82-84 | `tss_set_stack` sets `rsp0` and changes no other TSS field, slot or GDTR |
| Idt.MakeGate | src/idt.c:9-19 | the gate's handler fields put back together give the address; the selector is 0x08, IST 0, reserved 0, attributes = flags |
| Idt.InitGate | src/idt.c:42-45 | every gate `idt_init` writes is a present ring-0 64-bit interrupt gate in the kernel code segment calling its stub |
| Idt.KernelSelectorIsKernelCode | src/idt.c:13 | selector 0x08 names GDT slot 1 at privilege 0, the flat ring-0 64-bit code segment of the boot GDT |
| Idt.InterruptTable.constructor | src/idt.c:4-5 | the statics start zero |
| Idt.InterruptTable.SetGate | src/idt.c:9-19 | gate `vector` becomes the gate for the handler; no other gate changes |
| Idt.InterruptTable.Init | src/idt.c:38-52 | gate `i` calls `isr_stub_table[i]` as a ring-0 interrupt gate with attributes 0x8E, and the IDTR limit is `256 * 16 - 1` at the table's address |

## Left out

- `hcf()` halts the machine; the model returns `false` at each halting point instead.
- Privileged instructions are not modelled: `invlpg` (src/vmm.c:54), the CR3 load (src/vmm.c:142; only the value stored is), `load_gdt`/`load_tss` (src/gdt.c:77-78), `lidt`/`sti` (src/idt.c:50-51).
- `pic_remap` (src/idt.c:24-36) is port I/O to the 8259 PIC; it is not modelled, and neither are `outb`, `inb`, `serial_init`, `debug_putc` and `debug_print` in src/util.c.
- The HHDM alias is not modelled. The C code reaches the bitmap and page tables through `phys + hhdm_offset`; the model keeps tables by physical frame and the bitmap as an array of its own, so a write through one alias seen through another is not captured.
- `Vmm.AddressSpace` takes frames from a pool of distinct frames standing for `pmm_alloc_page`, not from `Pmm.FrameAllocator`. The pool's frames are assumed distinct and not already tables; the bitmap allocator's result is not connected to the page-table builder.
- `vmm_unmap_page` and `vmm_switch_pml4` are declared in inc/vmm.h but defined nowhere; src/interrupt.c and src/main.c (the boot sequence, the framebuffer, the `hhdm_offset` global) are not part of this model.
- Pmm.FrameAllocator.Init: `base + length` (src/pmm.c:18) and the counter are computed without `uint64_t`/`size_t` wrap-around. An entry ending at or above 2^64 wraps in C; at exactly 2^64 the sum is 0 and the entry does not raise `highest_addr`. The model counts such an entry at its true end.
- Pmm.FrameAllocator.FindHighest: uses the unbounded round-up `BitmapBytes`. The `uint64_t` round-up at src/pmm.c:20 wraps when `highest_addr` lies within a page of 2^64 (see Findings); `Pmm.BitmapBytesAsWritten` models it and agrees below that.
- Pmm.FrameAllocator.ReserveBitmap: computes `end_pfn` (src/pmm.c:67) without wrap-around. `Pmm.BitmapEndFrameNoWrap` shows it wraps only when the round-up at src/pmm.c:20 wraps too, the case in Findings.
- Pmm.FrameAllocator.Free: keeps every free frame below `highest_addr` only when the freed frame lies below it; freeing a padding frame of the bitmap's last byte breaks this in C as in the model.
- Pmm.FrameAllocator.Init: the counter is shown equal to the free bits only when no frame is freed for two usable entries and the bitmap's frames lie within those freed for its host; the boot loader's map is not otherwise constrained.
- Pmm.FrameAllocator.FreePageCount: states the count only while the counter is consistent; after a double free it is one page too high, which `Pmm.FrameAllocator.Free` states.
- Pmm.FrameAllocator.Free: requires the frame to have a bit in the bitmap; the C code writes outside the bitmap for a larger address.
- Pmm.FrameAllocator.Alloc: models both scans with the corrected frame address; the 32-bit overflow of the first scan is modelled separately (see Findings).
- Gdt.DescriptorTable.SetGate: `num` is an unchecked `int` in the C code; the model requires a slot of the table.
- Gdt.DescriptorTable.Init: the `memset` of the TSS is modelled as assigning the all-zero TSS value, not byte by byte.
- Util: pointers are indices into one byte array; `memcpy` requires disjoint regions, as its `restrict` qualifiers demand.

## Findings

| source | as written | input that shows it | evidently intended | confidence | as-written member | corrected member |
|---|---|---|---|---|---|---|
| src/pmm.c:85 | `(i * 8 + freebit) * PAGE_SIZE` is evaluated in 32-bit `int` (the first scan's counter `i` is an `int`), then sign-extended to `uint64_t` | byte `i = 65536`, bit 0: frame 2^19 at 2 GiB yields `0xFFFF_FFFF_8000_0000` | the frame's physical address `0x8000_0000`, as the second scan (src/pmm.c:103, `uint64_t i`) computes it | not executed | Pmm.FirstScanAddressAsWritten | Bitmap.FrameAddress |
| src/pmm.c:20 | `highest_pfn = (highest_addr + PAGE_SIZE - 1) / PAGE_SIZE` in `uint64_t`, where the sum wraps when `highest_addr` lies within a page of 2^64 | entries `[0, 0x10000)` usable and `[0xFFFF_FFFF_FFFF_F000, +0x800)` reserved: `highest_addr = 2^64 - 2048`, `highest_pfn = 0`, `bitmap_size = 0`, and the third loop then writes bits for frames 0 to 15 outside the bitmap | the ceiling of `highest_addr / PAGE_SIZE`, 2^52 frames and `bitmap_size = 2^49` | not executed; no x86-64 machine reports memory that high | Pmm.BitmapBytesWraps | Pmm.BitmapBytes |
