# Verified model of the ntsim guest machine

`ntsim` emulates enough of a Windows kernel to run a driver: a sparse memory, guest page tables,
an image builder and mapper, exception unwinding, a pool, timers, a process list, an integrity
scan, an interpreter's flags and a time-stamp counter. `linux-sim` beside it loads kernel modules.
This project models those parts in Dafny and proves what they promise. `dafny verify dfyconfig.toml`
checks everything.

## How the project is laid out

Each part has a value-level model, written as functions on values, lemmas about those functions, and the
running form: a class or method that updates its fields in place and is proved to compute exactly
those functions. Memory is one value throughout: `Store.Store`, a map from page number to 4096
bytes, zero where no page is.

- `Wrappers` holds the Option type.
- Memory: `Bytes`, `Store`, and the class in `SparseMemory` (module `Memory`); `Backing` and
  `LiveBacking` make pages present without changing a byte.
- Guest paging: `PageTables` (entries, walks, the forest of tables), `TableBuilder` (mapping from a
  table down), `MmuModel` (cache, translation, mapping), `MmuReference` (the manual's walk),
  `MmuRefinement` (what each operation keeps), `DemandPaging` (ensureRange), `PlainMachine` (what it all stands for: a page map and bytes)
  and `PlainSpans` (what spans do to it), `VirtualMemory` (spans through the MMU), `MmuRuns` (runs),
  `FlatMemory` (when the page map vanishes too), and `MmuDevice` (the two objects).
- Self-mapped tables: `PageTableSpace` and, as an object, `PageTableObject`.
- Images: `Buffers`, `ImportBlob`, `ImportBlobWriter`, `ImportBlobReader`, `PeImage`, `PeBuilder`,
  `PeParse`, `PeHeaders`, `PeMap`, `PeMapper`, `PeLoad` and `PeLink` (any file), and `PeRoundTrip`
  (built files).
- Exceptions: `Unwind`, `UnwindInfo`, `SehDispatch`.
- Process list: `ProcessRing`, `ProcessList`, `ProcessTable`.
- Pool and clock: `Prng`, `Pool`, `KernelPool`, `Timers`, `KernelClock`.
- Modules: `ElfLoader`, `ModuleLoader`.
- Processor: `Alu`, `VirtualTsc`.

## The main results

- **Guest memory refines a plain machine** (`MmuRuns.RunAgrees`, `MmuModel.TranslateTransparent`):
  table bytes, a bump allocator, accessed bits and a cache, over every run of table operations and
  of reads, writes and fetches with pages mapped in the middle of them, answer as a map from (address
  space, page) to frame and permissions plus one byte at each physical address. The plain machine
  predicts every output, frame numbers included, and is told nothing.
- **Write, then read** (`VirtualMemory.WriteReadBack`, `VirtualMemory.WriteKeepsOthers`): when a
  successful write is read back, as an if-and-only-if, and what a write leaves alone.
- **Zero-filled memories** (`FlatMemory.BootFlat`): with demand mapping alone, the frames vanish and
  each address space is one zero-filled byte memory.
- **Alias windows** (`PageTableSpace.StartRuns`): a collision only where two index paths really
  share a window, every window equal to its frame, edits through windows taken, and every translation
  foretold, the self-map region and the frames of tables included (`PageTableSpace.SelfMapWalk`).
- **The manual's walk** (`MmuReference.UncachedIs`): on any tables, translation is the processor
  manual's walk of four entries, each bit named by its place.
- **Build, parse, map** (`PeParse.ParseBuilt`, `PeRoundTrip.MapBuilt`): the printer and the parser undo
  each other through the file and the memory address space.
- **Mapping any file** (`PeLoad.MapRelocates`, `PeLink.MapImports`, `PeHeaders.ParseHeaders`): relocation
  directory, import directory and headers are taken from the file's bytes, wherever they are.
- **Unwinding** (`Unwind.UnwindUndoesPrologue`, `UnwindInfo.ReadEncoded`, `SehDispatch.DispatchIff`): prologues undone, unwind
  structures decoded, and the dispatch told from scope fields, filter results and return addresses.
- **Process ring and scan** (`ProcessRing.ScanOkIff`, `ProcessList.BootScan`, `ProcessList.BootUnlinkScan`,
  `ProcessList.UnlinkUnseenIff`).
- **Pool safety** (`Pool.PoolSafe`, `Pool.OverrunReported`), **timers** (`Timers.AdvanceSplit`),
  **relocation order** (`ElfLoader.OrderFree`, `ElfLoader.PcRelativeIff`), **limb arithmetic**
  (`Alu.Cpu.AddNumbers`, `Alu.CmpConditions`) and the **polling clock** (`VirtualTsc.DeadlineReached`).

## Where the code does less than one might expect

Each of these is kept as the code has it, and the exact condition is proved.

- `ensureRange` asked by a non-canonical address maps the sign-extended page anew, even when that
  page is mapped already (`DemandPaging.EnsureKeepsIffCanonical`).
- The integrity scan's comment says every back link is checked; the first entry's is only required
  not to be null (`ProcessRing.FirstBlinkUnchecked`, and `ProcessRing.ScanOkIff` for the exact verdict).
- With two pages of a span on one frame, a write that succeeds need not be read back
  (`MmuRuns.SharedFrameLoses`; `VirtualMemory.WriteReadBack` has the exact condition).
- Two processes of one name make a freshly seeded list scan as not ok (`ProcessList.BootScan`). When
  the first of the two is then unlinked the scan turns ok, so the unlink goes unseen
  (`ProcessList.UnlinkUnseenIff`).
- The seeded protection byte is 0x26; the comment beside it says 0x62.
- A pool size above 2^31 - 16 wraps in 32-bit arithmetic and the next block overlaps (`Pool.RoomIff`).
- A timer with 64 or more expirations due in one call is left before re-arming, so splitting an
  advance in two can fire one of them twice (`Timers.AdvanceSplit`).
- Condition codes 0xc and 0xd repeat 0xe and 0xf (`Alu.CmpConditions`); `adc` and `sbb` never set the
  overflow flag (`Alu.CarryOverflowLost`, and `Alu.CarryOverflowIff` for the operands it is wrong on).
- The time-stamp counter masks its clock to 64 bits, and the clock can be negative: a fresh one polled
  at step 0 (as packages/ntsim/test/arch.test.mjs:129-133 begins to) draws a jitter of -13 at its
  fifth read, jumps to 2^64 - 13, and is back at zero at its fourteenth (`VirtualTsc.BootWraps`).
  `VirtualTsc.RunRisesIff` says exactly which runs rise.
- With a no-execute page, `PageTableSpace.translate` gives the frame with bit 63 set, since it masks no
  high bit of the entry (`PageTableSpace.LeafLeads`).
- Of the alias windows only those of level 1 tables translate to their tables, as they do through a
  real self-map; the others stop at an entry 0x1ff that is never linked (`PageTableSpace.WindowTranslates`).
- Behind the prologue of an interrupt routine `unwindFrame` takes the interrupted rsp for rip
  (`Unwind.UnwindMachineFrame`, against section 6.14.2 of volume 3A of the Intel manual).
- A relocation directory outside all raw data is not refused; the walk then starts at the head of the
  file (`PeLoad.StrayDirectory`).
- A translated memory to which no MMU is attached yet calls its own overriding methods without end
  (packages/ntsim/src/paging.mjs:412-416); the methods of `MmuDevice.TranslatedMemory` ask for one.
- A relocation field that does not fit is truncated with a note; the field means S + A exactly when
  no note was made (`ElfLoader.PcRelativeIff`, `ElfLoader.AbsoluteIff`).

## What the requirements stand for

- Physical memory ends at 2^52, where the frame mask of an entry ends; a legal run
  leaves four frames below it. The MMU's first frame is page-aligned.
- `mapPage` does not test the page-size bit of upper entries; `MmuRefinement.MapPageWorks` therefore
  asks that none lies on the path, which holds in every run since no operation writes one.
- Data accesses stay off the frames that hold page tables (`PlainMachine.Legal`): through such a page
  a guest could rewrite the tables themselves. Mapping those frames is allowed.
- Page-table spaces use frames below 2^39, or below 2^30 once a process has self-reference index 0, and
  nothing else is materialized in the region of the windows (`PageTableSpace.RoomFor`). Edits through a
  window go to the window of an existing table, and the next translation takes them.
- PE plans stay within the 32-bit fields of the format, and below 2^31 where a name RVA needs its
  top bit clear (`PeParse.Representable`).
- Function tables are sorted and disjoint, as a linker writes them. A prologue sets its frame
  register at most once and its saved slots do not overlap.
- Page-table walks, pools and rings lie in unbounded natural addresses, as the source's BigInt
  addresses do; 64-bit words wrap where the source masks them.

## Model

| member | source | states |
|---|---|---|
| `Memory.SparseMemory.constructor` | packages/ntsim/src/memory.mjs:16-28 | An empty memory holds no page, and reads as zero everywhere. |
| `Memory.SparseMemory.EnsurePage` | packages/ntsim/src/memory.mjs:30-38 | The buffer of a page; a missing page is created zero-filled and no byte changes. |
| `Memory.SparseMemory.ReadSpan` | packages/ntsim/src/memory.mjs:41-64 | A page-splitting read of any length gives the bytes of the flat memory, zero where no page is, and materializes nothing. |
| `Memory.SparseMemory.WriteSpan` | packages/ntsim/src/memory.mjs:66-81 | A page-splitting write of any length is one flat write: exactly the covered bytes change, exactly the met pages appear and become dirty. |
| `Memory.SparseMemory.ReadWord` | packages/ntsim/src/memory.mjs:84-86 | u8, u16 and u32 are little-endian reads of the flat memory. |
| `Memory.SparseMemory.WriteWord` | packages/ntsim/src/memory.mjs:89-93 | w8, w16 and w32 write the low bytes of the value, little-endian. |
| `Memory.SparseMemory.ReadU64` | packages/ntsim/src/memory.mjs:87 | u64 is a little-endian read of eight bytes, across page edges or not. |
| `Memory.SparseMemory.WriteU64` | packages/ntsim/src/memory.mjs:94-99 | w64 writes the value modulo 2^64, also for negative values. |
| `Memory.SparseMemory.CanRead` | packages/ntsim/src/memory.mjs:147-156 | True exactly when every byte of the span lies in a materialized page. |
| `Memory.SparseMemory.Dump` | packages/ntsim/src/memory.mjs:159-163 | Every materialized page once, with its bytes. |
| `Memory.SparseMemory.Restore` | packages/ntsim/src/memory.mjs:165-169 | The memory of a list of page images; later ones win, nothing is dirty. |
| `Memory.DumpRestore` | packages/ntsim/src/memory.mjs:159-169 | Any listing of a memory's pages rebuilds that memory: restore undoes dump. |
| `Memory.SnapshotCycle` | packages/ntsim/src/memory.mjs:159-171 | dump then restore leaves the same pages and bytes in a live memory. |
| `Store.PutGet` | packages/ntsim/src/memory.mjs:66-81 | A write changes exactly the bytes it covers and materializes exactly the pages it meets. |
| `Store.WroteIsPut` | packages/ntsim/src/memory.mjs:66-81 | Those byte-by-byte facts determine the memory after the write. |
| `Store.PutAppend` | packages/ntsim/src/memory.mjs:69-79 | Writing two adjacent pieces is writing their concatenation, wherever the page edges fall. |
| `Store.WordRoundTrip` | packages/ntsim/src/memory.mjs:84-99 | A word of any width reads back modulo that width across page edges; bytes clear of it read as before. |
| `Store.W64U64` | packages/ntsim/src/memory.mjs:87-99 | w64 then u64 gives the value modulo 2^64 and keeps every word clear of it. |
| `PageTables.LeafEntryFields` | packages/ntsim/src/paging.mjs:283-308 | The leaf entry mapPage writes has the frame, write, user and no-execute bits asked for and is accessed and dirty. |
| `PageTables.LeafEntryBits` | packages/ntsim/src/paging.mjs:283-308 | Each bit of that entry by its place: present, accessed and dirty set; write, user, global and no-execute as asked; frame bits 12 to 51 those of the address; all others clear. |
| `PageTables.CanonicalizeFacts` | packages/ntsim/src/paging.mjs:48-52 | canonicalize sign-extends bit 47: the result is canonical, on the same 36-bit page and offset. |
| `PageTables.ShiftedIndices` | packages/ntsim/src/paging.mjs:149-196 | The four shifted 9-bit indices of an address spell its 36-bit page number. |
| `PageTables.WalkSameButAD` | packages/ntsim/src/paging.mjs:149-222 | Accessed and dirty bits decide no walk from any table. |
| `PageTables.WalkOffPath` | packages/ntsim/src/paging.mjs:149-222 | A walk depends only on the entries on its own path through the forest of tables. |
| `TableBuilder.MapFromWorks` | packages/ntsim/src/paging.mjs:283-308 | From any table down: the page ends in the leaf, missing tables are hung in fresh zeroed frames, every other walk and every byte outside the tables is kept; which tables appear, and on which frames, follows from the places taken before. |
| `MmuModel.TouchLeafEffect` | packages/ntsim/src/paging.mjs:209-222 | Marking a leaf changes nothing in memory but that entry's accessed and dirty bits. |
| `MmuModel.TranslateTransparent` | packages/ntsim/src/paging.mjs:134-223 | On a sound cache, translate gives what an uncached walk gives, keeps the cache sound and within its limit, and leaves the 4K leaf accessed (and dirty for writes) even on a cache hit. |
| `MmuModel.UncachedSame` | packages/ntsim/src/paging.mjs:149-222 | Memories whose tables agree off accessed and dirty bits translate every address alike from every root. |
| `MmuReference.UncachedIs` | packages/ntsim/src/paging.mjs:134-207 | On any tables, large pages and self-references included, translation is the four-entry walk of the processor manual with every bit named by its place: which fault, or which frame with the offset or-ed in. |
| `MmuRefinement.MapPageWorks` | packages/ntsim/src/paging.mjs:283-308 | After mapPage the page walks to the leaf asked for; no other page of this or any other address space and no byte outside the tables changes. |
| `MmuRefinement.UnmapWorks` | packages/ntsim/src/paging.mjs:311-315 | unmap removes that page only, in every address space. |
| `MmuRefinement.NewAddressSpaceWorks` | packages/ntsim/src/paging.mjs:274-278 | A new address space maps nothing, in a fresh frame, and disturbs no other. |
| `MmuRefinement.TranslateKeeps` | packages/ntsim/src/paging.mjs:134-223 | A translation keeps the forest and all walks and writes no byte outside the tables. |
| `MmuRefinement.CacheKept` | packages/ntsim/src/paging.mjs:101-127 | Data writes and new address spaces need no flush: the cache stays sound. |
| `MmuRuns.StepAgrees` | packages/ntsim/src/paging.mjs:105-464 | Any one operation - mapPage, unmap, translate, newAddressSpace, a cr3 switch, frameAlloc, ensureRange, new windows or guard, span read, span write, fetch, raw read or write - has the output the plain machine computes on its own, and agreement is kept. |
| `MmuRuns.RunAgrees` | packages/ntsim/src/paging.mjs:105-464 | Every run of those operations, with pages and tables allocated in the middle of accesses, any permissions and shared frames, has the outputs of a map from (root, page) to frame and permissions plus a byte at each physical address; the plain machine is told nothing. |
| `MmuRuns.BootRuns` | packages/ntsim/src/paging.mjs:71-464 | The same for every legal run from a new MMU. |
| `MmuRuns.SharedFrameLoses` | packages/ntsim/src/paging.mjs:283-308 | A run from boot with two pages mapped to one frame: a write across both succeeds and is not read back. |
| `MmuDevice.Mmu.constructor` | packages/ntsim/src/paging.mjs:71-87 | The initial registers, cursor and empty cache. |
| `MmuDevice.Mmu.EnablePaging` | packages/ntsim/src/paging.mjs:93-101 | Paging is on, cr3 is the given frame and the cache is empty. |
| `MmuDevice.Mmu.FrameAlloc` | packages/ntsim/src/paging.mjs:105-110 | The frames from the cursor on, which moves past them. |
| `MmuDevice.Mmu.WriteTableEntry` | packages/ntsim/src/paging.mjs:121-127 | An entry write, after which the cache is empty. |
| `MmuDevice.Mmu.TranslateVa` | packages/ntsim/src/paging.mjs:134-223 | The cached walk with its loop and leaf update is MmuModel.Translate, outcome and state. |
| `MmuDevice.Mmu.MarkLeaf` | packages/ntsim/src/paging.mjs:209-222 | The accessed and dirty update is MmuModel.TouchLeaf. |
| `MmuDevice.Mmu.Lookup` | packages/ntsim/src/paging.mjs:258-266 | The probe answers whether a read translates and restores the demand flag. |
| `MmuDevice.Mmu.NewAddressSpace` | packages/ntsim/src/paging.mjs:274-278 | One zeroed frame, as MmuModel.NewAddressSpace. |
| `MmuDevice.Mmu.MapPage` | packages/ntsim/src/paging.mjs:283-308 | The level-by-level loop is MmuModel.MapPage. |
| `MmuDevice.Mmu.WalkToPte` | packages/ntsim/src/paging.mjs:318-332 | The level 1 slot of an address, or none when a table on the way is missing. |
| `MmuDevice.Mmu.Unmap` | packages/ntsim/src/paging.mjs:311-315 | The entry is zeroed when there is one, as MmuModel.Unmap. |
| `MmuDevice.Mmu.ReadPte` | packages/ntsim/src/paging.mjs:335-338 | The raw level 1 entry, or none. |
| `MmuDevice.Mmu.EnsureRange` | packages/ntsim/src/paging.mjs:230-247 | The page loop is DemandPaging.Ensure, whose windows and frames DemandPaging.EnsureRangeWorks describes. |
| `MmuDevice.Mmu.IdentityPaFor` | packages/ntsim/src/paging.mjs:249-255 | An answer exactly when the address lies in some window, and then the start of its own page. |
| `DemandPaging.IdentityIff` | packages/ntsim/src/paging.mjs:249-255 | The model's search finds a window exactly when some window holds the 64-bit address, and answers the start of the address's own page. |
| `DemandPaging.EnsurePageWorks` | packages/ntsim/src/paging.mjs:230-247 | One page: it translates afterwards; to its old leaf if it had one, if some window holds its address to the frame that bits 12 to 51 of the address name, else to the frame just handed out. Other walks and bytes outside the tables are kept. |
| `DemandPaging.EnsureRangeWorks` | packages/ntsim/src/paging.mjs:230-247 | ensureRange terminates with every page of a canonical range translating; mapped pages keep their leaves, a window page is PA = VA below 2^52 (above it the frame is the address modulo 2^52), new pages get pairwise distinct fresh frames, and every byte off the frames taken for tables is kept. |
| `DemandPaging.EnsureKeepsIffCanonical` | packages/ntsim/src/paging.mjs:235-246 | A page already mapped keeps its mapping exactly when it is asked for by its canonical address. |
| `VirtualMemory.XlateAgrees` | packages/ntsim/src/paging.mjs:379-408 | An access that the guard lets through is granted or refused as the page map says, at the same physical address, the missing page mapped on the way. |
| `VirtualMemory.ReadAgrees` | packages/ntsim/src/paging.mjs:412-434 | The chunk loop of a read gives, for any span and any permissions, the bytes or the fault that reading byte by byte through the page map gives. |
| `VirtualMemory.WriteAgrees` | packages/ntsim/src/paging.mjs:436-455 | The chunk loop of a write is the byte-by-byte write through the page map; it stops at the same byte with the same bytes written. |
| `VirtualMemory.FetchAgrees` | packages/ntsim/src/paging.mjs:458-464 | A fetch checks execute permission once and takes the physically consecutive bytes from there. |
| `VirtualMemory.EnsureAgrees` | packages/ntsim/src/paging.mjs:230-247 | ensureRange over any range, canonical or not, maps the pages the plain machine maps, on the same frames. |
| `VirtualMemory.WriteReadBack` | packages/ntsim/src/paging.mjs:412-455 | A write that succeeded is read back from its span exactly when the guard lets the span be read and no two bytes that differ have one physical address on the page map before the write, with the missing pages in their windows or on the frames to come; the tables after the write say the same. |
| `VirtualMemory.WriteKeepsOthers` | packages/ntsim/src/paging.mjs:436-455 | Whatever a write came to, every byte outside the page tables that none of the span's addresses leads to is kept. |
| `VirtualMemory.ReadKeepsBytes` | packages/ntsim/src/paging.mjs:412-434 | A read, whatever pages it maps, keeps every byte outside the page tables. |
| `VirtualMemory.UnmapAgrees` | packages/ntsim/src/paging.mjs:311-315 | unmap takes the one page from the page map and nothing else. |
| `VirtualMemory.NewSpaceAgrees` | packages/ntsim/src/paging.mjs:274-278 | A new address space has no pages, and its root takes the next frame. |
| `PlainSpans.WriteDoes` | packages/ntsim/src/paging.mjs:436-455 | On the page map a write, whatever its outcome, has laid a prefix of the bytes on the pages the span is on now, later bytes over earlier ones, and changed nothing else; the prefix is everything exactly when it succeeded. |
| `PlainSpans.WriteMapped` | packages/ntsim/src/paging.mjs:436-455 | A write to writable mapped pages off the tables succeeds when the guard lets it, and maps nothing. |
| `PlainSpans.DemandedZero` | packages/ntsim/src/paging.mjs:230-247 | A demanded page outside the windows is a frame never used before: writable, executable, supervisor, and zero as long as nothing was written above the allocator. |
| `FlatMemory.FlatRunAgrees` | packages/ntsim/src/paging.mjs:365-455 | With every page demand-mapped, no window and no guard, the page map behaves as one zero-filled byte memory for each address space, over every run of reads, writes, unmaps, new spaces and switches; such runs never touch a table. |
| `FlatMemory.BootFlat` | packages/ntsim/src/paging.mjs:365-455 | The cached machine on bytes, from boot, answers those runs as the zero-filled memories. |
| `MmuDevice.TranslatedMemory.Attach` | packages/ntsim/src/paging.mjs:371-374 | Attaching an MMU empties its cache and changes nothing else. |
| `MmuDevice.TranslatedMemory.Xlate` | packages/ntsim/src/paging.mjs:379-408 | The guard first, then translate, map on a not-present fault, translate again: VirtualMemory.Xlate. |
| `MmuDevice.TranslatedMemory.ReadSpan` | packages/ntsim/src/paging.mjs:412-434 | With an MMU attached, untranslated reads go to its raw store; translated ones are VirtualMemory.ReadBytes. |
| `MmuDevice.TranslatedMemory.WriteSpan` | packages/ntsim/src/paging.mjs:436-455 | With an MMU attached, untranslated writes go to its raw store; translated ones are VirtualMemory.WriteBytes. |
| `MmuDevice.TranslatedMemory.FetchBytes` | packages/ntsim/src/paging.mjs:458-464 | With an MMU attached, untranslated fetches read its raw store; translated ones are VirtualMemory.FetchBytes. |
| `PageTableSpace.SplitJoin` | packages/ntsim/src/paging.mjs:543-562 | splitVa undoes joinVa in either canonical half. |
| `PageTableSpace.TableWindowIs` | packages/ntsim/src/paging.mjs:618-634 | The alias address computed from index fields is the window of the table's place, for the root and for every lower level, under every self-reference index. |
| `PageTableSpace.ZeroIndexBound` | packages/ntsim/src/paging.mjs:618-634 | Under self-reference index 0 every window of a mappable path lies at or above 2^30, and one of them is at 2^30: the bound that the runs put on frames then is met. |
| `PageTableSpace.WindowsApart` | packages/ntsim/src/paging.mjs:618-682 | Two tables never share an alias window. |
| `PageTableSpace.PokeOk` | packages/ntsim/src/paging.mjs:685-689 | An entry written through poke64 reaches its frame and its window and nothing else. |
| `PageTableSpace.CreateProcessOk` | packages/ntsim/src/paging.mjs:734-757 | createProcess, under any index from 0 to 511, collides exactly when its self-reference index is in use; otherwise it adds one root table on the next frame, an address space that maps nothing, and changes no page of any other. |
| `PageTableSpace.SentinelRootCollides` | packages/ntsim/src/paging.mjs:670-682 | A path through PML4 entry 0x1ff folds into the root's own window and collides. |
| `PageTableSpace.MapPageOk` | packages/ntsim/src/paging.mjs:767-828 | Each error is raised exactly on its index condition; on success only the asked page of the asked process has a new leaf, the tables missing on its path and no others are made, on the next frames, and each table still equals its window. |
| `PageTableSpace.LeafLeads` | packages/ntsim/src/paging.mjs:818-826 | A mapped page leads to its frame exactly when it is not no-execute (or its address has bit 63 already): translate keeps the no-execute bit in the address. It is present exactly as asked and never large. |
| `PageTableSpace.LeafFlags` | packages/ntsim/src/paging.mjs:818-826 | The low bits of the leaf by their place: present, writable and user as asked, accessed and dirty set, the others clear. |
| `PageTableSpace.LeafNoExecute` | packages/ntsim/src/paging.mjs:818-826 | Bit 63 of the leaf is set exactly when no-execute is asked or the address has it. |
| `PageTableSpace.SyncNoop` | packages/ntsim/src/paging.mjs:692-699 | When tables and windows agree, copying windows back changes nothing. |
| `PageTableSpace.WalkIsPte` | packages/ntsim/src/paging.mjs:846-901 | Outside the self-map region the walk's rows end at the page's level 1 entry. |
| `PageTableSpace.TranslateOk` | packages/ntsim/src/paging.mjs:846-901 | Outside the self-map region translate gives the leaf's frame plus the offset exactly when the leaf is present, and leaves the state as it was. |
| `PageTableSpace.LargeWalk` | packages/ntsim/src/paging.mjs:846-901 | On any tables the walk ends early at a 1 GB or 2 MB entry, with the entry's upper bits and the offset of that size, and with the rows seen so far. |
| `PageTableSpace.SelfMapWalk` | packages/ntsim/src/paging.mjs:846-901 | Every address of the self-map region translates exactly when the indices below its leading self-references spell the place of a table, and then to that table's frame. |
| `PageTableSpace.WindowTranslates` | packages/ntsim/src/paging.mjs:846-901 | The window of a level 1 table translates to that table's own frame, the root's window does under index 0x1ff, and no other window translates. |
| `PageTableSpace.WindowEditTakes` | packages/ntsim/src/paging.mjs:685-699 | An entry edited through its window is the one the next translate uses: the state is the one poke64 would have left. |
| `PageTableSpace.LeafEditTakes` | packages/ntsim/src/paging.mjs:685-901 | A leaf edited through its window remaps its page and only it. |
| `PageTableSpace.StepAgrees` | packages/ntsim/src/paging.mjs:692-901 | One operation - a new process under any index, a mapping, a translation of any address, the self-map region included, an edit of a level 1 entry through its window - has the plain machine's output, with an alias collision only where that machine has one, and windows still equal their frames. |
| `PageTableSpace.RunAgrees` | packages/ntsim/src/paging.mjs:734-901 | Every legal run from a good state has the plain machine's outputs throughout. |
| `PageTableSpace.StartRuns` | packages/ntsim/src/paging.mjs:645-901 | The same for every legal run from a new page-table space. |
| `PageTableObject.PageTableSpace.AllocStructFrame` | packages/ntsim/src/paging.mjs:670-682 | A mirrored zeroed frame, or the collision error, as PageTableSpace.AllocStructFrame. |
| `PageTableObject.PageTableSpace.Poke64` | packages/ntsim/src/paging.mjs:685-689 | The double write is PageTableSpace.Poke. |
| `PageTableObject.PageTableSpace.SyncAliasesBack` | packages/ntsim/src/paging.mjs:692-699 | The copying loop is PageTableSpace.SyncBack. |
| `PageTableObject.PageTableSpace.CreateProcess` | packages/ntsim/src/paging.mjs:734-757 | The object's new state and result are PageTableSpace.CreateProcess. |
| `PageTableObject.PageTableSpace.MapPage` | packages/ntsim/src/paging.mjs:767-828 | The object's new state and result are PageTableSpace.MapPage. |
| `PageTableObject.PageTableSpace.Translate` | packages/ntsim/src/paging.mjs:846-901 | The walk with its rows, after the copy back, is PageTableSpace.Translate. |
| `Buffers.ReadCString` | packages/ntsim/src/pe.mjs:20-27 | The bounded scan gives the bytes before the first zero. |
| `Buffers.CStringHeld` | packages/ntsim/src/pe.mjs:20-27 | A zero-terminated string reads back, cut to the window exactly when it is longer. |
| `Buffers.FlatHolds` | packages/ntsim/src/pebuilder.mjs:65-72 | Each part of a concatenation stands at the sum of the lengths before it. |
| `ImportBlob.ImpBlobSize` | packages/ntsim/src/pebuilder.mjs:36-50 | The size computed up front is the rounded sum of the five regions. |
| `ImportBlob.BlobLen` | packages/ntsim/src/pebuilder.mjs:36-72 | The rounded size has room for all regions, and the blob has that size. |
| `ImportBlobWriter.Offsets` | packages/ntsim/src/pebuilder.mjs:63-72 | The three sub-offset loops give where tables, strings and address tables begin. |
| `ImportBlobWriter.WriteNames` | packages/ntsim/src/pebuilder.mjs:74-80 | The name loop leaves the DLL names behind the descriptors and records where each begins. |
| `ImportBlobWriter.WriteImport` | packages/ntsim/src/pebuilder.mjs:84-107 | One import: strings, both tables and the descriptor are appended to their regions, cursors included. |
| `ImportBlobWriter.WriteImpBlob` | packages/ntsim/src/pebuilder.mjs:53-111 | The five interleaved cursors leave the concatenation of descriptors, names, tables, strings, address tables and padding. |
| `ImportBlobReader.DescReads` | packages/ntsim/src/pebuilder.mjs:101-107 | A descriptor's three RVAs read back, in any file that holds the blob. |
| `ImportBlobReader.NameReads` | packages/ntsim/src/pebuilder.mjs:74-80 | Each DLL name reads back from its RVA. |
| `ImportBlobReader.TableReads` | packages/ntsim/src/pebuilder.mjs:88-99 | Entry j of table i is the RVA of its hint and name, and the entry after the last is zero. |
| `ImportBlobReader.FuncReads` | packages/ntsim/src/pebuilder.mjs:88-93 | Each function name reads back two bytes past its hint RVA. |
| `PeImage.RangesDisjoint` | packages/ntsim/src/pebuilder.mjs:125-153 | Section ranges, the import blob included, are disjoint in file and memory, after the headers and inside both; each begins on a page and has room for its raw data. |
| `PeImage.PlacesAre` | packages/ntsim/src/pebuilder.mjs:125-153 | Nothing is wasted: the first section stands at the first page behind the headers, each next one after the least number of pages that holds the one before, and likewise in the file with 512-byte blocks; the blob is the last section. |
| `PeBuilder.PeBuilder.AddSection` | packages/ntsim/src/pebuilder.mjs:25-28 | Appends a section. |
| `PeBuilder.PeBuilder.AddImports` | packages/ntsim/src/pebuilder.mjs:30-33 | Appends imports in order. |
| `PeBuilder.PlaceInMemory` | packages/ntsim/src/pebuilder.mjs:125-138 | The RVA loop gives the RVA of every section, of the blob and the image size. |
| `PeBuilder.PlaceInFile` | packages/ntsim/src/pebuilder.mjs:141-153 | The file cursor gives the offset and size of every section's raw data. |
| `PeBuilder.WriteSection` | packages/ntsim/src/pebuilder.mjs:197-205 | A section header of forty bytes with name cut to eight, sizes, RVA, file offset and characteristics. |
| `PeBuilder.PeBuilder.Build` | packages/ntsim/src/pebuilder.mjs:113-220 | Two-phase building leaves exactly the file PeImage.Image, headers, section headers and padded data in order, and reports image size and blob RVA. |
| `PeParse.ParsePe` | packages/ntsim/src/pe.mjs:31-76 | The parser's loops compute PeParse.Parse, each error on its own check. |
| `PeHeaders.ParseIff` | packages/ntsim/src/pe.mjs:31-50 | Each refusal exactly on the bytes that cause it, in the order of the checks, for every file. |
| `PeHeaders.ParseHeaders` | packages/ntsim/src/pe.mjs:31-76 | Parsing recovers the headers of any file that has them, at any offset and with an optional header of any size. |
| `PeHeaders.TrimIs` | packages/ntsim/src/pe.mjs:62-65 | A section name is cut at its first zero with no line feed or carriage return behind it, and nowhere else. |
| `PeParse.ParseBuilt` | packages/ntsim/src/pe.mjs:31-76 | Parsing a built image recovers entry, base, sizes, all section headers and the sixteen directories. |
| `PeParse.OtherFields` | packages/ntsim/src/pebuilder.mjs:168-185 | The header fields of a built image that parsing passes over: characteristics, the two alignments, stack and heap sizes. |
| `PeParse.BuiltDirs` | packages/ntsim/src/pebuilder.mjs:187-195 | The sixteen directories of a built image: the import descriptors with the null one, the exception table given, and nothing else. |
| `PeMap.FindOffset` | packages/ntsim/src/pe.mjs:78-90 | The section search is PeMap.RvaToOffset: headers map to themselves, the first covering section decides. |
| `PeMap.OffsetIff` | packages/ntsim/src/pe.mjs:78-90 | An RVA has a file offset exactly when it is below the headers' size, or the first section that reaches it holds it in its raw data. |
| `PeMap.BlockIs` | packages/ntsim/src/pe.mjs:165-182 | Entry by entry a block names its page plus offset for types 9 and 10, nothing for type 0, and reports the first entry of another type. |
| `PeMap.RebasedOk` | packages/ntsim/src/pe.mjs:158-184 | Relocating non-overlapping fields moves each by base minus preferred base, modulo 2^64, and changes no other byte. |
| `PeLoad.LoadedAny` | packages/ntsim/src/pe.mjs:133-156 | For any file with separate sections: raw data at base plus RVA, zeros behind it up to the virtual size, the headers at the base, nothing else changed. |
| `PeLoad.DirectoryReads` | packages/ntsim/src/pe.mjs:160-184 | Reading an encoded relocation directory gives back exactly the fields its blocks name, padding entries skipped. |
| `PeLoad.StrayDirectory` | packages/ntsim/src/pe.mjs:160-164 | A relocation directory outside all raw data is walked from the head of the file, as if the file began with a zero byte. |
| `PeLoad.MapRelocates` | packages/ntsim/src/pe.mjs:129-184 | mapPe on any file whose relocation directory, number 5, holds known types only: it never refuses over a relocation, every field a block names holds its loaded value plus base minus preferred base modulo 2^64, their number is reported, and every byte off the fields and off the import slots is as loaded. |
| `PeLoad.MapBadReloc` | packages/ntsim/src/pe.mjs:129-184 | On a directory with an unknown type: refused over the first one, with the fields named before it moved and every other byte as loaded. |
| `PeLoad.RelocatableHas` | packages/ntsim/src/pe.mjs:158-184 | Every file with a relocation directory lists some blocks in that sense, whatever their sizes and wherever the directory is. |
| `PeLoad.BlocksRead` | packages/ntsim/src/pe.mjs:160-184 | Blocks of known types, of any size, give exactly the fields they name. |
| `PeLoad.RawMoved` | packages/ntsim/src/pe.mjs:129-184 | For separate sections: such a field in a section's raw data holds the file's own word, moved. |
| `PeLoad.ImportsKeep` | packages/ntsim/src/pe.mjs:187-243 | Binding imports, whatever comes of it, writes address slots of listed thunks and nothing else. |
| `PeLink.AsksOne` | packages/ntsim/src/pe.mjs:208-231 | What a thunk asks for, told from the file's bytes alone: an ordinal by bit 31, the printable text behind the hint, or a bound entry where there is none. |
| `PeLink.MapImports` | packages/ntsim/src/pe.mjs:187-252 | mapPe on any file whose import directory lists given descriptors: it goes through exactly when every symbol is known, else it names the first unknown one or the unreadable name RVA; symbols are listed in order, bound entries are warned of, and slots that do not overlap hold the resolver's answers. |
| `PeLink.DirectoryHas` | packages/ntsim/src/pe.mjs:193-242 | Every file whose import directory lies in raw data lists some descriptors in that sense, so the theorem above is about all of them. |
| `PeLink.MapNoImports` | packages/ntsim/src/pe.mjs:189-192 | The other files: without import directory nothing is bound, one outside raw data is refused, and so is a file with fewer than six directories. |
| `PeMapper.Load` | packages/ntsim/src/pe.mjs:133-156 | The three loading steps are PeMap.Loaded. |
| `PeMapper.Relocate` | packages/ntsim/src/pe.mjs:158-184 | The block and entry loops move the fields of PeMap.RelocFields in order and count them, up to an unsupported type. |
| `PeMapper.BindThunks` | packages/ntsim/src/pe.mjs:205-240 | The thunk loop is PeMap.Thunks: names, ordinals, bound entries, unresolved imports. |
| `PeMapper.BindDescriptors` | packages/ntsim/src/pe.mjs:193-242 | The descriptor loop is PeMap.Descs, and ends for every file. |
| `PeMapper.MapPe` | packages/ntsim/src/pe.mjs:129-253 | mapPe leaves the memory and gives the result of PeMap.Map, also when it gives up part-way; PeLoad.MapRelocates and PeLink.MapImports say what that is. |
| `PeRoundTrip.OffsetAt` | packages/ntsim/src/pe.mjs:78-90 | In a built image an RVA inside a section is at that section's file offset. |
| `PeRoundTrip.ThunksBuilt` | packages/ntsim/src/pe.mjs:205-240 | On a built image the thunk walk of an import binds exactly its functions, in order. |
| `PeRoundTrip.DescsBuilt` | packages/ntsim/src/pe.mjs:193-242 | On a built image the descriptor walk binds every import, in order, and stops at the null descriptor. |
| `PeRoundTrip.BindImportsOk` | packages/ntsim/src/pe.mjs:193-242 | Binding fails exactly when some function is not found; otherwise the list is complete and in order, each slot holds its address and no other byte changes. |
| `PeRoundTrip.LoadedBuilt` | packages/ntsim/src/pe.mjs:133-156 | A built image loaded: headers and all raw data in place, nothing outside the image changed. |
| `PeRoundTrip.MapBuilt` | packages/ntsim/src/pe.mjs:129-253 | Build then map succeeds exactly when every import resolves; then sections are at base plus RVA, imports are listed in order and each address is in its own slot. |
| `Unwind.UnwindFrame` | packages/ntsim/src/seh.mjs:223-264 | The loop over unwind codes on a register copy is Unwind.Unwound, which Unwind.UnwindUndoesPrologue and Unwind.UnwindMachineFrame describe. |
| `Unwind.UnwindUndoesPrologue` | packages/ntsim/src/seh.mjs:223-264 | For every list of push, alloc, save and set-frame instructions, with other codes between them: every saved register and rsp are as at entry and rip is the return address; a set-frame code means its own offset, or 16 times the header's if that is zero; when the frame register anchors the codes the body may have moved rsp anywhere. |
| `Unwind.UnwindMachineFrame` | packages/ntsim/src/seh.mjs:250-256 | Behind the prologue of an interrupt routine the saved registers are as at entry, but rip becomes the interrupted rsp: the interrupted context is found exactly when its rip and rsp are both the address above the words pushed. |
| `UnwindInfo.ReadUnwindInfo` | packages/ntsim/src/seh.mjs:111-180 | The rva lookup in the parsed headers, then the cursor and slot loops: UnwindInfo.InfoAt. |
| `UnwindInfo.CodesBack` | packages/ntsim/src/seh.mjs:123-155 | Codes of one, two and three slots decode to themselves and the cursor stops right behind them. |
| `UnwindInfo.ReadEncoded` | packages/ntsim/src/seh.mjs:111-180 | Decoding an encoded UNWIND_INFO gives back header, codes, and the handler and scope table or chained entry at the aligned place, for odd and even slot counts. |
| `UnwindInfo.ReadIff` | packages/ntsim/src/seh.mjs:111-180 | On bytes nobody encoded: a structure is read exactly when its header fits; flag bit 2 makes it chained, otherwise bits 0 and 1 give it a handler, with a scope table exactly for a count from 1 to 4095, all at the even slot behind the codes. |
| `UnwindInfo.CodesEnd` | packages/ntsim/src/seh.mjs:126-127 | The code loop goes on exactly while slots are left and the next one fits in the file. |
| `SehDispatch.LookupRuntimeFunction` | packages/ntsim/src/seh.mjs:83-93 | On sorted disjoint entries the binary search gives the entry that contains the address, and none exactly when there is none. |
| `SehDispatch.ResolveUnwindInfo` | packages/ntsim/src/seh.mjs:198-210 | Lookup in the function table, decode at the rva's place in the file, and at most eight chained entries. |
| `SehDispatch.TryDispatchException` | packages/ntsim/src/seh.mjs:321-422 | The dispatch loop gives an outcome exactly when a chain of callers from the faulting frame, described by scope fields and filter results, stops with it; otherwise there is none. |
| `SehDispatch.DispatchIff` | packages/ntsim/src/seh.mjs:321-422 | An outcome is given exactly when a chain of at most 16 callers, each passing the search on, ends in a frame whose first covering scope gives it: passing and giving are told from the scope's fields, the filter's result, rip and rsp. |
| `SehDispatch.JudgeIs` | packages/ntsim/src/seh.mjs:342-416 | What one frame says to the search: no jump target runs the __finally; no filter, a failed one or verdict 1 runs the handler; -1 resumes; another nonzero verdict declines; 0, or no covering scope, goes to the caller if its rip is not 0 and its rsp higher. |
| `SehDispatch.RootIs` | packages/ntsim/src/seh.mjs:198-210 | The information that decides is that of the first covering entry, followed through chained entries as far as they decode, at most eight. |
| `SehDispatch.StopUnique` | packages/ntsim/src/seh.mjs:321-422 | The deciding frame is the innermost one: chain and outcome are unique. |
| `SehDispatch.RspRises` | packages/ntsim/src/seh.mjs:349-356 | rsp rises strictly from frame to frame. |
| `ProcessRing.UnlinkRing` | packages/ntsim/src/integrity.mjs:20-26 | Unlinking any one entry of a ring leaves the ring of the others. |
| `ProcessRing.WalkShape` | packages/ntsim/src/integrity.mjs:42-64 | On any memory the scan's walk follows forward links and stops at the head, at a null link or after 512 entries. |
| `ProcessRing.ScanOkIff` | packages/ntsim/src/integrity.mjs:27-94 | On every memory and seeded list the scan is ok exactly when the links form a chain of fewer than 512 entries that are the seeded processes. |
| `ProcessRing.ReportIs` | packages/ntsim/src/integrity.mjs:27-94 | The whole report on every memory: steps walked, cycle from 512 on, processes missed and processes met that were not seeded, and the first eight findings, a null link before every entry its successor does not point back to. |
| `ProcessRing.FirstBlinkUnchecked` | packages/ntsim/src/integrity.mjs:76-87 | A ring whose first back link is any other non-null value still scans as ok, although the comment promises that check. |
| `ProcessRing.IntactScan` | packages/ntsim/src/integrity.mjs:27-94 | The intact ring scans as ok exactly while it has fewer than 512 entries. |
| `ProcessRing.UnlinkedScan` | packages/ntsim/src/integrity.mjs:27-94 | After unlinking one process the report names it, and nothing else is wrong. |
| `ProcessList.SeedAllOk` | packages/ntsim/src/kernel.mjs:343-356 | Every record holds its pid, its name cut to fit and its protection byte; no byte outside the records changes. |
| `ProcessList.BootedOk` | packages/ntsim/src/kernel.mjs:338-367 | For every process list bootstrap leaves a circular doubly linked ring of its records, each as seeded. |
| `ProcessList.BootedBytes` | packages/ntsim/src/kernel.mjs:338-367 | The bytes of every record: pid, at most 14 bytes of the name and a zero, 0x26 for a protected process, and links to the neighbours' fields, the head before the first and behind the last. |
| `ProcessList.BootScan` | packages/ntsim/src/integrity.mjs:27-94 | Straight after bootstrap the scan is ok exactly when there are fewer than 512 processes and no two share a name. |
| `ProcessList.BootUnlinkScan` | packages/ntsim/src/integrity.mjs:27-94 | After any one process of a freshly booted list of at most 512 is unlinked, the scan names exactly it and nothing foreign if and only if no two processes share a name. |
| `ProcessList.UnlinkUnseenIff` | packages/ntsim/src/integrity.mjs:27-94 | After an unlink the scan is still ok exactly when a later process has the unlinked one's name, every other process is the last of its name, and at most 512 were seeded. |
| `ProcessTable.ProcessTable.WriteAnsi` | packages/ntsim/src/memory.mjs:132-136 | The byte loop writes what fits of the name, and a zero. |
| `ProcessTable.ProcessTable.ReadAnsi` | packages/ntsim/src/memory.mjs:122-130 | The byte loop reads up to the zero or the limit. |
| `ProcessTable.ProcessTable.Bootstrap` | packages/ntsim/src/kernel.mjs:338-367 | The seeding and linking loops leave ProcessList.Booted and the name table ProcessList.ByName. |
| `ProcessTable.ProcessTable.ListProcesses` | packages/ntsim/src/kernel.mjs:1775-1789 | On a ring the walk ends and lists every record in order. |
| `ProcessTable.ProcessTable.FindEprocessByPid` | packages/ntsim/src/kernel.mjs:1458-1470 | The first record in ring order with the pid, or none exactly when no record has it. |
| `ProcessTable.ProcessTable.Walk` | packages/ntsim/src/integrity.mjs:42-64 | The scan's walk loop is ProcessRing.WalkLinks, with its distinct records and null-link finding. |
| `ProcessTable.ProcessTable.ScanProcessList` | packages/ntsim/src/integrity.mjs:27-94 | The scan reads only and reports ProcessRing.Scan. |
| `Pool.AlignUpIff` | packages/ntsim/src/kernel.mjs:650 | The rounded size has room for the block exactly up to 2^31 - 16; beyond it the 32-bit operators wrap. |
| `Pool.AlignUpIs` | packages/ntsim/src/kernel.mjs:650 | At any size, wrapped ones included: the multiple of 16 in the signed 32-bit range that is at most 15 below size + 15 modulo 2^32. |
| `Pool.RoomIff` | packages/ntsim/src/kernel.mjs:649-661 | The bump pointer clears the new block exactly when its size is at most 2^31 - 16. |
| `Pool.AllocBytes` | packages/ntsim/src/kernel.mjs:649-674 | An allocation writes only its own header magic and guard, backs its whole span with pages and changes no other byte. |
| `Pool.AllocPlaces` | packages/ntsim/src/kernel.mjs:649-674 | Where an allocation puts things: jitter of one generator step, header 16 bytes below the address, magic and 0xa5 bytes, the new bump pointer, and exactly the pages of the span. |
| `Pool.AllocSound` | packages/ntsim/src/kernel.mjs:649-674 | Allocation keeps blocks disjoint, aligned and backed, and all guards whole. |
| `Pool.FreeSound` | packages/ntsim/src/kernel.mjs:708-725 | Free answers unknown, double free or freed exactly on its condition, marks one block and touches no byte. |
| `Pool.OverrunReported` | packages/ntsim/src/kernel.mjs:728-736 | Over every run of allocations, frees and guest writes anywhere, the final sweep reports a block exactly when it is live and the last write to some byte of its guard since its allocation put another value there. |
| `Pool.VerifyGuardsAppend` | packages/ntsim/src/kernel.mjs:728-736 | The sweep reports in allocation order. |
| `Pool.PoolSafe` | packages/ntsim/src/kernel.mjs:628-736 | Every run of allocations, frees and in-bounds writes, with any jitter, keeps headers, payloads and guards disjoint, 16-aligned and backed, and the sweep reports nothing. |
| `Pool.PayloadKept` | packages/ntsim/src/kernel.mjs:628-736 | Over a run a payload byte no guest write covers keeps its value. |
| `KernelPool.KernelPool.AllocPool` | packages/ntsim/src/kernel.mjs:649-674 | The object's new state is Pool.Alloc. |
| `KernelPool.KernelPool.FreePool` | packages/ntsim/src/kernel.mjs:708-725 | The object's new list and answer are Pool.Free. |
| `KernelPool.KernelPool.VerifyAllGuards` | packages/ntsim/src/kernel.mjs:728-736 | The byte-by-byte sweep is Pool.VerifyGuards. |
| `KernelPool.KernelPool.HeapNextJitter` | packages/ntsim/src/kernel.mjs:628-637 | One xorshift step and its jitter. |
| `Prng.XorshiftZero` | packages/ntsim/src/kernel.mjs:628-634 | No state but zero leads to zero, the one state the generator never leaves. |
| `Backing.BackedKeeps` | packages/ntsim/src/kernel.mjs:668-671 | Making pages present changes no byte and leaves every page of the range present. |
| `Timers.SetCancel` | packages/ntsim/src/kernel.mjs:1016-1031 | Arming and cancelling touch one timer; a re-armed one keeps its count; the answer says whether it was pending. |
| `Timers.FiresEach` | packages/ntsim/src/kernel.mjs:1039-1075 | A periodic timer fires once per due tick and is left at the first later one exactly when fewer than 64 were due, else it fires 64 times and stays due; a one-shot fires once and is removed. |
| `Timers.AdvanceMeans` | packages/ntsim/src/kernel.mjs:1083-1093 | The clock moves by the clamped ticks; above IRQL 2 nothing fires, otherwise every timer fires and is left as it would be alone. |
| `Timers.ClampMeans` | packages/ntsim/src/kernel.mjs:1084 | An advance goes by the ticks asked for, at least 0 and at most 100000. |
| `Timers.SplitIff` | packages/ntsim/src/kernel.mjs:1036-1093 | For one timer, two steps equal one exactly when it is a one-shot, or fewer than 64 expirations fall due in all, or none in the first step. |
| `Timers.SplitMany` | packages/ntsim/src/kernel.mjs:1070-1071 | Past 64 expirations the two-step run fires more or leaves the timer re-armed further on. |
| `Timers.AdvanceSplit` | packages/ntsim/src/kernel.mjs:1036-1093 | Advancing m then n ticks fires the same and leaves the same clock as m + n, exactly when every timer meets that condition. |
| `Timers.StaysDistinct` | packages/ntsim/src/kernel.mjs:1016-1093 | No operation makes two pending timers share an address. |
| `KernelClock.KernelClock.SetTimer` | packages/ntsim/src/kernel.mjs:1016-1024 | The list update is Timers.Set. |
| `KernelClock.KernelClock.CancelTimer` | packages/ntsim/src/kernel.mjs:1026-1031 | The list update is Timers.Cancel. |
| `KernelClock.KernelClock.FireDueTimers` | packages/ntsim/src/kernel.mjs:1036-1076 | The snapshot loop, updating the list in place, is Timers.FireDue, with its log and count. |
| `KernelClock.KernelClock.AdvanceTicks` | packages/ntsim/src/kernel.mjs:1083-1093 | The clamped advance is Timers.Advance. |
| `ElfLoader.LayoutOk` | packages/linux-sim/src/module-loader.mjs:294-323 | Every allocatable section lies inside the image; a section is aligned, and two are disjoint, exactly when the loader lays the module out or the addresses it brings are. |
| `ElfLoader.LayoutApart` | packages/linux-sim/src/module-loader.mjs:294-323 | The loader's own layout never overlaps section data. |
| `ElfLoader.LayoutTight` | packages/linux-sim/src/module-loader.mjs:294-323 | The layout wastes nothing: the first section at the first aligned address, after each one the next multiple of 16, from there the next aligned address; 16 where no alignment is named. |
| `ElfLoader.LinkedPlace` | packages/linux-sim/src/module-loader.mjs:324-341 | A module that brings its addresses goes where they say and its image ends with the last of them. |
| `ElfLoader.LoadedOk` | packages/linux-sim/src/module-loader.mjs:298-341 | Section data is at its address and no other byte changes. |
| `ElfLoader.PcRelativeIff` | packages/linux-sim/src/module-loader.mjs:236-246 | A PC32 or PLT32 field sign-extended and added to its address gives S + A exactly when no out-of-range note was made; S is the resolver's answer, the value, section address plus value, or base plus value. |
| `ElfLoader.AbsoluteIff` | packages/linux-sim/src/module-loader.mjs:231-262 | A 64 field holds S + A modulo 2^64; a 32 field is S + A, and a 32S field sign-extends to it modulo 2^64, exactly when no truncation note was made; S is written out for each kind of symbol. |
| `ElfLoader.NoField` | packages/linux-sim/src/module-loader.mjs:185-266 | A relocation that writes nothing: which ones are skipped, listed as unresolved, ignored, or noted as unhandled. |
| `ElfLoader.RelocsAppend` | packages/linux-sim/src/module-loader.mjs:185-271 | Relocations are applied in order, and counts, notes and unresolved names add up. |
| `ElfLoader.RelocsOk` | packages/linux-sim/src/module-loader.mjs:182-271 | Relocating non-overlapping fields writes S + A, or S + A - P, into each field and touches no other byte; S, A and P come from the module and the layout. |
| `ElfLoader.OrderFree` | packages/linux-sim/src/module-loader.mjs:185-271 | The same relocations in any order leave the same memory, if their fields do not overlap. |
| `ElfLoader.MapModuleOk` | packages/linux-sim/src/module-loader.mjs:277-364 | A module loaded and relocated: fields with S written out, section data, present pages and untouched bytes, byte by byte. |
| `ElfLoader.EntryIs` | packages/linux-sim/src/module-loader.mjs:346-358 | A name stands for the first symbol that bears it: in its section if that is loaded, from base otherwise. |
| `ElfLoader.MapModuleEntries` | packages/linux-sim/src/module-loader.mjs:344-364 | The entries are those of init_module and cleanup_module, letter by letter. |
| `ModuleLoader.LoadSections` | packages/linux-sim/src/module-loader.mjs:285-342 | Both placement loops give ElfLoader.Addrs, the image size and ElfLoader.Loaded. |
| `ModuleLoader.Relocate` | packages/linux-sim/src/module-loader.mjs:182-271 | The relocation loop is ElfLoader.ApplyRelocs, with its count, notes and unresolved names. |
| `ModuleLoader.LoadModule` | packages/linux-sim/src/module-loader.mjs:277-364 | mapModule is ElfLoader.MapModule, init and cleanup addresses included. |
| `Alu.Exact` | packages/ntsim/src/cpu.mjs:398-417 | Result and carry together are the exact sum or difference, with carry in for adc and sbb. |
| `Alu.OverflowIff` | packages/ntsim/src/cpu.mjs:421-424 | After add, sub and cmp the overflow flag is set exactly when the signed result does not fit. |
| `Alu.FlagsMean` | packages/ntsim/src/cpu.mjs:398-426 | Zero, sign and parity flags after every operation, from the result's own bits. |
| `Alu.CarryOverflowIff` | packages/ntsim/src/cpu.mjs:421-424 | After adc and sbb the overflow flag, always clear, is wrong exactly when both operands lie in one half of the range (for sbb: in different halves) and operands and carry leave that half, at every size. |
| `Alu.CarryOverflowLost` | packages/ntsim/src/cpu.mjs:421-424 | At every size: the largest signed number plus a carry, and the smallest less a borrow, turn sign with the overflow flag clear. |
| `Alu.CmpConditions` | packages/ntsim/src/cpu.mjs:428-447 | After cmp, codes 2-7, 0xe and 0xf are the unsigned and signed comparisons; 0xc and 0xd agree with less-than and greater-or-equal exactly when the operands differ. |
| `Alu.ConditionsMean` | packages/ntsim/src/cpu.mjs:428-447 | After every operation each condition code by what it says of operands and result: overflow, carry, zero, sign, parity and their combinations, every odd code the negation of the even one before it. |
| `Alu.LogicBits` | packages/ntsim/src/cpu.mjs:407-415 | and, or, xor and test act on each bit alone and clear carry and overflow. |
| `Alu.ParityIff` | packages/ntsim/src/cpu.mjs:65-70 | The parity flag is set exactly when the low byte has an even number of ones. |
| `Alu.Cpu.Execute` | packages/ntsim/src/cpu.mjs:398-426 | The flag fields after an operation are those of Alu.Alu. |
| `Alu.Cpu.AddNumbers` | packages/ntsim/src/cpu.mjs:403-404 | add on the low limb then adc on every higher one computes the exact sum, for every operand size and limb count. |
| `Alu.Cpu.SubNumbers` | packages/ntsim/src/cpu.mjs:405-406 | sub then sbb likewise, with borrow. |
| `Alu.CarryMeans` | packages/ntsim/src/cpu.mjs:403-406 | The last carry says exactly whether the sum overflows, the last borrow exactly whether the first number is smaller. |
| `VirtualTsc.RisesIff` | packages/ntsim/src/arch.mjs:326-329 | A read exceeds the last exactly when the last was not 2^64 - 1. |
| `VirtualTsc.ReadIs` | packages/ntsim/src/arch.mjs:298-330 | What one read does to streak and bias, and its value: 100 a step plus bias and jitter within 15, modulo 2^64, or one more than the last. |
| `VirtualTsc.RunRisesIff` | packages/ntsim/src/arch.mjs:305-330 | A run rises at every read exactly when the start value and the masked clocks its reads look at, which do not depend on values read, leave room below 2^64 - 1 for the reads to come. |
| `VirtualTsc.OnlyRecord` | packages/ntsim/src/arch.mjs:305-330 | What a read returned enters no later clock: it is recorded and only compared with. |
| `VirtualTsc.ReadsRise` | packages/ntsim/src/arch.mjs:305-330 | Under that condition every read exceeds all before it. |
| `VirtualTsc.BootWraps` | packages/ntsim/src/arch.mjs:298-330 | A fresh clock polled at step 0 draws a jitter of -13 at its fifth read, so the thirteenth read is 2^64 - 1 and the fourteenth is 0. |
| `VirtualTsc.WrapsAfterLargest` | packages/ntsim/src/arch.mjs:326-329 | The read after 2^64 - 1 gives zero. |
| `VirtualTsc.DeadlineReached` | packages/ntsim/src/arch.mjs:305-330 | A loop polling at intervals under 20000 steps, from any state and even while its clock is negative, has read a value of at least D within 130 + ceil(D / 50,000,000) reads after its first, if its last clock fits in 64 bits. |
| `VirtualTsc.PollingGains` | packages/ntsim/src/arch.mjs:310-326 | What polling gains, exactly: nothing for 31 reads, then 5000 times the sum of squares, and after 131 reads 50,000,000 a read. |
| `VirtualTsc.Arch.TscNow` | packages/ntsim/src/arch.mjs:298-303 | The masked clock with one jitter draw. |
| `VirtualTsc.Arch.ReadTsc` | packages/ntsim/src/arch.mjs:305-330 | The read and the new state are VirtualTsc.Rdtsc. |

## Left out

- MmuRuns.RunAgrees: cr4 stays as it is after paging is enabled; the source does not flush the cache when cr4 changes. The access guard is a function of address and direction that a run can exchange between operations; the chipset state behind it is not modelled.
- DemandPaging.EnsureRangeWorks: of a window's frame the bytes are kept unless the allocator itself takes that frame for a table, which zeroes it.
- FlatMemory.BootFlat: identity windows, the guard and pages mapped by hand are off there, because their frames can be shared; MmuRuns.RunAgrees covers them.
- MmuModel.TranslateTransparent: the last fault kept for diagnostics, and the read and miss counters are not part of the state; allocAndMap is a frameAlloc, then a mapPage and a raw write for each page, and has no operation of its own.
- MmuDevice.TranslatedMemory.ReadSpan: hasPage, canRead and the change of the SparseMemory watch hooks under translation are not modelled.
- PageTableSpace.RunAgrees: edits through windows of upper tables are stated one at a time by PageTableSpace.WindowEditTakes. A process is known by its root frame; its name and its list of mappings are not modelled.
- PageTableSpace.MapPageOk: mapping of large pages is left out: mapPage takes a large-page entry it meets for a link and writes its next entry into the data page. The walk does follow large pages.
- PageTableObject.PageTableSpace.MapPage: large pages and the list of mappings kept with a process are left out, as for PageTableSpace.MapPageOk.
- PageTableObject.PageTableSpace.CreateProcess: the record's name and the root stamped into the EPROCESS are not modelled; neither are scanSelfRefFrames and the entry formatter.
- PeMap.RebasedOk: overlapping relocation fields, which the source applies one after another, are computed by PeMap.Rebased but not described further.
- PeLink.MapImports: import slots that overlap are written in order; only their count and list are described then.
- PeLoad.LoadedAny: where sections overlap each other or the headers, memory is computed by PeMap.Loaded but not described byte by byte.
- PeRoundTrip.MapBuilt: the resolver is a function of the name; its own allocation of thunks is outside. Imports are compared as DLL and symbol, not as the joined text.
- PeMapper.MapPe: re-keying of security cookies is not part of the mapper and is not modelled.
- SehDispatch.TryDispatchException: filters and handlers are guest code and appear as a function; the exception records written to pool memory for them are not part of the unwound memory.
- SehDispatch.LookupRuntimeFunction: reading and sorting the function table is not modelled; the table is given in order.
- Unwind.UnwindFrame: loads never fault, as the sparse memory reads zero; vector register saves are skipped as in the source.
- ProcessTable.ProcessTable.ListProcesses: off a ring the source's loop need not end; the walk is stated on rings.
- ProcessTable.ProcessTable.FindEprocessByPid: likewise on rings.
- ProcessTable.ProcessTable.Bootstrap: threads, handle tables and other cross references seeded after the list are not modelled.
- KernelPool.KernelPool.FreePool: the debug log and the modelled bugcheck of strict mode appear only as the answer; blocks registered at fixed addresses and user buffers are left out.
- KernelClock.KernelClock.FireDueTimers: deferred routines are guest code that does not touch the timer list; queueing and calling them is left out.
- KernelClock.KernelClock.AdvanceTicks: retiring queued routines and the integrity sweep that ride the clock are left out.
- ElfLoader.MapModuleOk: parsing of the file is not modelled; a module is its sections, symbols and relocations. Bytes of NOBITS sections keep what memory held, as in the source.
- Alu.Cpu.Execute: instruction decoding, shifts, multiplication and the rest of the interpreter are left out.
- VirtualTsc.DeadlineReached: CPUID, model-specific registers and event recording are left out.
- The Unicorn backend, API stub tables, tracing, reports and dump tooling are formatting, constant data or foreign code.
- The second slab allocator, the io_uring ring and the eBPF machine of linux-sim would add members of a kind already here, or are not part of this model.
