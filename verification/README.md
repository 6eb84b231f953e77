# q1n1: memory mapping and message passing, verified

A Dafny 4.11 model of the data structures and protocols in q1n1 that carry its memory mapping and its message passing:

- the stage-2 page tables of the hypervisor, their software walk, and the emulation of guest accesses (`src/hv_vm.c`),
- the CPU's own page tables under the hardware walk, for both granules (`src/memory.c`),
- the DART IOMMU, the IOVA allocator and the RTKit layer that keeps the two in step (`src/dart.c`, `src/iova.c`,
  `src/rtkit.c`),
- the AFK message ring, the console ring and the virtqueue (`src/afk.c`, `src/iodev.c`, `src/hv_virtio.c`),
- the spin-table handshake and the power-up order (`src/smp.c`, `src/pmgr.c`).

`dafny verify dfyconfig.toml` checks the whole project.

## How it is built

| files | content |
|---|---|
| `Arith`, `Bits` | division with remainder by explicit witnesses; the macros of `src/types.h` and `src/utils.h` as arithmetic, with `bv64` lemmas for the masks |
| `TableHeap` | page tables as heap objects with pointers: one position per allocated table, and the three ways a tree changes |
| `HvDescriptors`, `HvView`, `HvPageTables` | stage-2 descriptors, the flat view of the tree and the software walk, and the class whose methods change the tree in place |
| `HvEmulate`, `HvMachine`, `HvAccess` | the pieces of an emulated access, the machine that performs them, and guest accesses from the abort to the mapped memory |
| `MmuView`, `MmuTables` | the CPU's tables for 16K and 4K pages, their flat view, the hardware walk, and the class that changes them |
| `Encoding` | pointers and leaves told apart by bits, for both kinds of tables |
| `Iova`, `IovaDomain` | the free list as a value and as an object with its allocated set |
| `Dart`, `DartDevice`, `Rtkit` | the IOMMU tables, the device, and the layer above |
| `AfkRing`, `AfkRuns`, `AfkSizes`, `AfkEndpoint` | the ring buffer, its runs with a concurrent consumer, the runs that fail, and the in-place code |
| `Console`, `Virtqueue`, `SpinTable`, `Pmgr` | one module each |

Page-table results are refinements: a ghost function (`View`, `At`) says what each address means, every in-place method
states the new meaning of every address, and a separately written walk is proved to read that meaning back.  Layouts and
other ghost fields are proof devices that no operation reads.

Conventions of the model:

- Descriptors and addresses are natural numbers.  Masks are written as divisions and remainders; `Bits` relates them to
  `bv64` operations.  ALIGN_UP and ALIGN_DOWN are also called with MASK(n) where 2^n is meant; `Bits.AlignUpMaskIs` shows
  that this gives the same boundary for even numbers.
- Where 64-bit wrap-around matters (`iova_reserve`, 16-bit ring indices, the call counter of the spin table) it is written
  out.
- Memory for page tables never runs out, as the code assumes by not looking at the result of memalign.  In `src/dart.c`,
  which does look, the allocation can fail.
- MMIO, system registers, barriers, TLB maintenance and printing have no effect.  Devices, hooks, faults and timeouts are
  decided by the environment: any outcome is allowed, and ghost counters record the bad ones so that contracts can say
  exactly when a call succeeds otherwise.
- The linked free list of `src/iova.c` is a sequence.
- What mmu_map and hv_map assert about alignment is part of their result or proved; what they demand of their callers
  (addresses inside the translated space, a clear type bit in the target, a target that stays inside its field, the
  increment that goes with its kind) is a precondition, in the form in which the wrappers `hv_map_hw`, `hv_map_sw`,
  `hv_map_hook`, `hv_unmap`, `mmu_add_mapping` and `mmu_rm_mapping` build their arguments.  The base of the image is an
  even address.

## What the proofs found

Properties that hold only under a condition are stated with the condition, in both directions where the row says so:

- Splitting a hardware page for word-sized entries turns the rest of the page into SPTE_MAP entries without attributes, as
  the code intends; a page at physical address 0 becomes unmapped (`HvDescriptors.SplitL3`).
- `mmu_pt_map_l1` releases the level-2 table it overwrites but not the level-3 tables below, so with 4K pages a request
  leaks memory exactly when its 1 GiB blocks go where there are level-3 tables (`MmuTables.Mmu.MmuMap`,
  `MmuTables.Mmu.Run`).  A page followed by the block that it lies in is such a run (`MmuTables.LeaksTable`).  With 16K
  pages nothing leaks.
- `mmu_map` runs into an assertion exactly for the 4K requests described by `MmuTables.RequestStops`; requests with both
  addresses equally aligned to 2 MiB are never among them.  Unmapping passes target 0 through the same code, so
  `mmu_rm_mapping` stops there too: away from the image, exactly for ranges that do not start at a 2 MiB boundary and go on
  for 1 GiB or more after the next one (`MmuTables.UnmapStops`, `MmuTables.UnmapExample`).
- `iova_reserve` gives out part of what it reserves exactly when the end of the range reaches 2^64; reserving 0 bytes in
  page 0 is one such call (`Iova.ReserveExact`, `Iova.ReserveNothingAtZero`).
- `iova_reserve` rounds the start down and the size up on its own, so a reservation from an address inside a page covers the
  requested range exactly if the rounding of the start does not cost its end a page; otherwise the end stays free
  (`IovaDomain.Domain.IovaReserve`, `IovaDomain.ReserveMisses`).
- The comment in `iovad_init` says that NULL is not handed out, while the free block starts at the base of the domain.  The
  model follows the code: address 0 is returned for a domain at 0, where it cannot be told from a failure, and
  `rtkit_map` then loses the range (`Iova.AllocZero`, `Rtkit.RtkitDev.Map`).
- `iova_free` panics exactly if the list is non-empty and no free block starts at or above the end of the range.  In a run
  from a domain with its top block this needs an allocation that takes the top block whole (`IovaDomain.Domain.Run`); every
  new domain of two pages or more gets there (`IovaDomain.PanicsFromNew`).  `rtkit_unmap` panics under the same condition.
  `rtkit_map` of an unaligned buffer, and `rtkit_unmap` right after its `rtkit_map`, meet it exactly if the allocation took
  the top block while others were left (`Rtkit.RtkitDev.Map`, `Rtkit.RtkitDev.Unmap`, `Rtkit.RtkitDev.MapUnmap`).
- `iova_free` of 0 bytes inserts an empty block unless a free block starts at the address (`Iova.FreeNothing`).
- `dart_unmap_page` and `dart_free_l2` look the L2 table up with an 11-bit index, so a mapped page is cleared exactly for
  addresses below 2^36.  Above, the page of the same number in the first TTBR is cleared instead, also when a failed
  `dart_map_flags` takes its pages back (`DartDevice.DartDev.UnmapPage`, `DartDevice.DartDev.MapFlags`), and
  `dart_free_l2` releases the table of the first TTBR while it stays linked, unlinks another one and loses its mappings
  (`DartDevice.DartDev.FreeL2`, `DartDevice.FreeLosesMapping`).
- `rtkit_unmap` with a size that is no multiple of 16 KiB leaves allocator and IOMMU in disagreement
  (`Rtkit.RtkitDev.Unmap`).
- The sender and the receiver of an AFK ring test for the end of the buffer in different ways.  On a ring of b bytes an entry
  is safe in every run exactly if its size is 0, leaves 1 to 48 modulo 64, or is so large that b is less than twice its
  size in blocks and 128 bytes.  For every other size there is a run in which the sender accepts the entry, the receiver
  takes the wrap marker for it, and the acknowledgement fails its assertion (`AfkSizes.SafeSizes`,
  `AfkSizes.BadSizeBreaks`).
- A call of `smp_call4` is lost in no interleaving exactly if the target is clear when it starts and the function is not
  null.  Two calls without a wait between them lose the second in some interleaving, from every initial state, and a call
  of a null function never returns (`SpinTable.SafeToCall`, `SpinTable.SecondCallLost`, `SpinTable.NullCallHangs`).
- The virtqueue survives the wrap of its 16-bit indices exactly for sizes that divide 65536, which the device does not
  check.  For every other size there is a run in which the host is told of one buffer twice and never of another
  (`Virtqueue.ApartExactly`, `Virtqueue.LosesBuffer`).
- The comment at the straddle path of `hv_handle_dabort` speaks of a page boundary exactly halfway through the access.  The
  code handles the boundary at any byte, and so does the model (`HvMachine.Machine.HandleDabort`).
- An emulated read that contains an aligned 64-byte block always fails, an emulated write does not
  (`HvMachine.Machine.EmulateRw`).
- `hv_emulate_rw` looks up the first word of an access, or of each half that a page boundary separates, and lets the other
  bytes follow.  A byte gets to where the tables map it exactly if the targets follow each other, which they do in a range
  mapped with `hv_map_sw` (`HvAccess.FollowsHome`, `HvAccess.GuestAccess`); a store over two words with unrelated targets
  misses (`HvAccess.StoreOverTwoWords`).

## Model

| member | source | states |
|---|---|---|
| Bits.AlignUpMaskIs | src/hv_vm.c:332-336 | ALIGN_UP with MASK(n) instead of 2^n still gives the 2^n boundary of every even number |
| Bits.AlignDownMaskIs | src/memory.c:329-331 | the same for ALIGN_DOWN |
| Bits.AlignUpMaskOdd | src/hv_vm.c:332 | on odd numbers it does not |
| Bits.AlignUpMaskBits | src/utils.h:23-24 | the macro on 64-bit words is the arithmetic used in the model |
| Bits.TargetMaskBits | src/hv_vm.c:52 | masking with PTE_TARGET_MASK is a difference of two remainders |
| Bits.TypeBits | src/hv_vm.c:211-213 | clearing PTE_TYPE and or-ing PTE_PAGE in is a sum on a word without the type bit |
| Bits.SpteTypeBits | src/hv_vm.c:63 | the SPTE_TYPE field is a quotient modulo 8 |
| Bits.HwBlockBits | src/hv_vm.c:502-505 | clearing the lower attributes of an aligned block and or-ing in the offset is a sum |
| Bits.BitsAre | src/rtkit.c:219-234 | bit k of the or, the and, and the and-not of two numbers, as they are used on device addresses, is that of their bits k |
| Bits.DisjointSum | src/rtkit.c:219 | or-ing numbers without a common bit adds them |
| TableHeap.Conserved | src/hv_vm.c:166-196 | in a well-formed tree the allocated tables are exactly the ones reachable from the root, and each can be reached in one way only |
| TableHeap.Install | src/hv_vm.c:198-227 | hanging a new table of leaves into a leaf slot keeps the tree well formed and changes no other slot |
| TableHeap.Prune | src/hv_vm.c:166-196 | releasing the subtree of a slot and writing a leaf keeps the tree well formed and changes no slot outside |
| TableHeap.StoreLeaf | src/hv_vm.c:298-303 | overwriting a leaf keeps the tree well formed |
| Encoding.StageTwoRoundTrip | src/hv_vm.c:70-84 | the bit tests of levels 1 to 3 recognise table pointers among the leaves that occur there, and the mask gives the pointer back; the pointers of levels 1 and 2 are valid for the hardware and those of level 3 are not |
| Encoding.MmuRoundTrip | src/memory.c:80-84 | the same for the CPU's tables |
| HvDescriptors.SplitL2 | src/hv_vm.c:198-227 | every one of the 2048 entries that replace an L2 leaf is a legal L3 leaf and means, at every offset, what the block meant there: hardware blocks, SPTE_MAP blocks with unaligned targets, and hooks |
| HvDescriptors.SplitL3 | src/hv_vm.c:253-286 | every one of the 4096 entries that replace an L3 leaf means what the leaf meant at that word, with hardware words turned into SPTE_MAP of the same address |
| HvDescriptors.EffShift | src/hv_vm.c:177-196 | advancing the target by a chunk and reading at an offset is reading the original target at the sum |
| HvDescriptors.AdvanceTarget | src/hv_vm.c:321-361 | a target stays legal for the rest of the range after any chunk |
| HvView.StepNewL2 | src/hv_vm.c:144-164 | a new L2 table changes the meaning of no address |
| HvView.StepSplitBlock | src/hv_vm.c:198-227 | splitting an L2 leaf in the tree changes the meaning of no address |
| HvView.StepSplitPage | src/hv_vm.c:253-286 | splitting an L3 leaf in the tree changes nothing but the kind of hardware words of that page |
| HvView.StepBlock | src/hv_vm.c:183-194 | writing an L2 leaf over a whole subtree changes the meaning of its 32 MiB and of no other address |
| HvView.StepPage | src/hv_vm.c:240-250 | the same for an L3 leaf and its 16 KiB |
| HvView.StepWord | src/hv_vm.c:298-305 | the same for an L4 word |
| HvView.HvCompose | src/hv_vm.c:308-370 | the parts of hv_map at L4, L3/L2 and L4 again compose to one flat update, word by word |
| HvView.WalkReadsView | src/hv_vm.c:472-531 | the walk from the root returns the view of every address up to the type bit, with hardware words reported without lower attributes; it is 0 exactly where the view is 0 |
| HvView.HwPageUniform | src/hv_vm.c:402-415 | all words of a page that has a hardware word mean the same |
| HvView.WalkTarget | src/hv_vm.c:404-415 | the walk of a hardware word reports the target of its page |
| HvView.UpdatedIs | src/hv_vm.c:308-370 | the composed update is the one told in numbers: hardware requests advance by pages, SPTE_MAP requests by words, hooks not at all, and outside the range only hardware words of partly mapped pages change |
| HvPageTables.StageTwo.constructor | src/hv_vm.c:119-142 | the initial tree maps nothing |
| HvPageTables.StageTwo.GetL2 | src/hv_vm.c:144-164 | returns the L2 table of the address and keeps the flat map |
| HvPageTables.StageTwo.L3Contents | src/hv_vm.c:206-221 | the loop fills the table with the entries that SplitL2 is about |
| HvPageTables.StageTwo.GetL3 | src/hv_vm.c:198-227 | returns the L3 table of the address and keeps the flat map |
| HvPageTables.StageTwo.L4Contents | src/hv_vm.c:262-281 | the loop fills the table with the entries that SplitL3 is about |
| HvPageTables.StageTwo.GetL4 | src/hv_vm.c:253-286 | returns the L4 table of the address; only hardware words of its page change, into SPTE_MAP |
| HvPageTables.StageTwo.FreeL3 | src/hv_vm.c:166-175 | releases exactly the L3 table and the L4 tables below it, each once |
| HvPageTables.StageTwo.MapL2 | src/hv_vm.c:177-196 | the flat map is updated on the range and nowhere else |
| HvPageTables.StageTwo.MapL3 | src/hv_vm.c:229-251 | the flat map is updated on the range and nowhere else |
| HvPageTables.StageTwo.MapL4 | src/hv_vm.c:288-306 | the flat map is updated on the range; outside it only hardware words of touched pages change kind |
| HvPageTables.StageTwo.HvMap | src/hv_vm.c:308-370 | refuses exactly requests that are not whole words and hardware requests that are not whole 16 KiB pages, and changes nothing then; otherwise every word of the range gets the requested kind, flags and advanced target, every other word keeps its meaning, except that hardware words of partly mapped pages become SPTE_MAP of the same address; and everything it maps below the first 32 MiB boundary, or below the image when that boundary lies in RAM below it, is mapped through L3 tables |
| HvPageTables.StageTwo.HvUnmap | src/hv_vm.c:372-375 | afterwards every address of the range walks to 0, and of the rest only hardware words of partly unmapped pages change, into SPTE_MAP of the same address |
| HvPageTables.StageTwo.HvMapHw | src/hv_vm.c:377-385 | hv_map_hw and hv_map_hw_ro: refused exactly for what is not whole 16 KiB pages; otherwise every page of the range goes to its own page of the target with the standard attributes, every word walks to a hardware entry with its own address, and no other address changes |
| HvPageTables.StageTwo.HvMapHook | src/hv_vm.c:392-395 | refused exactly for what is not whole words; otherwise every word of the range means, and walks to, that hook, and of the rest only hardware words of partly mapped pages change |
| HvPageTables.StageTwo.SetWritable | src/hv_vm.c:402-423 | succeeds exactly on hardware pages; then the page keeps its target and gets the standard attributes, in which the write permission is set exactly if asked for, and every other address keeps target, kind and attributes, also when a block had to be split |
| HvPageTables.StageTwo.WalkIsFlat | src/hv_vm.c:472-531 | the walk of the object's tree reads its flat map back |
| HvPageTables.StageTwo.AllReachable | src/hv_vm.c:166-306 | the allocated tables are exactly the reachable ones |
| HvPageTables.StageTwo.Run | src/hv_vm.c:308-370 | after any sequence of hv_map calls the flat map and the walk are those of the sequence of flat updates, told in numbers and not in terms of the code; table memory is conserved |
| HvEmulate.PackRoundTrip | src/hv_vm.c:1134-1146 | bytes copied into a word are the bytes of the word |
| HvEmulate.WordsRoundTrip | src/hv_vm.c:1109-1146 | the same for the 64-byte word area, cleared before the copy |
| HvEmulate.ByteOfIs | src/hv_vm.c:1109-1146 | byte k of a word, counted from the low end |
| HvEmulate.WidthIs | src/hv_vm.c:1111-1126 | the chosen piece is the widest power of two up to 64 that fits and is naturally aligned, and it lies in one 16K page |
| HvEmulate.BlockAhead | src/hv_vm.c:1108-1154 | a 64-byte piece comes up exactly if the range contains an aligned 64-byte block |
| HvEmulate.RetargetIs | src/hv_vm.c:1136-1137 | replacing the target of an entry changes the target and no other field |
| HvEmulate.PlaceAhead | src/hv_vm.c:1136-1152 | moving on by n bytes moves the place of the access by n bytes for mapped memory and leaves hooks alone |
| HvMachine.Machine.PaWrite | src/hv_vm.c:884-925 | a successful write of 2^w bytes changes exactly these bytes to the given ones; a failing one stays inside them |
| HvMachine.Machine.PaRead | src/hv_vm.c:927-970 | a successful read returns the bytes; 64-byte reads are not supported |
| HvMachine.PlaceIs | src/hv_vm.c:980-1075 | which entries go where: hardware and SPTE_MAP entries to their target, SPTE_HOOK and SPTE_PROXY_HOOK_RW to the hook, SPTE_PROXY_HOOK_R reads and SPTE_PROXY_HOOK_W writes to the hook and the other side to the address itself, other kinds nowhere |
| HvMachine.Machine.RwAligned | src/hv_vm.c:980-1088 | one piece goes to its target, to the address itself for the other side of one-sided hooks, or to the hook in exactly one call, kind by kind, and to nothing else; kinds above 4 fail |
| HvMachine.Machine.EmulateRw | src/hv_vm.c:1090-1157 | a successful access transfers precisely the bytes of [paddr, paddr + n) in order, or hands them to the hook in calls for the widest naturally aligned piece left, kind by kind; a failing one stays inside the range; without faults it fails exactly for reads that contain an aligned 64-byte block and for invalid entries |
| HvMachine.Machine.BothHalves | src/hv_vm.c:1295-1312 | the lower half is transferred before the upper one, each at its own place |
| HvMachine.Machine.HandleDabort | src/hv_vm.c:1159-1313 | retries exactly on hardware mappings; otherwise it succeeds, faults aside, exactly for the accesses of Emulated, and then the bytes were transferred at the places that both translations give, whichever half faulted; memory outside these places never changes |
| HvMachine.OneCall | src/hv_vm.c:1108-1154 | a hook sees a naturally aligned access of a power-of-two size in exactly one call |
| HvMachine.SupportedIs | src/hv_vm.c:980-1157 | which accesses are carried out, kind by kind: all writes and hooked reads of kinds up to 4, and of other reads those without an aligned 64-byte block |
| HvMachine.StraddlesIs | src/hv_vm.c:1237-1252 | an access straddles exactly if its first and last byte lie in different 16 KiB pages, and its upper half starts with the page of the last byte |
| HvMachine.TwoAreOne | src/hv_vm.c:1295-1312 | two halves whose places follow each other are the one unsplit transfer over both pages |
| HvMachine.ServedJoin | src/hv_vm.c:1295-1312 | the same for the calls that a hook sees |
| HvAccess.EmulationFollowsView | src/hv_vm.c:1183-1243 | the first byte of an emulated access goes where the flat view maps it, whatever the level of the entry |
| HvAccess.MappedWordIsRam | src/hv_vm.c:1004-1014 | a word mapped with SPTE_MAP walks to a software entry with its target, and its first byte is accessed there |
| HvAccess.FollowsHome | src/hv_vm.c:1127-1152 | of two software-mapped bytes k apart, the second, following the first, is accessed where the view maps it exactly if the targets are k apart |
| HvAccess.SwWord | src/hv_vm.c:387-390 | the word at distance d in a range of hv_map_sw is an SPTE_MAP word whose target is d further |
| HvAccess.RangeIsRam | src/hv_vm.c:980-1014 | every byte of such a range is accessed at its own place in the target range |
| HvAccess.BothLand | src/hv_vm.c:1245-1312 | in such a range both parts of an access over a page boundary are found, and the second lies where the first leads to |
| HvAccess.GuestAccess | src/hv_vm.c:1159-1313 | a guest access in a range of hv_map_sw, from the abort to memory: all its bytes are transferred between the buffer and their places in the target range, also across a page boundary; no other memory changes; faults aside it is carried out exactly if it was reported at the start of one of its pages and is no aligned 64-byte read |
| HvAccess.MapSw | src/hv_vm.c:387-390 | refuses exactly what is not whole words; otherwise every word of the range means, and walks to, its own word of the target, and of the rest only hardware words of partly mapped pages change |
| HvAccess.StoreOverTwoWords | src/hv_vm.c:1090-1157 | for any two word targets, an 8-byte store over both words goes to the first target whole, although the tables map its fifth byte to the second |
| MmuView.StepSplit | src/memory.c:217-241 | splitting a leaf of any level into a table keeps the meaning of every page, for both granules |
| MmuView.StepWrite | src/memory.c:203-214 | writing a leaf at any level changes the pages of its cell and no others |
| MmuView.ChildOk | src/memory.c:275-280 | the entries of a split block have the type of their level and stay aligned to their size |
| MmuView.WalkIsView | src/memory.c:178-306 | the architectural walk of the tables in memory returns the view of every page: output address and attributes, or a fault |
| MmuView.InstallGood | src/memory.c:217-241 | a split keeps the tree well formed and its leaves legal, with the same view |
| MmuView.WriteGood | src/memory.c:243-262 | so does writing a leaf over a subtree, with the view changed on the cell |
| MmuView.AloneIsChildless | src/memory.c:208-209 | releasing a table alone leaves nothing behind exactly if it points to no table |
| MmuView.ChildlessIsSmall | src/memory.c:196-215 | below a level-1 entry there is a table that points to tables exactly if one of its level-2 cells has a level-3 table |
| MmuTables.Mmu.constructor | src/memory.c:368-373 | the initial tree maps nothing and has no level-3 table |
| MmuTables.Mmu.NewEntries | src/memory.c:228-236 | the loop fills the table with the children of the leaf |
| MmuTables.Mmu.NewTable | src/memory.c:217-241 | a new table takes the place of a leaf and keeps the flat map |
| MmuTables.Mmu.GetTable | src/memory.c:178-288 | returns the table of any level for an address and keeps the flat map; the only level-3 table that may be new is the one asked for |
| MmuTables.Mmu.Overwrite | src/memory.c:203-214 | an entry becomes a leaf: the flat map changes on its cell, its level-3 tables leave the tree, and tables are leaked exactly if the table it pointed to points to tables |
| MmuTables.Mmu.SetEntry | src/memory.c:196-306 | the flat map changes on the cell of the entry and nowhere else; tables are leaked exactly when a level-1 leaf replaces a table that points to tables, that is, when there is a level-3 table below |
| MmuTables.Mmu.MapLevel | src/memory.c:196-306 | the flat map is updated on the range and nowhere else; levels 2 and 3 leak nothing; level 1 leaks exactly if a level-2 cell of the range had a level-3 table; afterwards the cells of the range have level-3 tables exactly for level 3 |
| MmuTables.Mmu.Head | src/memory.c:314-328 | maps the part below the block boundary or the image, and ends at a block boundary if anything is left |
| MmuTables.Mmu.Large | src/memory.c:330-351 | with 4K pages, the level-2 and level-1 parts meet an assertion exactly for the requests of Fires, and otherwise leak exactly if level-3 tables were where the 1 GiB blocks go, as the tree was before the request |
| MmuTables.Mmu.Rest | src/memory.c:353-366 | the last two parts never meet an assertion and finish the request |
| MmuTables.Mmu.MmuMap | src/memory.c:308-366 | refuses exactly what is not whole pages; stops at an assertion exactly for the requests of RequestStops, with the head mapped; otherwise each page of the range goes to its own target with the given attributes, or faults when unmapping, and no other page changes, told by addresses; tables are leaked exactly for the requests of Leaks, and the level-2 cells with level-3 tables afterwards are those of FineAfter |
| MmuTables.Mmu.RmMapping | src/memory.c:388-392 | refuses exactly what is not whole pages; stops at an assertion exactly for the requests of RequestStops with target 0; otherwise the pages of the range fault and no other page changes; leaks tables exactly for the requests of Leaks |
| MmuTables.Mmu.Run | src/memory.c:308-366 | a sequence of calls meets no assertion exactly if none of its calls is one of RequestStops, which with 16K pages none is; then the hardware walk finds what the flat updates say; the allocated tables are the reachable and the leaked ones; tables are leaked exactly if one of the calls made leaks, judged by the calls before it, and with 16K pages never |
| MmuTables.StopsIs | src/memory.c:308-351 | RequestStops in numbers: the 4K requests with 1 GiB or more left at the end of the head whose target is then off a 2 MiB boundary, and whose address is off a 1 GiB boundary or the target has bits 21 to 29 clear |
| MmuTables.HeadIs | src/memory.c:314-321 | the head ends with the request or at the next level-2 boundary, and where that lies in RAM below the image, at the first one from the base of the image on |
| MmuTables.HeadIsFine | src/memory.c:314-328 | every level-2 cell that the head meets has a level-3 table afterwards |
| MmuTables.LeaksTable | src/memory.c:203-214 | for any page and the 1 GiB block it lies in, mapping the page and then the block leaks a table |
| MmuTables.CoalignedIsSafe | src/memory.c:330-351 | requests with both addresses equally aligned to the level-2 block meet no assertion |
| MmuTables.MisalignedFires | src/memory.c:330-340 | a whole family of requests that do |
| MmuTables.MisalignedExample | src/memory.c:330-340 | one of them |
| MmuTables.UnmapStops | src/memory.c:308-340 | away from the image, unmapping meets an assertion exactly for ranges that do not start at a 2 MiB boundary and go on for 1 GiB or more after the next one |
| MmuTables.UnmapExample | src/memory.c:308-340 | one of them |
| MmuTables.EffectFields | src/memory.c:375-386 | the output address of a mapped page is the given address plus the offset, and its attributes are the given ones |
| Iova.AllocTakes | src/iova.c:138-169 | fails exactly if no block is large enough; otherwise returns the lowest-address fit, which was free, takes exactly the range from the free pages, and keeps the list sorted, disjoint, aligned and free of empty blocks |
| Iova.AllocZero | src/iova.c:138-169 | a successful call returns 0 exactly if the first block starts at 0 and is large enough |
| Iova.AllocNothing | src/iova.c:138-169 | a request for 0 bytes returns the first block's address and takes nothing |
| Iova.ReserveTakes | src/iova.c:66-136 | succeeds exactly if one block holds the range with room after it, and then takes exactly the range and keeps the list in order |
| Iova.ReserveWraps | src/iova.c:86-92 | a range that ends at or above 2^64 is accepted if its start is free, and its start stays free |
| Iova.ReserveExact | src/iova.c:66-136 | a successful call leaves nothing of the range free exactly if the range ends below 2^64 |
| Iova.ReserveNothingAtZero | src/iova.c:68-76 | reserving 0 bytes in page 0 asks for almost 2^64 bytes |
| Iova.FreeAdds | src/iova.c:171-231 | freeing an allocated range reaches the panic exactly if the list is non-empty and no block starts at or above the end of the range; otherwise it adds exactly the range, merged so that the list stays in order |
| Iova.FreeNothing | src/iova.c:190-224 | freeing 0 bytes keeps the list free of empty blocks exactly if a block starts at the address |
| Iova.FreeNothingSame | src/iova.c:191-207 | in that case nothing changes |
| Iova.ReserveKeepsTop | src/iova.c:87-127 | a reservation never takes the end of the topmost block |
| Iova.AllocKeepsTop | src/iova.c:145-161 | an allocation removes the top block exactly if it is the first fit and fits exactly |
| Iova.FreeRightAway | src/iova.c:190-230 | freeing what was just allocated panics exactly if the allocation took the top block and others are left |
| Iova.FreeWithTop | src/iova.c:190-230 | as long as the top block is there, freeing does not panic and keeps it |
| IovaDomain.Domain.constructor | src/iova.c:20-46 | the list is the one block [base, base + limit - 16K), nothing is allocated |
| IovaDomain.Domain.Init | src/iova.c:20-46 | returns NULL exactly for a base that is not aligned to 32 MiB, and otherwise a new domain with that list |
| IovaDomain.Domain.IovaReserve | src/iova.c:66-136 | does what Reserve says; below 2^64 free and allocated pages stay a partition of the domain and the top block stays; in terms of the arguments, exactly the pages of the start rounded down and the size rounded up stop being free, page 0 aside, and it succeeds exactly if they lie in one block and stop short of its end |
| IovaDomain.FreeBehind | src/iova.c:87-92 | the page behind a reserved range is free |
| IovaDomain.ReserveMisses | src/iova.c:68-69 | two bytes across a page boundary are reserved and the second stays free |
| IovaDomain.Domain.ReserveLoop | src/iova.c:78-136 | the loop over the list computes Reserve, although two of its four cases cannot be reached |
| IovaDomain.AllocIsFirstFit | src/iova.c:145-168 | an allocation succeeds exactly if a block has the size, and gives the start of the first such block |
| IovaDomain.Domain.IovaAlloc | src/iova.c:138-169 | the start of the first block that has the size rounded up to pages, or 0 exactly if there is none; the range was free and is allocated now; free and allocated pages stay a partition of the domain; the top block stays exactly unless the allocation takes it whole |
| IovaDomain.Domain.AllocLoop | src/iova.c:141-168 | the loop over the list computes Alloc |
| IovaDomain.Domain.IovaFree | src/iova.c:171-231 | the range is free again, or the call panics exactly in the case of FreeAdds; never while the top block is there; the invariant is kept exactly unless 0 bytes are freed away from the start of a block |
| IovaDomain.Domain.FreeLoop | src/iova.c:175-231 | the loop over the list computes Free |
| IovaDomain.Domain.Serve | src/iova.c:66-231 | one legal call of reserve, alloc or free: the new list and allocated set, and the panic, are functions of the old list and the arguments |
| IovaDomain.Domain.Run | src/iova.c:66-231 | over every run of reserve, alloc and free the list stays in order and free and allocated pages stay a partition; the run panics exactly if one of its calls does on the list before it; in a run where no allocation takes the top block whole nothing panics |
| IovaDomain.PanicsFromNew | src/iova.c:138-231 | every new domain of two pages or more panics after two allocations that leave nothing, freed in their order |
| Dart.EntryRoundTrip | src/dart.c:535-537 | an entry built from a representable address and disjoint flags is valid and gives the page address back |
| Dart.EntryParts | src/dart.c:535-537 | in an entry the page number stands in the address field and the flags are all that is outside it |
| Dart.TranslateIsEntry | src/dart.c:629-667 | the translation walk depends on the entry of the page only |
| Dart.EntryStored | src/dart.c:535-537 | writing one L2 entry changes one page |
| Dart.EntryLinked | src/dart.c:506-516 | a new L2 table changes no entry |
| Dart.EntryUnlinked | src/dart.c:625-626 | releasing an L2 table without valid entries changes no valid entry |
| Dart.Unlinked | src/dart.c:612-626 | unlinking a slot and releasing a table without valid entries clears the valid entries of the slot and no others, whether or not they belong together |
| Dart.Dangling | src/dart.c:612-626 | if they do not, a released table stays linked and a table that is not linked stays allocated |
| DartDevice.DartDev.constructor | src/dart.c:250-256 | new L1 tables translate nothing |
| DartDevice.DartDev.GetL2 | src/dart.c:495-517 | returns the L2 table, a new one that changes no entry, or none if memory ran out |
| DartDevice.DartDev.MapPage | src/dart.c:519-540 | sets the entry of one page, and fails exactly if the page is mapped or memory ran out |
| DartDevice.DartDev.MapFlags | src/dart.c:542-567 | on success every address of the range translates to its counterpart, its entry holds the page number and the given flags and nothing else, and no other entry changes; on failure below 2^36 no translation changes, so it is all or nothing; in general a failure leaves the pages mapped before it, except that the pages of their numbers in the first TTBR are unmapped; apart from memory it fails exactly for misaligned requests and mapped pages |
| DartDevice.DartDev.UnmapPage | src/dart.c:574-585 | clears the page of the same number in the first TTBR where the page has an L2 table, so it clears a mapped page exactly if the address is below 2^36 |
| DartDevice.DartDev.Unmap | src/dart.c:587-602 | for every range, clears exactly the pages of the first TTBR that have the number of a page of the range with an L2 table; below 2^36 these are the pages of the range; never a page above, and nothing for a misaligned request |
| DartDevice.DartDev.FreeL2 | src/dart.c:604-627 | below 2^36 it releases the table exactly if it has no valid entry, and no translation changes in any case; above 2^36, if the table of the slot modulo 2048 is empty, the mappings of the slot are lost, a released table stays linked and another is leaked; the invariant survives exactly below 2^36 |
| DartDevice.DartDev.CheckEmpty | src/dart.c:618-623 | the loop finds out whether the table has a valid entry |
| DartDevice.FreeLosesMapping | src/dart.c:604-627 | a page mapped at 2^36 is no longer mapped after dart_free_l2 of its address, although it was valid |
| DartDevice.DartDev.TranslateReadsV | src/dart.c:629-667 | every translation is determined by the valid entries |
| DartDevice.DartDev.FindIova | src/dart.c:704-731 | returns the lowest aligned window at or above the start and below 2^36 in which no page translates, and DART_PTR_ERR exactly if there is none, although it jumps past blocking pages; if no valid entry has target 0, the window is unmapped |
| DartDevice.DartDev.NullIsUnmapped | src/dart.c:629-667 | if no valid entry has target 0, the pages that do not translate are exactly the unmapped ones |
| DartDevice.DartDev.Extent | src/dart.c:717-721 | the inner loop finds how far the pages do not translate |
| Rtkit.RtkitDev.Map | src/rtkit.c:195-225 | on success the buffer is visible at the range that the allocator gave, with entries that hold the device's flags, and the device address is the sum of that address and the base if they have no common bit; allocator and IOMMU agree afterwards, on success and on failure, exactly unless address 0 was handed out; it panics only if the allocation took the top block, and apart from table memory exactly then for unaligned buffers; apart from table memory it succeeds exactly for aligned buffers that fit |
| Rtkit.RtkitDev.Unmap | src/rtkit.c:227-242 | gives the range back and clears its pages; allocator and IOMMU agree afterwards exactly for multiples of 16 KiB; panics exactly if no free block lies above |
| Rtkit.RtkitDev.MapUnmap | src/rtkit.c:195-242 | unless the allocation takes the top block while others are left, mapping and unmapping does not panic and restores the allocated set and every translation; apart from table memory it panics exactly then |
| Rtkit.RtkitDev.PanicFacts | src/rtkit.c:195-242 | a range given back right after its allocation meets the panic exactly if it was the top block and others are left |
| AfkRing.HeaderBytes | src/afk.c:42-48 | the header is the letters "IOP " followed by size, channel and type as little-endian words |
| AfkRing.EntryReads | src/afk.c:271-295 | an entry written to the ring decodes to itself |
| AfkRing.TxWrites | src/afk.c:316-334 | the sender's writes put the entry where the receiver looks and touch nothing else but the header before the wrap |
| AfkRing.TxPointerOk | src/afk.c:321-332 | the new write pointer is 64-aligned, inside the buffer, and different from the read pointer of any consumer that has advanced since the snapshot |
| AfkRing.TxAppends | src/afk.c:297-337 | with any stale read pointer, a transmission overwrites no unread entry and appends exactly one entry to the decoded queue |
| AfkRing.FullExactly | src/afk.c:306-314 | the test refuses exactly if the entry fits neither after the write pointer nor at the start of the buffer with a gap left |
| AfkRing.RxFinds | src/afk.c:271-295 | where the two wrap tests agree, the receiver finds the oldest entry, and acknowledging it leaves the rest of the queue |
| AfkRing.RxMisses | src/afk.c:282-290 | where they disagree, the receiver stays at the marker and the acknowledgement fails its assertion |
| AfkRing.AgreeEverywhere | src/afk.c:282-323 | the tests agree at every position of every ring exactly for sizes 0 and sizes that leave 1 to 48 modulo 64 |
| AfkRing.AgreeHeld | src/afk.c:282-323 | wherever an entry of a size that is good for the ring can stand, the tests agree |
| AfkRuns.StepKeepsInv | src/afk.c:271-374 | every step of sender or receiver, with entries of sizes that are good for the ring, keeps the ring a queue of the entries sent and not yet acknowledged |
| AfkRuns.NoFault | src/afk.c:277-288 | no step finds a bad magic number or fails the assertion |
| AfkRuns.Fifo | src/afk.c:271-374 | in every interleaving that sends entries of sizes that are good for the ring, with a read pointer snapshot of any age, the entries are received in order, once each, the ring holds exactly the others, and no step faults |
| AfkSizes.Deliver | src/afk.c:271-374 | from a ring at rest, at any position, an entry of good size that fits can be sent and acknowledged |
| AfkSizes.Misdeliver | src/afk.c:282-290 | from a ring at rest where the tests disagree, an entry that fits is sent and its acknowledgement fails the assertion |
| AfkSizes.BadSizeBreaks | src/afk.c:271-374 | for every ring and every entry of a size that is not good for it there is a run from the initial state, in which all other entries are of good sizes, that ends with an acknowledgement that fails its assertion |
| AfkSizes.SafeSizes | src/afk.c:271-374 | on a ring of b bytes, an entry's size is 0, or leaves 1 to 48 modulo 64, or is too large to wrap unnoticed, exactly if no run that sends it among entries of good sizes comes to a fault |
| AfkSizes.SafeOnAllRings | src/afk.c:141-163 | an entry is safe on every ring that 16 bits of 64-byte blocks can describe exactly if it is on the largest |
| AfkEndpoint.Ring.Tx | src/afk.c:297-355 | refuses exactly if Full, and otherwise appends the entry for every consumer position since the snapshot |
| AfkEndpoint.Ring.WriteEntry | src/afk.c:316-337 | the writes in place are the buffer and pointer that the ring lemmas are about |
| AfkEndpoint.Ring.Rx | src/afk.c:271-295 | returns the position of the entry and moves the read pointer over the marker, or reports a bad magic number and changes nothing |
| AfkEndpoint.Ring.RxAck | src/afk.c:357-374 | moves the read pointer past the entry, or fails the assertion exactly if the end lies outside the buffer |
| Console.ReceivedInOrder | src/iodev.c:187-236 | what a device accepted are bytes of the one stream at strictly increasing positions, and at all positions that count as delivered |
| Console.ReceivedWithoutGap | src/iodev.c:187-236 | a device that every call found a console and at most 8192 bytes behind has received the stream without a gap |
| Console.BufferedWrite | src/iodev.c:247-254 | a copy into the ring keeps the last 8192 positions of the stream in it |
| Console.Log.constructor | src/iodev.c:35-37 | nothing written, nothing received |
| Console.Log.Offer | src/iodev.c:208-219 | whatever part of an offer the device accepts is appended to what it received, and the read position follows |
| Console.Log.OfferPiece | src/iodev.c:208-219 | a piece of the backlog that does not wrap around the ring is offered, and what is accepted is the stream at the read position |
| Console.Log.Flush | src/iodev.c:207-219 | the backlog is offered in order from the ring, in pieces that do not wrap, until it is done or refused |
| Console.Log.Current | src/iodev.c:221-234 | then the bytes of the call |
| Console.Log.Serve | src/iodev.c:187-237 | a missing device is left alone, a device that is no console drops everything, a console receives what follows its read position without what is more than 8192 bytes behind; it refuses exactly if it could not write or answered an offer with nothing, and a console that did not ends up to date, having received the stream from its read position or from 8192 bytes before the write position on |
| Console.Log.Store | src/iodev.c:239-254 | the ring holds the last 8192 positions of the stream afterwards, also for longer writes |
| Console.Log.Write | src/iodev.c:166-259 | all of the above for every device, with the invariant that a position was skipped only in a call that found it pending and the device either no console or more than 8192 bytes behind it; the history of calls records the read positions and which devices were consoles |
| Console.Log.NoGap | src/iodev.c:187-236 | so a device that kept up in every call has received exactly the stream up to its read position |
| Virtqueue.ApartExactly | src/hv_virtio.c:124-163 | consecutive entries never share a slot exactly for queue sizes that divide 65536 |
| Virtqueue.Queue.NotifyOne | src/hv_virtio.c:132-133 | the host hears of the buffer in the next slot; for sizes that divide 65536 that is the oldest buffer that it has not heard of |
| Virtqueue.Queue.NotifyBuffers | src/hv_virtio.c:124-134 | the host hears of as many buffers as were offered, each as its slot says; for sizes that divide 65536 it hears of every offered buffer once and in order, across the wrap of the indices |
| Virtqueue.Queue.PutBuffer | src/hv_virtio.c:147-167 | the buffer is stored in its slot, and the interrupt is raised; for sizes that divide 65536 it overwrites no entry that the driver has not collected |
| Virtqueue.Queue.Collect | src/hv_virtio.c:161-163 | for sizes that divide 65536 the driver finds the used entries once each and in order |
| Virtqueue.LosesBuffer | src/hv_virtio.c:124-134 | for every other size a run of at most one ring of outstanding buffers in which the host is told of one buffer twice and never of another |
| SpinTable.StepKeepsInv | src/smp.c:80-105 | every step of caller or secondary keeps the handshake invariant, as long as calls start with a clear target |
| SpinTable.AlternatingIsGuarded | src/smp.c:477-488 | waiting for each call before the next is enough for that |
| SpinTable.FlagCounts | src/smp.c:95-100 | in every run the flag counts, modulo 2^64, the calls that the secondary has taken up |
| SpinTable.ExactlyOnce | src/smp.c:80-105 | in every interleaving where each call is waited for before the next, the functions run once each, in order and with their arguments, and each wait returns the value of its call |
| SpinTable.LostForever | src/smp.c:97-104 | a call whose target was stored before the previous one was cleared never runs and never returns |
| SpinTable.SafeToCall | src/smp.c:449-475 | a call is lost in no interleaving exactly if the target is clear when it starts and the function is not null; otherwise an interleaving loses it for good |
| SpinTable.StaysFound | src/smp.c:80-105 | a call of a function that was posted properly is lost in no continuation |
| SpinTable.SecondCallLost | src/smp.c:449-475 | from every initial state, and for all functions, a run of two calls without a wait in between loses the second for good |
| SpinTable.NullCallHangs | src/smp.c:449-475 | after a call of a null function neither party can move |
| SpinTable.EveryStepIsWork | src/smp.c:80-105 | every step brings the handshake closer to rest |
| SpinTable.NoDeadlock | src/smp.c:449-488 | while a call of a function or a wait is open some step can be taken |
| Pmgr.ParentHasFewer | src/pmgr.c:140-149 | in an acyclic parent graph a parent has fewer ancestors than its child, so the recursion ends |
| Pmgr.ParentIs | src/pmgr.c:140-149 | the parents of a device are the devices that its two parent ids name |
| Pmgr.UpRunStaysClosed | src/pmgr.c:151-194 | a set of powered devices that contains the ancestors of its members does so after every register write of a run |
| Pmgr.AllParents | src/pmgr.c:172-181 | powering the parents of a device powers all its ancestors |
| Pmgr.DownStaysClosed | src/pmgr.c:203-208 | powering one device down keeps the set closed exactly if nothing powered stands on it |
| Pmgr.Domains.FindDevice | src/pmgr.c:106-118 | finds the first device with the id, or there is none |
| Pmgr.Domains.SetMode | src/pmgr.c:84-138 | one register write that may time out |
| Pmgr.Domains.PowerUp | src/pmgr.c:151-201 | every register write, in successful and failing runs, adds at most one device whose non-virtual ancestors are on; on success the device, the devices named by its two parent ids, and all its ancestors are on; without timeouts it fails exactly if an id or an address above the device is missing |
| Pmgr.Domains.PowerUpAll | src/pmgr.c:229-246 | the same for a list of devices, going on after a failure |
| Pmgr.Domains.PowerDown | src/pmgr.c:203-208 | changes that device only |

## Left out

- Instruction decoding of loads and stores (`emulate_load`, `emulate_store`): the decoded address, width and data are parameters of HandleDabort, and the write-back to registers is not modelled.
- HvPageTables.StageTwo.HvMapHw: targets that are no multiple of 16 KiB, whose low bits the code would or into the attributes.
- HvAccess.MapSw: a target of 0, whose first word the code takes for no entry.
- HvPageTables.StageTwo.HvMapHook: hooks at addresses that are no multiple of 4 or reach bit 50.
- MMIO trace events, the watchdog breadcrumbs and the rest of the data-abort handler after the transfer.
- HvMachine.Machine.CallHook: hooks and the proxy are an environment that answers or refuses; they do not change the modelled memory.
- HvMachine.Machine.EmulateRw: targets that run past bit 49 within the access are excluded, as hv_map's callers exclude them.
- HvMachine.Machine.BothHalves: the same for the target of each half.
- HvMachine.Machine.HandleDabort: the same for the targets of the access that faulted.
- Requests whose addresses leave the translated space: hv_map and mmu_map assert that they do not, and the model requires it.
- MmuTables.Mmu.GetTable, MmuTables.Mmu.SetEntry and MmuTables.Mmu.MapLevel: one method stands for the three functions of levels 1 to 3, which differ in constants only.
- The order of table updates against TLB maintenance and concurrent hardware walks, SPRR permissions, and the fixed list of mappings made at start-up.
- IovaDomain.Domain.constructor: limits that are no multiple of 16 KiB and failing allocations are excluded, as is calloc failing later in `src/iova.c`; Init adds the bases for which `iovad_init` returns NULL.
- IovaDomain.Domain.IovaFree: only ranges that are allocated are freed, as the code demands of its callers; `iovad_shutdown` is not modelled.
- DartDevice.DartDev.FindIova: starts and lengths whose sum reaches 2^64 are excluded; the code's sum wraps there.
- DartDevice.DartDev.MapFlags: what a failed call leaves above 2^36 is described if no table for the first TTBR had to be made in vain.
- DartDevice.DartDev.UnmapPage, DartDevice.DartDev.FreeL2: above 2^36 a table for the first TTBR may have to be made; where memalign fails then, the code goes through a NULL pointer.  The model counts this (`nulls`) and describes nothing of what follows.
- Rtkit.RtkitDev.Unmap: buffers of size 0 are left out.
- `dart_init`, `dart_setup_pt_region`, `dart_shutdown`, `dart_search` and the register side of the DART.
- The SART branch of `src/rtkit.c` and its message protocol.
- AfkEndpoint.Ring.Tx: the doorbell message after the transmission, which can fail without undoing it, is not modelled; neither are the EPIC messages carried in the entries.
- Console.Log.Write: output before the MMU is on and output from inside a device, which bypass the ring, are not modelled; `iodev_console_kick` writes an empty string through the same path and then lets the devices handle their events.
- Virtqueue.Queue.PutBuffer: the host gives back no more buffers than it was told of.
- Virtqueue.Queue.Offer: stands for the driver in the guest, which the standard obliges to keep at most one ring of buffers outstanding; queue sizes of 0 and from 65536 on, descriptor chains and device registers are not modelled.
- The state of the spin table is sequentially consistent: the barriers of `src/smp.c` are taken to give that.  Start-up of the cores, IPIs and sleeping are not modelled, nor are calls to the boot CPU or to CPU numbers out of range, which do nothing.
- Pmgr.Domains.SetMode: one die, one register per device, and a write that times out either took effect or did not; the check that the driver was initialised is left out, and so are resets.
- Everything else in the repository: device tree edits, display, PCIe, USB, NVMe, proxy and start-up code.
