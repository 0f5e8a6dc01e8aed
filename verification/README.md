# murm386 verification

A Dafny model of the hard parts of the murm386 PC/AT emulator, with proofs that
each fast or lazy representation agrees with a plain machine and that each device
protocol keeps its promises over every run.  `dafny verify dfyconfig.toml` checks
the whole project.

## What is modelled

| module | subject | source |
|---|---|---|
| GuestMemory, Arith, Wrappers | the flat guest memory, little-endian accesses, division facts | src/ega128_paging.c |
| PageTable, Paging, MemoryRuns | the FIFO page cache with its lookaside over a lazily initialised, possibly failing store, against the flat memory | src/ega128_paging.c |
| FifoMoves, GuestBlocks, WordMove | block read, write, fill and move through the cache; word-wise overlapping moves | src/mem.h, src/dos_api.c |
| ArchFlags, LazyFlags, Rotates | lazy condition codes against the architectural flags (Intel 80386 Programmer's Reference Manual, section 2.3.4), rotates one bit at a time (same manual, chapter 17) | src/i386.c |
| PageWalk, Mmu | TLB and split accesses against a fresh two-level walk per byte (same manual, section 5.2) | src/i386.c |
| FetchPage, FetchRuns, FetchExamples, Prefetch | instruction fetch through a remembered page and a prefetch buffer, with ring changes, jumps, flushes and data accesses in between, against the same walk | src/i386.c |
| IdeAddress, IdePio | IDE sector addressing and the PIO batch machine against reading and writing a slice of the image | src/ide.c |
| Calendar, Rtc | day numbers against the Gregorian calendar; the virtual clock's registers | src/misc.c |
| Float80, X87 | 64/80-bit conversion (IEEE 754-2008, section 3.4) and the lazy register file against eight plain registers | src/fpu.c |
| Pic | the 8259 pair: nested service, one acknowledgement per edge | src/i8259.c |
| CsmDma, CsmLiveness, CsmFairness | the two-core audio FIFO and its DMA request, one shared access at a time, under every interleaving | src/csm.c |
| Link, DiskCache | the two-chip link with a free-running slave, and the sector cache on top | link/link_fast.c, src/diskcache.c |
| Floppy | floppy DMA transfers and the 8237 channel | src/fdd.c, src/i8257.c |
| Slip, Md5 | SLIP streams (RFC 1055, section "PROTOCOL") and streaming MD5 (RFC 1321, sections 3.1 to 3.5) | src/espflash.c |

State that the source updates in place is a class whose methods are specified by
functions on values; what the source promises is then proved about those functions,
as invariants every method keeps, or as methods that run a whole sequence of
operations.  A backing transfer, a wait on the link and the choice of the next core
to step are nondeterministic.

## Where the code does not meet its promise

Each of these is kept as the code has it, with the exact condition under which the
promise holds and, where that is short, a concrete example.

- A disjoint guest_move_block through the cache maps its destination while it holds
  a pointer to its source.  If the source page sits in the slot due for replacement
  and the destination page is not resident, the pointer goes stale
  (FifoMoves.SourceKeptIff, MoveCorrectIff, StaleSourceExample).
- After MUL or IMUL the overflow flag is derived from CF, so an instruction that then
  writes CF and leaves OF lazy - CLC, STC, CMC, BT or SAHF - can change OF
  (LazyFlags.SetCfExact, SahfExact, MulThenClcExample, MulThenSahfExample).
- ROL and ROR test the count before it is masked, so a count of 32, 64, ... rewrites
  CF and OF although it rotates by nothing (LazyFlags.RotateExact, RotateBy32Example).
- Instruction fetch remembers a page without the privilege it was translated at: after
  a return to ring 3 a supervisor page just executed is still served.  After a flush
  the invalid page number still matches the last linear page, which is then served
  from the old translation.  The invalid prefetch tag counts as a hit for code at
  physical 0 to 14 and at the last byte, and delivers whatever the buffer held
  (FetchPage.CoherentHitIff, FetchRuns.RunVerdicts, and the three FetchExamples).
- Converting a subnormal to 80 bits shifts by its lowest set bit instead of its
  highest, so it loses all other significand bits (Float80.StoreThenLoadExact,
  StoreKeepsValue).
- An 80-bit NaN whose fraction is set only in its low eleven bits is loaded as an
  infinity: the test that should keep it looks at the significand before the integer
  bit is dropped (Float80.NanStaysIff, NanLostExample).
- Core 1 may report the end of an audio block although the last byte has not been
  played: it compares with the index it read before core 0 published that byte
  (CsmDma.Safety, StaleMeans, LostSampleExample).
- Core 0 may lower the DMA request on an index it read before core 1 played the last
  queued byte and raised the request again; the block then stops short and its
  interrupt never comes (CsmLiveness.FinishesIff, StuckStays, StallExample).
- Core 1 looks at the done flag only after playing a byte.  If it has played the last
  one before core 0 sets the flag, completion is never reported and the channel is
  never retired (CsmLiveness.FinishesIff, UnreportedExample).
- A SLIP frame that holds nothing but an escape byte leaves the escape pending and
  damages the next frame (Slip.PendingEscape, StreamIff, StuckEscapeIff, StuckEscapeExample).
- Clock registers written one by one without the SET bit are re-anchored after every
  write, so a date that is temporarily no date moves on
  (Rtc.StaysIffCalendarDay, UnfrozenWritesExample).
- The cache of card sectors marks an empty slot with 0xFFFFFFFF and therefore claims
  to hold the sector of that number, whatever its slot contains
  (DiskCache.EmptyCacheHits, SectorCache.Read, EmptyCacheExample).
- SET MULTIPLE with a bad count records an abort in the error register but then
  overwrites the error status with ready (IdePio.IdeDrive.ExecCommand).

## Model

| member | source | states |
|---|---|---|
| GuestMemory.LoadAfterStore | src/ega128_paging.c:249-277 | on the flat direct backend a load returns what the last store of that width put there, least significant byte first |
| GuestMemory.FromBytes4 | src/ega128_paging.c:205-216 | four bytes are read as one number, the first least significant |
| GuestMemory.ToBytes4 | src/ega128_paging.c:234-246 | and stored likewise |
| PageTable.Initial | src/ega128_paging.c:372-412 | with every slot empty and no page ever written back the cache stands for a memory of zeros |
| PageTable.HitWrite | src/ega128_paging.c:125-144 | marking a hit slot dirty keeps the cache standing for the same memory |
| PageTable.StoreThrough | src/ega128_paging.c:218-246 | a byte stored through a pointer into a dirty slot is that store on the flat memory |
| PageTable.StoreBlock | src/ega128_paging.c:164-171 | the same for a run of bytes inside one slot |
| PageTable.CopyBetweenSlots | src/mem.h:458-475 | a memory copy between two resident pages is that copy on the flat memory |
| PageTable.FlushSlot | src/ega128_paging.c:85-113 | a write-back, successful or torn, of a dirty slot leaves the flat memory as it is |
| PageTable.SetBitOnly | src/ega128_paging.c:39-47 | setting a page's valid bit changes that bit and no other |
| PageTable.EvictStep | src/ega128_paging.c:149-153 | emptying the victim slot keeps every page; only a failed write-back can lose the victim page |
| PageTable.LoadStep | src/ega128_paging.c:154-161 | loading a page into the empty slot keeps the invariant; only a failed read can lose that page |
| PageTable.MissStep | src/ega128_paging.c:125-162 | a whole miss: each page stays in at most one slot, clean slots equal their backing view, and the flat memory is unchanged unless a transfer failed |
| PageTable.FlushedMeansBacked | src/ega128_paging.c:335-351 | once no slot is dirty the backing store alone reproduces every page |
| Paging.MapFifo | src/ega128_paging.c:138-161 | a hit changes nothing in the slot table, a miss replaces the slot at the victim index and advances it cyclically |
| Paging.GuestRam.WritePage | src/ega128_paging.c:85-113 | the page transfer in chunks of at most 27 bytes, or a torn page on failure |
| Paging.GuestRam.BackingWrite | src/ega128_paging.c:85-113 | a page and its valid bit reach the store, or what a failed transfer leaves |
| Paging.GuestRam.BackingRead | src/ega128_paging.c:54-83 | zeros for a page never written back, else the stored page in chunks of at most 31 bytes; nothing on failure |
| Paging.GuestRam.HotPageRemember | src/ega128_paging.c:115-123 | the lookaside shifts down by one and takes the page in front |
| Paging.GuestRam.MapPage | src/ega128_paging.c:125-162 | the returned slot holds the page, the slot table moves exactly as MapFifo says, and the flat memory is kept; a hit loses nothing, a miss at most the loaded page and a dirty victim's page, and only when that page's transfer failed |
| Paging.GrowsTrans | src/ega128_paging.c:125-162 | losses add up: over consecutive operations the pages lost are exactly those whose transfer failed, each touched by an operation or resident before the first |
| Paging.MissGrows | src/ega128_paging.c:138-161 | one miss fails and loses at most the victim's page and the new page |
| Paging.GuestRam.PagePtr | src/ega128_paging.c:164-171 | the pointer stands for the guest address up to the end of its page, and writing through it is covered by a dirty mark; losses as for MapPage |
| Paging.GuestRam.PtrToLinear | src/ega128_paging.c:173-189 | a pointer into a mapped slot gives back its guest address; any other pointer is refused |
| Paging.GuestRam.Load8 | src/ega128_paging.c:191-194 | returns the byte of the flat memory; a hit loses nothing, a miss only pages whose transfer failed |
| Paging.GuestRam.Load16 | src/ega128_paging.c:196-203 | returns the flat memory's 16-bit value, also across a page end |
| Paging.GuestRam.Load32 | src/ega128_paging.c:205-216 | returns the flat memory's 32-bit value, also across a page end |
| Paging.GuestRam.Store8 | src/ega128_paging.c:218-221 | is the byte store on the flat memory |
| Paging.GuestRam.Store16 | src/ega128_paging.c:223-232 | is the 16-bit store on the flat memory, also across a page end |
| Paging.GuestRam.Store32 | src/ega128_paging.c:234-246 | is the 32-bit store on the flat memory, also across a page end |
| Paging.GuestRam.Flush | src/ega128_paging.c:335-351 | success leaves every slot clean, so that the store alone holds the memory; failure stops with the memory kept |
| MemoryRuns.RunPaged | src/ega128_paging.c:191-277 | any run of 8/16/32-bit accesses returns what the flat backend returns and leaves the flat memory, for every pattern of hits and evictions; with failing transfers the same holds outside the pages lost, which are exactly those whose transfer failed during the run, each touched by the run or resident before it; the SPI store loses none |
| FifoMoves.FifoResidency | src/ega128_paging.c:138-161 | a page that is not asked for again survives exactly as many misses as its slot is away from the victim index; hits make no difference |
| FifoMoves.SourceKeptIff | src/mem.h:458-475 | mapping the destination drops the source page exactly when the source was already resident in the victim slot and the destination misses |
| FifoMoves.MoveResult | src/mem.h:458-475 | what the span loop does to the memory, stale source pointers included; the frame outside the destination is kept (MoveFrame) |
| FifoMoves.SafeMoveIsSnapshot | src/mem.h:439-476 | when no span loses its source the move is a snapshot copy |
| FifoMoves.MoveCorrectIff | src/mem.h:439-476 | the disjoint move is a snapshot copy for every memory content if and only if no span loses its source, a condition on the slot table before the call |
| FifoMoves.CarriedChunk | src/mem.h:458-475 | on any memory with lost pages a span carries each byte from where MoveResult says, stale source or not |
| FifoMoves.SafeOrigins | src/mem.h:439-476 | in a safe or an overlapping move the destination bytes come from the source at the same offset and all others from themselves |
| FifoMoves.StaleSourceExample | src/video_profile.c:36-50 | at each size the slot table has (20, 64 and 96) a concrete table for which the disjoint move copies the wrong bytes |
| GuestBlocks.ReadBlock | src/mem.h:112-129 | equals the byte-by-byte read; failing transfers lose only their own pages, of the block or resident before |
| GuestBlocks.WriteBlock | src/mem.h:131-147 | equals the byte-by-byte write and touches nothing else; failing transfers lose only their own pages, of the block or resident before |
| GuestBlocks.FillBlock | src/mem.h:291-306 | equals the byte-by-byte fill and touches nothing else; failing transfers lose only their own pages, of the block or resident before |
| GuestBlocks.MoveChunk | src/mem.h:458-475 | one span: both pages mapped, then a forward copy, from where the source pointer really points, on the memory as the mapping leaves it; that is the flat memory outside pages whose transfer failed |
| GuestBlocks.MoveUp | src/mem.h:452-456 | overlapping, destination below: a snapshot copy; with failing transfers each byte is right unless its own page or its source's is lost |
| GuestBlocks.MoveDown | src/mem.h:444-450 | overlapping, destination above: the same |
| GuestBlocks.MoveBlock | src/mem.h:439-476 | a snapshot copy for every overlap; for disjoint blocks exactly MoveResult, hence a snapshot copy when MoveSafe; whatever transfers fail, a byte is wrong only if its own page or the page of the byte it comes from is lost, and lost pages are touched by the move or resident before |
| WordMove.ForwardCopyIsSnapshot | src/dos_api.c:249-280 | an ascending byte copy is a snapshot copy unless the destination starts inside the source |
| WordMove.ForwardCopyRepeats | src/dos_api.c:249-280 | otherwise it repeats the gap all the way |
| WordMove.ForwardCopyFrame | src/dos_api.c:249-280 | nothing outside the destination changes |
| WordMove.WordStep | src/dos_api.c:262-273 | moving one 32-bit word equals moving its four bytes at distance 0 or at least 4 |
| WordMove.MemCpy | src/dos_api.c:249-280 | byte head, word body and byte tail together are the ascending byte copy, for every alignment |
| WordMove.MemMove | src/dos_api.c:291-337 | a snapshot copy for every overlap, length and alignment; nothing else changes |
| WordMove.MemSet | src/dos_api.c:204-231 | byte head, words and byte tail together fill the block with the value's low byte, for every alignment; nothing else changes |
| WordMove.MemCmp | src/dos_api.c:339-376 | 0 exactly for equal blocks, else the difference of the first pair of unequal unsigned bytes |
| LazyFlags.SextMonotone | src/i386.c:403-416 | sign extension keeps the unsigned order of 8- and 16-bit operands, so one 32-bit comparison serves all widths |
| LazyFlags.ParityTableCorrect | src/i386.c:502-509 | the parity table holds the parity of its index |
| LazyFlags.AddShows | src/i386.c:1940-1964 | after ADD and ADC all six lazily derived flags are the architectural ones, at every width |
| LazyFlags.SubShows | src/i386.c:1940-1964 | the same after SUB, SBB and CMP |
| LazyFlags.IncShows | src/i386.c:1969-1976 | the same after INC, which keeps CF |
| LazyFlags.DecShows | src/i386.c:1969-1976 | the same after DEC, which keeps CF |
| LazyFlags.NegShows | src/i386.c:1977-1983 | the same after NEG |
| LazyFlags.LogicShows | src/i386.c:1956-1968 | the same after AND, OR, XOR and TEST (AF undefined) |
| LazyFlags.ShlShows | src/i386.c:2024-2037 | the same after SHL for every masked count; beyond the operand size CF is undefined and the other flags still right |
| LazyFlags.ShrShows | src/i386.c:2117-2131 | the same after SHR for every masked count |
| LazyFlags.SarShows | src/i386.c:2182-2195 | the same after SAR |
| LazyFlags.ImulShows | src/i386.c:2197-2264 | CF and OF after IMUL tell whether the product fits, at every width |
| LazyFlags.MulShows | src/i386.c:2266-2292 | CF and OF after MUL tell whether the high half is non-zero |
| Rotates.LeftIs | src/i386.c:2039-2076 | rotating left one bit at a time, any number of times, is moving the low part up and the top part down by the remainder of the count |
| Rotates.RightIs | src/i386.c:2078-2115 | the same to the right |
| LazyFlags.TurnValue | src/i386.c:2039-2115 | ROL and ROR store the operand rotated one bit at a time by the masked count, at every width |
| LazyFlags.CarryTurnValue | src/i386.c:2061-2094 | RCL and RCR store the low part of carry and operand rotated together by the masked count, and CF is the bit that ends on top |
| LazyFlags.RotateExact | src/i386.c:2039-2115 | for every count byte the flags after ROL, ROR, RCL and RCR are the architecture's if and only if the count is not 32, 64, ... under ROL or ROR, or CF and OF already are the operand's end bits |
| LazyFlags.RotateBy32Example | src/i386.c:2039-2055 | ROL of 0 by 32, a count that masks to none, clears a set carry |
| LazyFlags.SetCfExact | src/i386.c:565-618 | writing CF alone (CLC, STC, CMC, BT) keeps all flags right if and only if no MUL or IMUL result is pending or the new carry equals its overflow |
| LazyFlags.SahfExact | src/i386.c:2601-2605 | SAHF keeps all flags right if and only if no MUL or IMUL result is pending or AH's carry equals the overflow |
| LazyFlags.MulThenSahfExample | src/i386.c:2601-2605 | after MUL of 16 by 16 and SAHF without carry the overflow flag reads wrongly |
| LazyFlags.LahfThenSahf | src/i386.c:2596-2605 | LAHF and then SAHF of what it loaded change none of the six flags, whatever was lazy |
| LazyFlags.MulThenClcExample | src/i386.c:565-618 | after MUL of 16 by 16 and CLC the overflow flag reads wrongly |
| LazyFlags.RefreshKeeps | src/i386.c:614-622 | refreshing and clearing the mask changes no flag and no other bit |
| LazyFlags.ExecValue | src/i386.c:1940-2292 | the value delivered is the exact result at the width of the operation |
| LazyFlags.MulProduct | src/i386.c:2266-2292 | MUL: the low half plus 2^32 times the high half is the exact product at 32 bits; the exact product is in dst at 16 bits, and in AX at 8 bits |
| LazyFlags.ImulProduct | src/i386.c:2197-2264 | IMUL: the same with the exact signed product |
| LazyFlags.RunShows | src/i386.c:431-622 | over any run at widths 8, 16 and 32, rotates and SAHF included, every defined flag reads as the architecture says, as long as no carry write contradicts a pending overflow and no ROL or ROR by 32, 64, ... disturbs CF or OF |
| LazyFlags.Core.Aop | src/i386.c:1940-1964 | the helper's updates of dst, src1, src2, op and mask are those of AfterAdd and AfterSub |
| LazyFlags.Core.IncDec | src/i386.c:1969-1976 | the helper's updates are those of AfterInc and AfterDec |
| LazyFlags.Core.Shift | src/i386.c:2024-2195 | the shift helpers' updates are those of AfterShl, AfterShr and AfterSar |
| LazyFlags.Core.Multiply | src/i386.c:2238-2292 | the multiply helpers' updates are those of AfterImul and AfterMul, whose halves MulProduct and ImulProduct pin to the exact product |
| LazyFlags.Core.RotateHelper | src/i386.c:2039-2115 | the helpers store RotateRes in the operand and update flags and mask as AfterRotate |
| LazyFlags.Core.RefreshFlags | src/i386.c:614-622 | each getter reads the flags written so far, and none of them changes |
| LazyFlags.Core.Run | src/i386.c:431-622 | the imperative run shows the architectural flags at the end |
| PageWalk.SameWalk | src/i386.c:670-707 | accessed and dirty bits never change what a walk finds |
| PageWalk.XorFrame | src/i386.c:670-707 | the exclusive-or of frame and page number gives back frame plus offset for every address of the page |
| Mmu.LookupIsForbidden | src/i386.c:655-668 | the protection table is the 386 protection rule under every CR0.WP |
| Mmu.RefillKeepsEntries | src/i386.c:670-707 | a refill changes accessed bits only |
| Mmu.TlbSurvives | src/i386.c:670-747 | accessed and dirty updates leave every TLB entry equal to a fresh walk |
| Mmu.EntryAnswers | src/i386.c:709-747 | a right entry gives the same address or the same fault as the walk |
| Mmu.DataStoreKeepsWalks | src/i386.c:944-976 | a store edits a page only if it changes a frame or permission bit of the page's directory or table entry |
| Mmu.KeptTlb | src/i386.c:709-747 | any change of memory leaves the TLB right but for the pages it edits |
| Mmu.SameEdits | src/i386.c:670-747 | accessed and dirty updates edit no page |
| Mmu.Cpu.UneditedTrusted | src/i386.c:709-747 | an access to pages not edited since the last clear or their own refill goes through nothing stale |
| Mmu.Cpu.TlbClear | src/i386.c:646-653 | whatever was edited before, the whole TLB is right afterwards |
| Mmu.SplitPoint | src/i386.c:900-967 | the low nibble of the first address tells how many bytes of a straddling access lie on the first page |
| Mmu.ScatterHolds | src/i386.c:929-976 | a split store puts each byte at its own translated address and changes nothing else |
| Mmu.Cpu.MovToCr3 | src/i386.c:2489-2491 | whatever the guest did to its tables before, the TLB is right under the new CR3 (the fetch half of tlb_clear is in Prefetch.Fetcher.MovToCr3) |
| Mmu.Cpu.MovToCr0 | src/i386.c:2481-2486 | clears, and so repairs a stale TLB, exactly when PG, WP or PE changes; otherwise the TLB is as right as before (the fetch half is in Prefetch.Fetcher.MovToCr0) |
| Mmu.Cpu.TlbRefill | src/i386.c:670-707 | succeeds exactly when the walk finds the page, installs a right entry, sets bit 5 of the directory and the table entry of that page, and leaves the other slots |
| Mmu.Cpu.TranslatePage | src/i386.c:709-747 | for a page whose cached entry, if any, is right: the same address, or the same fault address and error code, as a fresh two-level walk; a successful write leaves the dirty bit set, and no other slot changes |
| Mmu.Cpu.TranslateAddress | src/i386.c:749-768 | every byte of an access translates as by itself; a fault is that of the first byte that faults |
| Mmu.Cpu.Load | src/i386.c:883-927 | 8-, 16- and 32-bit loads, split or not, gather the individually translated bytes |
| Mmu.Cpu.Store | src/i386.c:929-976 | stores, split or not, scatter them |
| Mmu.Cpu.CpuLoad | src/i386.c:978-985 | translation and load together: the bytes at their own walks, or the fault of the first that faults |
| Mmu.Cpu.CpuStore | src/i386.c:986-993 | translation and store together: nothing but those bytes changes, a fault changes nothing, and the TLB stays right but for the pages the store edits |
| PageWalk.TranslateFields | src/i386.c:670-747 | the walk by address fields and bits: directory entry at 4 times the top ten bits behind CR3, table entry at 4 times the next ten behind the directory entry, presence, write and user as bits 0, 1 and 2 of both, the frame of the table entry plus the low twelve bits, and otherwise a fault at that address with the error code of those bits |
| PageWalk.SecondPageExample | src/i386.c:673-684 | the tables of linear address 0x1000: directory slot 0, table slot 1, frame 0x5000; and 0x400000 faults |
| PageWalk.XorPage | src/i386.c:1065-1066 | exclusive-or with a page-aligned value keeps the offset in the page |
| FetchPage.HitMeans | src/i386.c:1036-1038 | the 32-bit hit test is block membership for a real tag; for the invalid tag it hits exactly at physical 0 to 14 and at the last byte |
| FetchPage.PageHitMeans | src/i386.c:1054-1055 | the exclusive-or test is page membership with room for the access for a real page; for the invalid page it hits exactly in the last linear page |
| FetchPage.HitRightIff | src/i386.c:1052-1155 | in every state, a fetch that hits the remembered page delivers the walk's bytes if and only if the remembered value is what a fresh walk at this privilege would store and no byte taken from the buffer differs from memory |
| FetchPage.CoherentHitIff | src/i386.c:1052-1155 | in a coherent state that fails in exactly three ways: user code on a remembered supervisor page, the last linear page served from an old translation, the invalid tag hit with stale bytes |
| FetchRuns.StepRemembers | src/i386.c:1065-1066 | every step - fetch, ring change, jump, flush, data access - keeps the remembered page true, except a store that rewrites its translation; a flush or a byte fetched through the walk makes it true whatever was stored before |
| FetchRuns.StepBuffers | src/i386.c:1016-1034 | the buffer stays its block while the block is not written; a jump or a flush makes it good again whatever was written |
| FetchRuns.StepVerdict | src/i386.c:1052-1155 | both verdicts for one step of the whole fetch, hit or miss |
| FetchRuns.RunVerdicts | src/i386.c:998-1155 | over any run, whatever was stored earlier: if the walk of the remembered page is kept since the last flush or walked byte, and the buffered block since the last jump or flush, every fetch that returns bytes is right if and only if it meets none of the three exceptions, and every refused fetch faults at its first byte that the walk refuses |
| FetchRuns.FetchStream | src/i386.c:1099-1155 | over any run of fetches of one, two and four bytes that succeed outside the three exceptions, the bytes delivered are those at the translations of the start address and the addresses after it, one by one, and the fetch pointer ends as many bytes further as were delivered |
| FetchExamples.RingTrapExample | src/i386.c:1394-1395 | from nothing remembered: ring 0 executes a supervisor page, set_seg drops to ring 3, and the page is served although the walk faults |
| FetchExamples.LastPageExample | src/i386.c:646-653 | after a flush the last linear page, unmapped, is served from the old translation |
| FetchExamples.StaleTagExample | src/i386.c:1036-1062 | after a jump from 0x20 to 5 the dropped tag counts as a hit and byte 0x25 is fetched instead of byte 5 |
| Prefetch.Fetcher.Fill | src/i386.c:1016-1034 | the buffer equals the 16-byte block of the address |
| Prefetch.Fetcher.Peek8 | src/i386.c:1052-1097 | is the byte step of the machine: hit served from page and buffer, miss translated, remembered and buffered, fault of the first refused byte with nothing else changed |
| Prefetch.Fetcher.Fetch8 | src/i386.c:1205-1210 | the same, with next_ip advanced on success |
| Prefetch.Fetcher.Fetch16 | src/i386.c:1099-1125 | is the two-byte step: both bytes in order from buffer or memory, straddles translated per byte, next_ip advanced on success only |
| Prefetch.Fetcher.Fetch32 | src/i386.c:1127-1155 | is the four-byte step, which drops the tag when it spans two blocks |
| Prefetch.Fetcher.SetCpl | src/i386.c:1394-1395 | a new privilege level and nothing else: the remembered page stays |
| Prefetch.Fetcher.Jump | src/i386.c:3238-3239 | a new address and a dropped tag; page and buffer bytes stay |
| Prefetch.Fetcher.MovToCr3 | src/i386.c:2489-2491 | TLB, remembered page and tag are dropped, the remembered translation value stays; a TLB left stale by page-table edits is right afterwards |
| Prefetch.Fetcher.MovToCr0 | src/i386.c:2481-2487 | the same exactly when PG, WP or PE changes |
| Prefetch.Fetcher.Invlpg | src/i386.c:3928 | the same, for whatever page is named |
| Prefetch.Fetcher.UneditedPossible | src/i386.c:709-747 | a step that touches no page edited since the last flush meets no stale translation |
| Prefetch.Fetcher.Run | src/i386.c:998-1155 | any sequence of steps carried out in place, page-table edits and flushes included, is a run of the machine; it ends early only at an access past 4 GB or to a page whose tables a store changed since the last flush |
| IdeAddress.SectorRoundTrip | src/ide.c:798-827 | a sector number below 2^28 (LBA) or below the 65536-cylinder limit (CHS) written to the registers reads back; the upper select bits stay |
| IdeAddress.RegistersRoundTrip | src/ide.c:798-827 | a proper LBA or CHS address survives being read and written |
| IdeAddress.LbaNumber | src/ide.c:798-808 | with bit 6 of the select register the number is made of the sector, low, high cylinder and low select bits, least significant byte first |
| IdeAddress.ChsNumber | src/ide.c:798-808 | without it, cylinder 0, head 0, sector 1 is number 0, and the address that follows by sectors, then heads, then cylinders has the next number |
| IdePio.FittingLoseNothing | src/ide.c:1498-1510 | accesses that each fit the remaining batch move all their bytes, whatever the batch boundaries |
| IdePio.IdeDrive.SectorStart | src/ide.c:842-859 | seeks to the addressed sector, arms 512 times the count with 0 meaning 256 sectors, and a first batch of min(count, multiple) sectors |
| IdePio.IdeDrive.Step | src/ide.c:829-835 | registers and count step past the batch (to the next sector number, if the registers can name it); the command continues exactly while bytes are left |
| IdePio.IdeDrive.BatchDone | src/ide.c:829-885 | the next batch continues at the file position, for reads by a new seek and for writes without one; the last batch ends ready |
| IdePio.IdeDrive.XferAdvance | src/ide.c:1498-1513 | an access moves the transfer along its channel, ending batch and command exactly on their boundaries |
| IdePio.IdeDrive.WriteData | src/ide.c:1536-1579 | a word or double word goes to the file position if it fits the batch, else nothing changes |
| IdePio.IdeDrive.ReadData | src/ide.c:1553-1589 | a word or double word of the image, or 0 and no change |
| IdePio.IdeDrive.WriteString | src/ide.c:1591-1618 | the largest number of whole elements within the count and the rest of the batch goes from guest memory to the image in 512-byte pieces |
| IdePio.IdeDrive.ReadString | src/ide.c:1620-1650 | the largest number of whole elements within the count and the rest of the batch goes from the image to guest memory, and nothing else changes |
| IdePio.IdeDrive.ExecCommand | src/ide.c:1236-1280 | READ and WRITE set the multiple count to 1; the MULTIPLE forms are refused at 0; SET MULTIPLE takes 0, 1, 2 or 4 |
| IdePio.IdeDrive.WriteRegister | src/ide.c:1347-1374 | the count and address registers take a byte; the select register also gets 0xA0 |
| IdePio.IdeDrive.RunWrites | src/ide.c:1536-1618 | any mix of accesses puts the bytes it gets through at the file position in order, and changes no other image byte |
| IdePio.IdeDrive.RunReads | src/ide.c:1553-1650 | any mix of accesses delivers the next bytes of the image in order and leaves the image alone |
| IdePio.IdeDrive.WriteSectors | src/ide.c:861-902 | a write command makes the addressed slice equal the bytes offered |
| IdePio.IdeDrive.ReadSectors | src/ide.c:829-859 | a read command delivers the addressed slice, 512 bytes for each sector, a count of 0 meaning 256 |
| IdePio.IdeDrive.WriteThenRead | src/ide.c:798-902 | N sectors written and read back return the same bytes, for every batch size, either addressing and any mix of fitting accesses; the rest of the image is unchanged |
| Calendar.DateRoundTrip | src/misc.c:177-206 | every valid Gregorian date comes back from its day number |
| Calendar.DayRoundTrip | src/misc.c:177-206 | every integer is the day number of a valid date |
| Calendar.NextDayIsSuccessor | src/misc.c:177-185 | the next calendar day has the next number |
| Calendar.Epoch | src/misc.c:177-206 | 1970-01-01 has number 0 |
| Calendar.YearOfEraRight | src/misc.c:187-193 | the quotient formula gives the year of every day of a 400-year era |
| Calendar.YearRange | src/misc.c:187-206 | days from the epoch up to 2100 have years 1970 to 2099 |
| Rtc.BcdRoundTrip | src/misc.c:143-175 | two-digit numbers survive BCD coding |
| Rtc.FieldsMean | src/misc.c:214-228 | seconds, minutes and hours in registers 0, 2 and 4, day, month, year and century in 7, 8, 9 and 0x32, all as two decimal digits, and the weekday counted from Sunday as 1 in register 6 |
| Rtc.ShownIsAnchored | src/misc.c:232-250 | registers that show a second from 1970 up to the start of 2100 anchor the clock at that second |
| Rtc.FieldsDecode | src/misc.c:214-250 | decoding the register fields of any second from 1970 up to the start of 2100 gives that second back |
| Rtc.StaysIffCalendarDay | src/misc.c:232-250 | in-range register contents are shown back unchanged after re-anchoring if and only if they name a day of the calendar |
| Rtc.UnfrozenWritesExample | src/misc.c:648-652 | writing month 2 on 31 January without freezing makes the clock show 3 March |
| Rtc.Cmos.FieldsFromSec | src/misc.c:214-228 | the eight time registers show the second, the others keep their content |
| Rtc.Cmos.UpdateTime | src/misc.c:252-263 | frozen registers are left alone, others show the current second; a cache marked valid never lies |
| Rtc.Cmos.ReadPort | src/misc.c:620-627 | a time register reads as the field of the current second unless frozen |
| Rtc.Cmos.WriteTime | src/misc.c:629-657 | brings the other fields up to date, stores the byte and re-anchors on all fields |
| Rtc.Cmos.SetClock | src/misc.c:629-657 | with the registers frozen, writing the fields of a second in any order sets exactly that second |
| Float80.StoreThenLoad | src/fpu.c:29-102 | a stored register loaded again is the same pattern, or for a subnormal its lowest significand bit |
| Float80.StoreThenLoadExact | src/fpu.c:29-102 | the pattern is returned if and only if it is not a subnormal with more than one significand bit set |
| Float80.SubnormalExample | src/fpu.c:38-43 | the subnormal pattern 3 comes back as 1 |
| Float80.StoreExact | src/fpu.c:29-60 | the image keeps the sign; it has exactly the magnitude of every normal float, and for a subnormal that of its lowest significand bit; every finite image is normalised; infinities and NaNs have exponent 0x7fff and the fraction 11 bits up behind the integer bit; zero is all zeros |
| Float80.StoreKeepsValue | src/fpu.c:29-60 | the magnitude of a finite value is kept if and only if it is not a subnormal with more than one significand bit set |
| Float80.StoreExamples | src/fpu.c:29-60 | 1.0 and -2.5 as 80-bit images |
| Float80.LoadTruncates | src/fpu.c:61-102 | every well-formed finite 80-bit value becomes infinity exactly from 2^1024 on, and otherwise the 64-bit float just at or below it in magnitude, with its sign |
| Float80.LoadSpecial | src/fpu.c:73-78 | an infinity or NaN keeps its sign and the top 52 bits of its fraction; a significand below 2048 that is not zero gives 1 |
| Float80.NanStaysIff | src/fpu.c:73-78 | a NaN whose integer bit is set stays a NaN if and only if one of those 52 bits is set; else it becomes an infinity |
| Float80.NanLostExample | src/fpu.c:73-78 | the NaN 7FFF 80000000 00000400 is loaded as infinity |
| X87.UnwrittenKept | src/fpu.c:162-192 | on plain registers a run leaves alone what it does not write |
| X87.PushOrder | src/fpu.c:181-192 | a push puts its value at ST(0) and moves ST(i) to ST(i + 1); a pop brings them and the top back |
| X87.PopOrder | src/fpu.c:162-192 | a pop moves ST(i + 1) to ST(i), and a write to ST(i) reaches that register alone |
| X87.SlotLayout | src/fpu.c:699-714 | register j lies 10 j bytes behind seven header words or double words: 8 bytes of significand, low byte first, then sign and exponent |
| X87.Fpu.TopOfSw | src/fpu.c:138-147 | the top of stack is bits 11 to 13 of the status word |
| X87.ImageBytes | src/fpu.c:323-333 | ten bytes of memory and the image they hold determine each other |
| X87.Fpu.SetSw | src/fpu.c:138-147 | getsw gives back the word that setsw was given |
| X87.Fpu.Fpget | src/fpu.c:162-171 | returns the register's value and changes no register's value or image |
| X87.Fpu.Fpset | src/fpu.c:173-179 | replaces one register's value and image, and no other |
| X87.Fpu.Run | src/fpu.c:162-192 | any run of reads, writes, pushes and pops acts as on eight plain registers |
| X87.Fpu.Frstor | src/fpu.c:640-674 | control word, status word, top and all eight images come from memory; the values are their conversions |
| X87.Fpu.Fnsave | src/fpu.c:678-719 | all images - for a computed register the exact one of StoreExact - both words and a zero tag word reach memory and nothing outside the area changes; the registers keep their images, and their values but for one that was written and never read |
| X87.Fpu.RestoreRunSave | src/fpu.c:640-719 | an image loaded by FRSTOR and not overwritten is stored back bit for bit, however often it was read |
| X87.Fpu.SaveRestore | src/fpu.c:640-719 | FNSAVE then FRSTOR restores control word, status, top, every image, and every value that survives storing |
| Pic.GetPriority | src/i8259.c:73-83 | 0 to 7 for the first line of a mask counting upwards from the line of highest priority, around the end, and 8 for none |
| Pic.PriorityOrder | src/i8259.c:73-83 | priority falls with the line number counted from the highest line upwards; after reset that is the line number itself |
| Pic.RotatedOrder | src/i8259.c:240-255 | after a rotation to a line that line loses to every other, and the line after it beats every other |
| Pic.PicState.DeliverableMeans | src/i8259.c:85-108 | a request passes exactly when it is unmasked and, by line numbers from the highest line upwards, before every service that counts: under a special mask the unmasked ones, in special fully nested mode not the cascade; after reset, when its line number is below theirs |
| Pic.TopIsHighest | src/i8259.c:233-243 | the last of a nested stack is its only service of highest priority |
| Pic.WithoutNested | src/i8259.c:244-248 | removing any service leaves a nested stack |
| Pic.PicState.SetIrq1 | src/i8259.c:57-69 | a request is latched exactly on a rising edge |
| Pic.PicState.GetIrq | src/i8259.c:85-108 | of the unmasked requests the first in priority order, after reset the one of the lowest line number, if it beats every service that counts, or -1 exactly when none does |
| Pic.PicState.Intack | src/i8259.c:137-146 | the request goes into service on top of the stack and is consumed: at most one acknowledgement per rising edge |
| Pic.PicState.EndOfInterrupt | src/i8259.c:233-243 | a non-specific end of interrupt retires exactly the most recently acknowledged service |
| Pic.PicPair.UpdateIrq | src/i8259.c:112-128 | a deliverable slave request is pending at the master, and the CPU is signalled exactly when the master has something deliverable |
| Pic.PicPair.SetIrq | src/i8259.c:130-134 | a bus line changes requests only, never services |
| Pic.PicPair.ReadIrq | src/i8259.c:148-175 | the vector is that of the first deliverable request of master and slave in priority order, or 7 of the chip that has none; services are stacked and nothing else changes |
| Pic.PicState.Command | src/i8259.c:226-262 | each end-of-interrupt command retires the service it names or finds by priority, rotations set the lowest priority, and in nested operation the non-specific command pops the stack |
| Pic.PicPair.WriteOcw2 | src/i8259.c:226-262 | a command to one chip leaves the other chip, all masks and all input levels alone, and no deliverable slave request is missed |
| Pic.PicPair.WriteMask | src/i8259.c:266-270 | masking changes no service |
| CsmDma.ProducerKeeps | src/csm.c:177-267 | every step of core 0 keeps the invariant |
| CsmDma.ConsumerKeeps | src/csm.c:399-442 | every step of core 1 keeps the invariant |
| CsmDma.ServiceKeeps | src/csm.c:378-391 | retiring the channel keeps the invariant |
| CsmDma.RunKeeps | src/csm.c:177-442 | every interleaving of the two cores keeps the invariant |
| CsmDma.Distance | src/csm.c:200-203 | the difference of two wrapped 32-bit indices is what they count apart |
| CsmDma.AllowanceMeans | src/csm.c:200-231 | core 0 fills the FIFO up to 255 bytes, and asks for the last byte of the block exactly when the FIFO is empty |
| CsmDma.Safety | src/csm.c:177-442 | in every interleaving of one block: at most 255 bytes in the FIFO, samples in DMA order without loss or repetition, terminal count and interrupt only after all but the last byte were taken, and completion reported with all bytes played if and only if core 0 did not publish during core 1's last turn, and at most the last byte unplayed otherwise |
| CsmDma.StaleMeans | src/csm.c:418-432 | core 0 has published since core 1 read the index exactly when the index core 1 holds is no longer core 0's |
| CsmDma.UninterruptedTurn | src/csm.c:415-438 | a turn of core 1 that is not interrupted reports completion only after all bytes were played |
| CsmDma.LostSampleExample | src/csm.c:177-442 | an interleaving of a two-byte block that reports completion, stops the channel and never plays the second byte |
| CsmDma.StoppedStays | src/csm.c:378-438 | once stopped, nothing more is played |
| CsmLiveness.ProducerAdvances | src/csm.c:177-267 | unless it waits for a request, core 0 brings a block that is not stuck closer to its end |
| CsmLiveness.ConsumerAdvances | src/csm.c:413-438 | while core 0 waits, core 1 does, or reports completion |
| CsmLiveness.CanFinish | src/csm.c:177-438 | from every state that is not stuck some interleaving reports completion |
| CsmLiveness.StuckStays | src/csm.c:177-438 | from a stuck state no interleaving fetches, plays or reports anything more; a stalled one never raises the interrupt either |
| CsmLiveness.FinishesIff | src/csm.c:177-438 | completion can still be reported if and only if the state is neither drained with the done flag looked at too early nor stalled with an empty FIFO and a request that is down, or bound to be lowered on an index read before |
| CsmLiveness.RunFinishesIff | src/csm.c:177-438 | the same after every interleaving of one block |
| CsmLiveness.StallExample | src/csm.c:198-219 | an interleaving of a two-byte block after which the second byte is never fetched and no interrupt comes |
| CsmLiveness.UnreportedExample | src/csm.c:244-253 | an interleaving that plays a two-byte block, raises the interrupt and never retires the channel |
| CsmFairness.StepFalls | src/csm.c:177-438 | no step of either core takes a block further from its end, and a step that does not bring it closer changes nothing but where core 1 waits |
| CsmFairness.RoundFalls | src/csm.c:177-438 | any stretch with a step of core 0 and two of core 1, from a state not ended or stuck, brings the block closer to its end |
| CsmFairness.EveryFairRunEnds | src/csm.c:177-438 | however the cores interleave, after 5508 (n + 1)^2 such stretches a block of n bytes has reported completion or is in one of the two kinds of stuck state |
| Link.DrainAppend | link/link_fast.c:234-300 | serving more words later is serving them all |
| Link.SendDrains | link/link_fast.c:268-277 | sending one burst word leaves exactly the rest to be sent |
| Link.TakeDrains | link/link_fast.c:234-300 | taking one word leaves exactly the rest to be served |
| Link.Wire.DrainedMeansBoundary | link/link_fast.c:234-300 | with both channels drained, master and slave are at a request boundary and the slave's memory is up to date |
| Link.Wire.UncheckedReplyFits | link/link_fast.c:249-267 | a single-word reply, sent without looking at the FIFO, finds it empty |
| Link.Wire.SlaveStep | link/link_fast.c:234-300 | a step of the slave changes nothing about the outcome of what is under way |
| Link.Wire.Read32 | link/link_fast.c:119-128 | returns the word of the slave's memory, 0 out of range, with all earlier posted writes done |
| Link.Wire.Write32 | link/link_fast.c:130-133 | a posted word store, ignored out of range |
| Link.Wire.Ping | link/link_fast.c:135-144 | a ping is answered and changes nothing |
| Link.Wire.ReadBurst | link/link_fast.c:150-165 | returns the words from the address on, 0 out of range |
| Link.Wire.WriteBurst | link/link_fast.c:170-180 | stores the words from the address on, ignoring those out of range |
| DiskCache.SlotWritten | src/diskcache.c:56-57 | a sector written to its slot is there and in no other slot |
| DiskCache.EmptyCacheHits | src/diskcache.c:64-66 | the one sector number an empty cache claims to hold is the empty mark itself |
| DiskCache.SectorCache.Read | src/diskcache.c:59-83 | success returns for each sector what its slot holds, which is the card's sector if and only if the number is not 0xFFFFFFFF or its slot happens to hold that sector; a working link delivers every range that is cached; all or none; the cache goes off if and only if a wait on the link timed out |
| DiskCache.EmptyCacheExample | src/diskcache.c:59-83 | an empty cache over a card full of ones delivers zeros for sector 0xFFFFFFFF, unless the link fails |
| DiskCache.SectorCache.Fill | src/diskcache.c:85-101 | every sector of the range that no later one of it displaces is cached afterwards, slots that none of them takes are left alone, and cached sectors equal the card; the cache goes off if and only if a wait on the link timed out |
| DiskCache.SectorCache.Invalidate | src/diskcache.c:103-111 | drops exactly the tags of the range |
| DiskCache.SectorCache.WriteThrough | src/diskcache.c:103-111 | after a write to the card and the drop, every tag again names a faithful copy |
| Floppy.NextIsContiguous | src/fdd.c:442-450 | on two heads the next sector lies 512 bytes further if and only if EOT does not end the track before its last sector |
| Floppy.ImageOrder | src/fdd.c:225-233 | sectors lie in the image 512 bytes apart in the order of their numbers, then heads, then cylinders, from byte 0 on |
| Floppy.FetchedOrder | src/i8257.c:444-464 | upwards a transfer takes a slice of guest memory, downwards one backwards |
| Floppy.MovedOrder | src/i8257.c:466-486 | and stores one likewise |
| Floppy.DmaChannel.WriteMemory | src/i8257.c:466-486 | the bytes reach guest memory in ascending or descending order and nothing else changes; a verify transfer moves nothing |
| Floppy.DmaChannel.ReadMemory | src/i8257.c:444-464 | the bytes of guest memory fill the buffer range; a verify transfer leaves it |
| Floppy.Fdc.ReadOrWrite | src/fdd.c:625-679 | refused with not-ready or no-data and one result, or started at the addressed sector |
| Floppy.Fdc.StartDma | src/fdd.c:479-499 | the transfer stands at the addressed sector with an empty buffer, and the channel is requested |
| Floppy.Fdc.ReadPart | src/fdd.c:382-450 | one turn of the read loop moves the next bytes of the image |
| Floppy.Fdc.WritePart | src/fdd.c:382-450 | one turn of the write loop collects bytes; a full sector goes to its place in the image |
| Floppy.Fdc.DmaHandler | src/fdd.c:368-474 | a read of any length delivers the linear image slice, or the whole sectors before the image end and a no-data result; a write puts every whole sector in place; one result and one completion |
| Floppy.Fdc.ChannelRun | src/i8257.c:347-383 | the command ends with terminal count, and the channel reloads or masks itself |
| Slip.Encode | src/espflash.c:183-206 | the frame of the message, or 0 exactly when the buffer is too small for it; never more than 2n+2 bytes |
| Slip.FrameExample | src/espflash.c:183-206 | the bytes 0xC0 0xDB 0x41 framed |
| Slip.NoEndInside | src/espflash.c:183-206 | the body of a frame never holds the END character |
| Slip.ReadPacket | src/espflash.c:208-267 | returns the next packet of the stream, or times out exactly when there is none |
| Slip.OneFrame | src/espflash.c:208-267 | a frame delivers what it would by itself and leaves the decoder ready for the next |
| Slip.StreamIff | src/espflash.c:208-267 | any stream of frames, from any decoder between frames or stuck: each frame delivers what it would by itself if and only if every lone escape byte is followed, after any empty frames, by a frame that delivers nothing anyway; there are never packets too many |
| Slip.StreamDecodes | src/espflash.c:208-267 | so without a lone escape byte a bad escape or an overflow loses only its own frame |
| Slip.PendingEscape | src/espflash.c:230-256 | only the body that is a lone escape byte leaves its escape pending |
| Slip.StuckEscapeIff | src/espflash.c:222-256 | after such a frame the next one is read right exactly when it would deliver nothing anyway |
| Slip.StuckEscapeExample | src/espflash.c:222-256 | a frame holding a lone escape byte takes the next frame with it |
| Slip.MessageDecodes | src/espflash.c:183-267 | an escaped message comes back if it fits the buffer and is dropped if not |
| Slip.RoundTrip | src/espflash.c:183-267 | after END-free noise, the frames of any messages decode to the non-empty messages that fit, in order |
| Md5.ChainSnoc | src/espflash.c:54-89 | one more block is one more compression |
| Md5.ZerosFit | src/espflash.c:109-114 | the padding brings every length to a block boundary |
| Md5.AbsorbBlock | src/espflash.c:97-107 | completing a block compresses exactly that block and empties the buffer |
| Md5.Context.Compress | src/espflash.c:54-89 | the 64 rounds over the buffer, added to the state |
| Md5.Context.Update | src/espflash.c:97-107 | the context then holds the longer message, and depends on nothing else |
| Md5.Context.UpdateAll | src/espflash.c:97-107 | every way of splitting a message gives the context of the whole message |
| Md5.Context.Final | src/espflash.c:109-122 | the digest of the padded message of RFC 1321, sections 3.1 and 3.2; the padding fits its 72-byte buffer and the context ends on a block boundary |

## Left out

- The EGA/VGA window, EMS banks and the expanded-memory paths of the guest memory: addresses are plain RAM.
- Timing of backing devices, and the page file's seek as a step of its own: a transfer succeeds or fails as a whole or is torn.
- Protected-mode task switching, call gates, segmentation checks and the 286 core; and linear addresses that wrap at 4 GB.
- Rotates through carry with an undefined CF going in: LazyFlags.RotateExact then leaves CF undefined, although counts above zero define it.
- SHLD, SHRD, BSF, BSR, division and BCD instructions, whose flags the lazy scheme handles in further cases of the same kind; flags the architecture leaves undefined are not compared.
- Pushing and popping the flags register: LazyFlags.Refresh stands for every use of refresh_flags.
- IDE: ATAPI and CD streaming, IDENTIFY, the second drive of a channel, interrupts, register writes during a transfer, and ranges that reach beyond the image.
- The clock: time wrap-around, the periodic interrupt, 32-bit overflow of year numbers outside the range of the registers, and register changes made by the emulator itself.
- x87: transcendental and arithmetic operations, FBLD and FBSTP, exceptions, unnormal 80-bit images, and FNSAVE or FRSTOR stopped by a page fault part-way.
- 8259: polling, re-initialisation, level-triggered mode and a device on the cascade line; after a rotation, special mask, automatic end of interrupt or special fully nested mode is set, the stack claims are no longer made.
- CSM: stopping and restarting a block, software DMA requests, the phase accumulator and the published configuration; and the time a step takes: CsmFairness bounds rounds of steps, not microseconds.
- Link.Wire.SlaveStep: the slave's own bounded wait (lf_wait_rx, link/link_fast.c:226-232), which drops a burst or a write half received, is not modelled; the slave waits for ever.
- DiskCache.SectorCache.Fill: a timeout turns the cache off for the master's waits only; a burst that the slave gave up on its own goes unnoticed by the master and is not modelled.
- Link: PIO programming, VALID-line synchronisation, FIFO capacities (every bounded run is a run of the model) and recovery after a timeout, where the code establishes no invariant.
- Floppy: FORMAT TRACK, SCAN and seek commands, one-headed disks, writes beyond the image end, address wrap of the DMA page registers, and images of more than 255 cylinders.
- Flash programmer: the command protocol above SLIP, checksums and serial timing.
- User interface, diagnostics, profiling, sound synthesis, PCI and the smaller controllers.
- Mmu.Cpu.TranslatePage: says nothing about a page that is cached and whose tables the guest has edited without a flush; the code, like the processor, then answers from the old entry.
- IdePio.IdeDrive.WriteRegister: is stated between transfers only, because during one the code steps through the registers that such a write would change.
- Floppy.Fdc.ReadOrWrite: assumes EOT at or beyond the last sector of the track; NextIsContiguous says what happens otherwise.
